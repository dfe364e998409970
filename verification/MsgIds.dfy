/** MsgIDUtil: message ids as decimal strings, counted up from a random one. */
module MsgIds {
  import opened Bytes
  import opened Wrappers

  const ZERO: byte := 48
  const NINE: byte := 57
  const LENGTH: nat := 20

  predicate IsDigit(b: byte) { ZERO <= b <= NINE }

  predicate IsNumber(s: seq<byte>) { forall i | 0 <= i < |s| :: IsDigit(s[i]) }

  predicate AllNines(s: seq<byte>) { forall i | 0 <= i < |s| :: s[i] == NINE }

  function Value(s: seq<byte>): (v: nat)
    requires IsNumber(s)
  {
    if s == [] then 0 else 10 * Value(s[..|s| - 1]) + (s[|s| - 1] as int - ZERO)
  }

  function Power10(n: nat): (p: nat)
    ensures 1 <= p
  {
    if n == 0 then 1 else 10 * Power10(n - 1)
  }

  lemma {:induction false} ValueBound(s: seq<byte>)
    requires IsNumber(s)
    ensures Value(s) < Power10(|s|)
    ensures Value(s) == Power10(|s|) - 1 <==> AllNines(s)
  {
    if s != [] {
      var init, last := s[..|s| - 1], s[|s| - 1];
      ValueBound(init);
      assert s == init + [last];
      assert AllNines(s) <==> AllNines(init) && last == NINE;
    }
  }

  /** The last position that does not hold a nine. */
  function CarryStop(s: seq<byte>): (i: Option<nat>)
    ensures i.None? <==> AllNines(s)
    ensures i.Some? ==> i.value < |s| && s[i.value] != NINE && AllNines(s[i.value + 1..])
  {
    if s == [] then None
    else if s[|s| - 1] != NINE then Some(|s| - 1)
    else
      assert s == s[..|s| - 1] + [s[|s| - 1]];
      var i := CarryStop(s[..|s| - 1]);
      assert i.Some? ==> s[i.value + 1..] == s[..|s| - 1][i.value + 1..] + [NINE];
      i
  }

  lemma {:induction false} CarryStopsAt(s: seq<byte>, i: nat)
    requires i < |s| && s[i] != NINE && AllNines(s[i + 1..])
    ensures CarryStop(s) == Some(i)
  {
    if i < |s| - 1 {
      assert s[|s| - 1] == s[i + 1..][|s| - 2 - i];
      assert s[..|s| - 1][i + 1..] == s[i + 1..][..|s| - 2 - i];
      CarryStopsAt(s[..|s| - 1], i);
    }
  }

  /** A nine at `i` with nothing but nines behind it: there is another digit before it unless all are nines. */
  lemma CarryGoesOn(s: seq<byte>, i: nat)
    requires i < |s| && s[i] == NINE && AllNines(s[i + 1..]) && !AllNines(s)
    ensures 0 < i && AllNines(s[i..])
  {
    assert s[i..] == [NINE] + s[i + 1..];
    assert s[0..] == s;
  }

  function Zeros(n: nat): seq<byte> { seq(n, _ => ZERO) }

  /** The number after `s`, of the same length. */
  function Incremented(s: seq<byte>): (r: seq<byte>)
    requires IsNumber(s) && !AllNines(s)
    ensures |r| == |s|
  {
    var i := CarryStop(s).value;
    s[..i] + [s[i] + 1] + Zeros(|s| - i - 1)
  }

  lemma TenTimes(v: int, p: int)
    ensures 10 * (v * p) == v * (10 * p)
  {
  }

  lemma SnocValue(s: seq<byte>, d: byte)
    requires IsNumber(s) && IsDigit(d)
    ensures IsNumber(s + [d]) && Value(s + [d]) == 10 * Value(s) + (d as int - ZERO)
  {
    assert (s + [d])[..|s|] == s;
  }

  lemma {:induction false} ValueSplit(a: seq<byte>, b: seq<byte>)
    requires IsNumber(a) && IsNumber(b)
    ensures IsNumber(a + b) && Value(a + b) == Value(a) * Power10(|b|) + Value(b)
    decreases |b|
  {
    hide Value, IsDigit;
    if b == [] {
      assert a + b == a;
      NoDigits();
    } else {
      var init, last := b[..|b| - 1], b[|b| - 1];
      assert b == init + [last] && a + b == a + init + [last];
      ValueSplit(a, init);
      SnocValue(init, last);
      SnocValue(a + init, last);
      TenTimes(Value(a), Power10(|init|));
    }
  }

  lemma NoDigits()
    ensures Value([]) == 0
  {
  }

  lemma {:induction false} ZerosValue(n: nat)
    ensures IsNumber(Zeros(n)) && Value(Zeros(n)) == 0
  {
    if n != 0 {
      ZerosValue(n - 1);
      assert Zeros(n)[..n - 1] == Zeros(n - 1);
    }
  }

  /** Taking one more at the digit the carry stops at, and zeros for the nines behind it. */
  lemma CarryValue(head: seq<byte>, d: byte, tail: seq<byte>)
    requires IsNumber(head) && ZERO <= d < NINE && IsNumber(tail) && AllNines(tail)
    ensures IsNumber(head + [d] + tail) && IsNumber(head + [d + 1] + Zeros(|tail|))
    ensures Value(head + [d + 1] + Zeros(|tail|)) == Value(head + [d] + tail) + 1
  {
    hide Value, Power10;
    SnocValue(head, d);
    SnocValue(head, d + 1);
    ZerosValue(|tail|);
    ValueBound(tail);
    ValueSplit(head + [d], tail);
    ValueSplit(head + [d + 1], Zeros(|tail|));
    OneMore(Value(head + [d]), Power10(|tail|));
  }

  lemma IncrementedParts(s: seq<byte>) returns (head: seq<byte>, d: byte, tail: seq<byte>)
    requires IsNumber(s) && !AllNines(s)
    ensures s == head + [d] + tail && IsNumber(head) && ZERO <= d < NINE && IsNumber(tail) && AllNines(tail)
    ensures Incremented(s) == head + [d + 1] + Zeros(|tail|)
  {
    hide Value;
    var i := CarryStop(s).value;
    head, d, tail := s[..i], s[i], s[i + 1..];
    assert IsDigit(s[i]);
    assert s == head + [d] + tail;
  }

  /** Counting up adds exactly one. */
  lemma IncrementedValue(s: seq<byte>)
    requires IsNumber(s) && !AllNines(s)
    ensures IsNumber(Incremented(s)) && Value(Incremented(s)) == Value(s) + 1
  {
    var head, d, tail := IncrementedParts(s);
    hide *;
    CarryValue(head, d, tail);
  }

  lemma OneMore(v: int, p: int)
    ensures (v + 1) * p == v * p + p
  {
  }

  /** The id after k more calls. */
  function After(s: seq<byte>, k: nat): (r: Option<seq<byte>>)
    requires IsNumber(s)
    ensures r.Some? ==> IsNumber(r.value)
  {
    if k == 0 then Some(s)
    else match After(s, k - 1)
      case None => None
      case Some(t) => if AllNines(t) then None else (IncrementedValue(t); Some(Incremented(t)))
  }

  /** From a seed of value v the calls return v, v + 1, v + 2, ... in strings of the seed's length, up to the string of
      nines and not beyond it. */
  lemma {:induction false} CallsCountUp(s: seq<byte>, k: nat)
    requires IsNumber(s)
    ensures After(s, k).Some? <==> Value(s) + k < Power10(|s|)
    ensures After(s, k).Some? ==> |After(s, k).value| == |s| && Value(After(s, k).value) == Value(s) + k
  {
    if k == 0 {
      ValueBound(s);
    } else {
      CallsCountUp(s, k - 1);
      match After(s, k - 1)
      case None =>
      case Some(t) =>
        ValueBound(t);
        if !AllNines(t) {
          IncrementedValue(t);
        }
    }
  }

  /** So the ids of one seed are pairwise distinct. */
  lemma IdsAreDistinct(s: seq<byte>, j: nat, k: nat)
    requires IsNumber(s) && j < k && After(s, k).Some?
    ensures After(s, j).Some? && After(s, j) != After(s, k)
  {
    CallsCountUp(s, j);
    CallsCountUp(s, k);
  }

  /** One random byte as a digit. */
  function ToDigit(b: byte): byte { b % 10 + ZERO }

  function Seed(random: seq<byte>): (r: seq<byte>)
    ensures |r| == |random| && IsNumber(r)
  {
    seq(|random|, i requires 0 <= i < |random| => ToDigit(random[i]))
  }

  /** Each digit of a seed is the last decimal digit of its random byte. */
  lemma SeedDigits(random: seq<byte>)
    ensures |Seed(random)| == |random| && forall i | 0 <= i < |random| :: Seed(random)[i] - 48 == random[i] % 10
  {
  }

  /** Every number of that length is the seed of some bytes, so every id is possible. */
  lemma EverySeedOccurs(id: seq<byte>) returns (random: seq<byte>)
    requires IsNumber(id)
    ensures |random| == |id| && Seed(random) == id
  {
    assert forall i | 0 <= i < |id| :: IsDigit(id[i]);
    random := seq(|id|, i requires 0 <= i < |id| => id[i] - 48);
  }

  function Nines(n: nat): seq<byte> { seq(n, _ => NINE) }

  /** The generator of one thread. */
  class MsgIdGenerator {
    var current: seq<byte>
    var maximum: seq<byte>

    /** Not seeded yet, or holding an id of full length after `seeds` seedings. */
    ghost predicate Valid(seeds: nat)
      reads this
    {
      && maximum == Nines(LENGTH * seeds)
      && (if seeds == 0 then current == [] else |current| == LENGTH && IsNumber(current))
    }

    constructor ()
      ensures Valid(0)
    {
      current, maximum := [], [];
    }

    /** Whether the next call takes the reseeding branch. */
    predicate Reseeds()
      reads this
    {
      current == [] || current == maximum
    }

    /** The carry loop stops inside the string unless the id is all nines and not recognised as the maximum. Each
        seeding appends another twenty nines to the maximum, so that happens exactly when the generator has been seeded
        more than once and reaches the string of nines again. */
    lemma OverrunsIff(seeds: nat)
      requires Valid(seeds)
      ensures !Reseeds() && CarryStop(current).None? <==> 1 < seeds && AllNines(current)
    {
      if seeds == 1 && AllNines(current) {
        assert current == Nines(LENGTH);
      }
      if 1 < seeds {
        assert |maximum| == LENGTH * seeds != LENGTH;
      }
    }

    /** The reseeding branch, once twenty random bytes have been read. */
    method SeedAnew(random: seq<byte>, ghost seeds: nat)
      requires Valid(seeds) && |random| == LENGTH
      modifies this
      ensures current == Seed(random) && Valid(seeds + 1)
      ensures forall i | 0 <= i < LENGTH :: current[i] - 48 == random[i] % 10
    {
      var res := random;
      for i := 0 to LENGTH
        invariant |res| == LENGTH && maximum == Nines(LENGTH * seeds + i)
        invariant forall k | 0 <= k < LENGTH :: res[k] == if k < i then ToDigit(random[k]) else random[k]
      {
        res := res[i := ToDigit(res[i])];
        maximum := maximum + [NINE];
      }
      assert res == Seed(random);
      SeedDigits(random);
      current := res;
    }

    /** The counting branch: the carry loop goes back over the nines, and the digits behind become zeros. */
    method CountUp()
      requires IsNumber(current) && !AllNines(current)
      modifies this`current
      ensures current == Incremented(old(current))
    {
      var i := |current| - 1;
      ghost var s := current;
      while current[i] == NINE
        invariant current == s && 0 <= i < |s| && AllNines(s[i + 1..])
        decreases i
      {
        CarryGoesOn(s, i);
        i := i - 1;
      }
      CarryStopsAt(s, i);
      current := current[i := current[i] + 1];
      for j := i + 1 to |current|
        invariant |current| == |s|
        invariant forall k | 0 <= k < |s| ::
                    current[k] == if k == i then s[i] + 1 else if i < k < j then ZERO else s[k]
      {
        current := current[j := ZERO];
      }
    }

    /** The state is reached by two calls on a new generator whose random bytes give nines both times it is seeded. */
    static method SeedTwice(random: seq<byte>) returns (g: MsgIdGenerator)
      requires |random| == LENGTH && forall i | 0 <= i < LENGTH :: random[i] % 10 == 9
      ensures fresh(g) && g.Valid(2) && AllNines(g.current)
      ensures !g.Reseeds() && CarryStop(g.current).None?
    {
      g := new MsgIdGenerator();
      var first := g.GenMsgID(Some(random), 0);
      assert AllNines(Seed(random));
      assert g.current == g.maximum;
      var second := g.GenMsgID(Some(random), 1);
      g.OverrunsIff(2);
    }

    /** `random` is what reading the random device gives, if it gives LENGTH bytes. */
    method GenMsgID(random: Option<seq<byte>>, ghost seeds: nat) returns (id: seq<byte>)
      requires Valid(seeds) && (random.Some? ==> |random.value| == LENGTH)
      requires !(1 < seeds && AllNines(current))
      modifies this
      ensures old(Reseeds()) && random.None? ==> id == [] && current == old(current) && Valid(seeds)
      ensures old(Reseeds()) && random.Some? ==> id == current == Seed(random.value) && Valid(seeds + 1)
      ensures !old(Reseeds()) ==>
                && IsNumber(old(current)) && !AllNines(old(current)) && Valid(seeds)
                && id == current == Incremented(old(current)) && Value(id) == Value(old(current)) + 1
    {
      hide CarryStop, Incremented, Value, Seed, Nines;
      OverrunsIff(seeds);
      if current == [] || current == maximum {
        if random.None? {
          return [];
        }
        SeedAnew(random.value, seeds);
      } else {
        IncrementedValue(current);
        CountUp();
      }
      id := current;
    }
  }
}
