/** The states a Timer goes through, over events of any kind E, and what every run of it keeps. */
module TimerModel {
  /** What an event holds: when it is due, its period, and its two flags. */
  datatype Info = Info(arrive: int, interval: int, repeated: bool, cancelled: bool)

  /** An entry of the multimap; `stamp` numbers the insertions. */
  datatype Entry<+E> = Entry(key: int, event: E, stamp: nat)

  /** The timerfd: not set, set at `at` to expire at `deadline`, or expired and readable. */
  datatype Fd = Idle | Armed(deadline: int, at: int) | Expired

  /** A callback collected by onTimer: the event, its arrival time, and the time onTimer read. */
  datatype Task<+E> = Task(event: E, due: int, taken: int)

  /** A callback run, and when. */
  datatype Ran<+E> = Ran(task: Task<E>, time: int)

  /** `batch` holds the callbacks that the current call of onTimer has collected and not yet run. */
  datatype TimerState<E(==)> = TimerState(
    pending: seq<Entry<E>>,
    info: map<E, Info>,
    fd: Fd,
    stamps: nat,
    tick: nat,
    batch: seq<Task<E>>,
    log: seq<Ran<E>>)

  /** The successive readings of the clock: by getNowMs, and of the time when the timerfd expires or a callback starts. */
  type Clock = nat -> int

  ghost predicate Monotone(clock: Clock) {
    forall i, j | i <= j :: clock(i) <= clock(j)
  }

  // ---- The operations ----

  /** multimap::upper_bound, which is also where the scan of onTimer stops. */
  function UpperBound<E>(p: seq<Entry<E>>, key: int): (i: nat)
    ensures i <= |p|
    ensures forall k | 0 <= k < i :: p[k].key <= key
    ensures i < |p| ==> p[i].key > key
  {
    if p == [] || p[0].key > key then 0 else 1 + UpperBound(p[1..], key)
  }

  function LowerBound<E>(p: seq<Entry<E>>, key: int): (i: nat)
    ensures i <= |p|
    ensures i <= UpperBound(p, key)
    ensures forall k | 0 <= k < i :: p[k].key < key
    ensures i < |p| ==> p[i].key >= key
  {
    if p == [] || p[0].key >= key then 0 else 1 + LowerBound(p[1..], key)
  }

  /** multimap::emplace: behind the entries with the same key. */
  function Inserted<E>(p: seq<Entry<E>>, e: Entry<E>): (r: seq<Entry<E>>)
    ensures |r| == |p| + 1
  {
    var i := UpperBound(p, e.key);
    p[..i] + [e] + p[i..]
  }

  /** The first entry of `e` from `lo` on, or `hi`. */
  function IndexOf<E(==)>(p: seq<Entry<E>>, lo: nat, hi: nat, e: E): (i: nat)
    requires lo <= hi <= |p|
    ensures lo <= i <= hi
    ensures i < hi ==> p[i].event == e
    ensures forall k | lo <= k < i :: p[k].event != e
    decreases hi - lo
  {
    if lo == hi || p[lo].event == e then lo else IndexOf(p, lo + 1, hi, e)
  }

  /** Every pending event is one whose fields are known. */
  predicate Known<E>(s: TimerState<E>) {
    forall k | 0 <= k < |s.pending| :: s.pending[k].event in s.info
  }

  /** The interval put into the timerfd. */
  function Interval(arrive: int, now: int): int {
    if arrive > now then arrive - now else 100
  }

  /** resetArriveTime */
  function Rearmed<E>(s: TimerState<E>, clock: Clock): (r: TimerState<E>)
    requires Known(s)
    ensures Known(r)
  {
    if s.pending == [] then s
    else
      var now := clock(s.tick);
      s.(fd := Armed(now + Interval(s.info[s.pending[0].event].arrive, now), now), tick := s.tick + 1)
  }

  /** addTimerEvent */
  function Added<E>(s: TimerState<E>, e: E, clock: Clock): (r: TimerState<E>)
    requires Known(s) && e in s.info
    ensures Known(r) && r.info == s.info && r.log == s.log && r.batch == s.batch
  {
    var arrive := s.info[e].arrive;
    var reset := s.pending == [] || s.info[s.pending[0].event].arrive > arrive;
    var s1 := s.(pending := Inserted(s.pending, Entry(arrive, e, s.stamps)), stamps := s.stamps + 1);
    if reset then Rearmed(s1, clock) else s1
  }

  /** TimerEvent's constructor */
  function Created<E>(s: TimerState<E>, e: E, interval: int, repeated: bool, clock: Clock): TimerState<E> {
    s.(info := s.info[e := Info(clock(s.tick) + interval, interval, repeated, false)], tick := s.tick + 1)
  }

  /** setCancled(true) */
  function Cancelled<E>(s: TimerState<E>, e: E): (r: TimerState<E>)
    requires Known(s) && e in s.info
    ensures Known(r)
  {
    s.(info := s.info[e := s.info[e].(cancelled := true)])
  }

  /** deleteTimerEvent */
  function Deleted<E>(s: TimerState<E>, e: E): (r: TimerState<E>)
    requires Known(s) && e in s.info
    ensures Known(r)
  {
    var arrive := s.info[e].arrive;
    var begin, end := LowerBound(s.pending, arrive), UpperBound(s.pending, arrive);
    var i := IndexOf(s.pending, begin, end, e);
    Cancelled(s, e).(pending := if i != end then s.pending[..i] + s.pending[i + 1..] else s.pending)
  }

  /** The events of due entries that are not cancelled. */
  function Live<E>(p: seq<Entry<E>>, info: map<E, Info>): (r: seq<E>)
    requires forall k | 0 <= k < |p| :: p[k].event in info
    ensures forall e <- r :: e in info && !info[e].cancelled
    ensures forall e <- r :: exists k :: 0 <= k < |p| && p[k].event == e
  {
    if p == [] then []
    else
      var rest := Live(p[..|p| - 1], info);
      var e := p[|p| - 1].event;
      if info[e].cancelled then rest else rest + [e]
  }

  /** A repeated event with its fresh arrival time, before it is put back. */
  function Refreshed<E>(s: TimerState<E>, e: E, clock: Clock): (r: TimerState<E>)
    requires Known(s) && e in s.info
    ensures Known(r) && r.info.Keys == s.info.Keys && e in r.info && r.log == s.log && r.batch == s.batch
  {
    s.(info := s.info[e := s.info[e].(arrive := clock(s.tick) + s.info[e].interval)], tick := s.tick + 1)
  }

  /** The loop that puts repeated events back, with a fresh arrival time each. */
  function Readded<E>(s: TimerState<E>, es: seq<E>, clock: Clock): (r: TimerState<E>)
    requires Known(s) && forall e <- es :: e in s.info
    ensures Known(r) && r.info.Keys == s.info.Keys && r.log == s.log && r.batch == s.batch
    decreases |es|
  {
    if es == [] then s
    else
      var e := es[0];
      if !s.info[e].repeated then Readded(s, es[1..], clock)
      else Readded(Added(Refreshed(s, e, clock), e, clock), es[1..], clock)
  }

  /** The callbacks of these events, with their arrival times before they are refreshed. */
  function Tasks<E>(es: seq<E>, info: map<E, Info>, now: int): (r: seq<Task<E>>)
    requires forall e <- es :: e in info
    ensures |r| == |es| && forall i | 0 <= i < |es| :: r[i] == Task(es[i], info[es[i]].arrive, now)
  {
    seq(|es|, i requires 0 <= i < |es| => Task(es[i], info[es[i]].arrive, now))
  }

  /** What onTimer collects at `now`. */
  function FiredAt<E>(s: TimerState<E>, now: int): (r: seq<E>)
    requires Known(s)
    ensures forall e <- r :: e in s.info
  {
    Live(s.pending[..UpperBound(s.pending, now)], s.info)
  }

  /** onTimer up to the point where the due entries are erased. */
  function Drained<E>(s: TimerState<E>, now: int): (r: TimerState<E>)
    requires Known(s)
    ensures Known(r)
  {
    s.(fd := if s.fd.Expired? then Idle else s.fd,
       tick := s.tick + 1,
       pending := s.pending[UpperBound(s.pending, now)..])
  }

  /** onTimer up to the loop that runs the callbacks. */
  function TimerRun<E>(s: TimerState<E>, clock: Clock): (r: TimerState<E>)
    requires Known(s)
    ensures Known(r)
  {
    var now := clock(s.tick);
    var fired := FiredAt(s, now);
    var s1 := Rearmed(Readded(Drained(s, now), fired, clock), clock);
    s1.(batch := Tasks(fired, s.info, now))
  }

  /** One turn of the loop that runs the callbacks. */
  function TaskRun<E>(s: TimerState<E>, clock: Clock): (r: TimerState<E>)
    requires Known(s) && s.batch != []
    ensures Known(r)
  {
    s.(batch := s.batch[1..], log := s.log + [Ran(s.batch[0], clock(s.tick))], tick := s.tick + 1)
  }

  // ---- Runs ----

  /** `Fire` is onTimer up to the loop over its tasks, `Run` one turn of that loop; what a callback does to the timer is a step
      between one `Run` and the next. */
  datatype Step<+E> =
    | Create(e: E, interval: int, repeated: bool)
    | Add(e: E)
    | Delete(e: E)
    | Expire
    | Fire
    | Run

  predicate IsPending<E(==)>(s: TimerState<E>, e: E) {
    exists k :: 0 <= k < |s.pending| && s.pending[k].event == e
  }

  predicate Enabled<E>(s: TimerState<E>, step: Step<E>, clock: Clock) {
    match step
    case Create(e, _, _) => e !in s.info
    case Add(e) => e in s.info
    case Delete(e) => e in s.info
    case Expire => s.fd.Armed? && s.fd.deadline <= clock(s.tick)
    case Fire => s.batch == []
    case Run => s.batch != []
  }

  /** No event is added while it is pending already. */
  predicate Single<E>(s: TimerState<E>, step: Step<E>) {
    step.Add? ==> !IsPending(s, step.e)
  }

  function Next<E>(s: TimerState<E>, step: Step<E>, clock: Clock): (r: TimerState<E>)
    requires Known(s) && Enabled(s, step, clock)
    ensures Known(r)
  {
    match step
    case Create(e, interval, repeated) => Created(s, e, interval, repeated, clock)
    case Add(e) => Added(s, e, clock)
    case Delete(e) => Deleted(s, e)
    case Expire => s.(fd := Expired, tick := s.tick + 1)
    case Fire => TimerRun(s, clock)
    case Run => TaskRun(s, clock)
  }

  /** A timer just made. */
  function Start<E>(): (s: TimerState<E>)
    ensures Known(s)
  {
    TimerState([], map[], Idle, 0, 0, [], [])
  }

  /** The steps lead from `s` to `r`; with `single`, none of them adds an event that is pending. */
  ghost predicate Leads<E>(s: TimerState<E>, steps: seq<Step<E>>, clock: Clock, single: bool, r: TimerState<E>)
    requires Known(s)
    decreases |steps|
  {
    if steps == [] then r == s
    else
      && Enabled(s, steps[0], clock) && (single ==> Single(s, steps[0]))
      && Leads(Next(s, steps[0], clock), steps[1..], clock, single, r)
  }

  // ---- Order: by arrival, ties by insertion ----

  predicate Before<E>(a: Entry<E>, b: Entry<E>) {
    a.key < b.key || (a.key == b.key && a.stamp < b.stamp)
  }

  predicate InOrder<E>(s: TimerState<E>) {
    && (forall i, j | 0 <= i < j < |s.pending| :: Before(s.pending[i], s.pending[j]))
    && (forall k | 0 <= k < |s.pending| :: s.pending[k].stamp < s.stamps)
  }

  predicate Ordered<E>(p: seq<Entry<E>>) {
    forall i, j | 0 <= i < j < |p| :: Before(p[i], p[j])
  }

  lemma InsertedOrdered<E>(p: seq<Entry<E>>, e: Entry<E>)
    requires Ordered(p) && forall k | 0 <= k < |p| :: p[k].stamp < e.stamp
    ensures Ordered(Inserted(p, e))
  {
    var i, r := UpperBound(p, e.key), Inserted(p, e);
    assert forall k | i <= k < |p| :: p[k].key > e.key by {
      assert forall k | i < k < |p| :: Before(p[i], p[k]);
    }
    assert forall k | 0 <= k < i :: Before(p[k], e);
    assert forall k | i <= k < |p| :: Before(e, p[k]);
    hide Before, UpperBound;
    forall a, b | 0 <= a < b < |r|
      ensures Before(r[a], r[b])
    {
      assert r[a] == if a < i then p[a] else if a == i then e else p[a - 1];
      assert r[b] == if b < i then p[b] else if b == i then e else p[b - 1];
    }
  }

  lemma AddedInOrder<E>(s: TimerState<E>, e: E, clock: Clock)
    requires Known(s) && e in s.info && InOrder(s)
    ensures InOrder(Added(s, e, clock))
  {
    hide Before, UpperBound;
    InsertedOrdered(s.pending, Entry(s.info[e].arrive, e, s.stamps));
  }

  lemma SameOrder<E>(s: TimerState<E>, r: TimerState<E>, i: nat)
    requires InOrder(s) && r.stamps == s.stamps && i <= |s.pending| && r.pending == s.pending[i..]
    ensures InOrder(r)
  {
  }

  lemma {:induction false} ReaddedInOrder<E>(s: TimerState<E>, es: seq<E>, clock: Clock)
    requires Known(s) && (forall e <- es :: e in s.info) && InOrder(s)
    ensures InOrder(Readded(s, es, clock))
    decreases |es|
  {
    hide Added, InOrder;
    if es != [] {
      var e := es[0];
      if s.info[e].repeated {
        var f := Refreshed(s, e, clock);
        SameOrder(s, f, 0);
        AddedInOrder(f, e, clock);
        ReaddedInOrder(Added(f, e, clock), es[1..], clock);
      } else {
        ReaddedInOrder(s, es[1..], clock);
      }
    }
  }

  lemma RunInOrder<E>(s: TimerState<E>, clock: Clock)
    requires Known(s) && InOrder(s)
    ensures InOrder(TimerRun(s, clock))
  {
    hide InOrder, Readded;
    var now := clock(s.tick);
    var d := Drained(s, now);
    SameOrder(s, d, UpperBound(s.pending, now));
    ReaddedInOrder(d, FiredAt(s, now), clock);
    SameOrder(Readded(d, FiredAt(s, now), clock), TimerRun(s, clock), 0);
  }

  lemma DeletedInOrder<E>(s: TimerState<E>, e: E)
    requires Known(s) && InOrder(s) && e in s.info
    ensures InOrder(Deleted(s, e))
  {
    var arrive := s.info[e].arrive;
    var begin, end := LowerBound(s.pending, arrive), UpperBound(s.pending, arrive);
    var i, p, r := IndexOf(s.pending, begin, end, e), s.pending, Deleted(s, e);
    hide Before, IndexOf, LowerBound, UpperBound;
    if i == end {
      SameOrder(s, r, 0);
    } else {
      WithoutInOrder(s, r, i);
    }
  }

  lemma WithoutInOrder<E>(s: TimerState<E>, r: TimerState<E>, i: nat)
    requires InOrder(s) && i < |s.pending| && r.stamps == s.stamps && r.pending == s.pending[..i] + s.pending[i + 1..]
    ensures InOrder(r)
  {
    hide Before;
    forall a | 0 <= a < |r.pending|
      ensures r.pending[a] == s.pending[if a < i then a else a + 1]
    {
    }
  }

  lemma NextInOrder<E>(s: TimerState<E>, step: Step<E>, clock: Clock)
    requires Known(s) && Enabled(s, step, clock) && InOrder(s)
    ensures InOrder(Next(s, step, clock))
  {
    hide Added, TimerRun, Deleted, InOrder;
    match step
    case Add(e) => AddedInOrder(s, e, clock);
    case Fire => RunInOrder(s, clock);
    case Delete(e) => DeletedInOrder(s, e);
    case _ => SameOrder(s, Next(s, step, clock), 0);
  }

  // ---- One call of onTimer ----

  /** onTimer runs exactly the due entries that are not cancelled, each once, in the order of the multimap; `at` lists
      their positions. */
  lemma {:induction false} LivePositions<E>(p: seq<Entry<E>>, info: map<E, Info>) returns (at: seq<nat>)
    requires forall k | 0 <= k < |p| :: p[k].event in info
    ensures |at| == |Live(p, info)|
    ensures forall j | 0 <= j < |at| :: at[j] < |p| && Live(p, info)[j] == p[at[j]].event
    ensures forall i, j | 0 <= i < j < |at| :: at[i] < at[j]
    ensures forall k: nat | k < |p| :: k in at <==> !info[p[k].event].cancelled
  {
    if p == [] {
      at := [];
    } else {
      var n := |p| - 1;
      var before := LivePositions(p[..n], info);
      var last := if info[p[n].event].cancelled then [] else [n];
      at := before + last;
      assert Live(p, info) == Live(p[..n], info) + if info[p[n].event].cancelled then [] else [p[n].event];
      forall k: nat | k < |p|
        ensures k in at <==> !info[p[k].event].cancelled
      {
        assert k < n ==> p[..n][k] == p[k];
        assert k in at <==> k in before || k in last;
      }
    }
  }

  lemma FiresExactlyTheDue<E>(s: TimerState<E>, now: int) returns (at: seq<nat>)
    requires Known(s) && InOrder(s)
    ensures |at| == |FiredAt(s, now)|
    ensures forall j | 0 <= j < |at| :: at[j] < |s.pending| && FiredAt(s, now)[j] == s.pending[at[j]].event
    ensures forall i, j | 0 <= i < j < |at| :: at[i] < at[j] && Before(s.pending[at[i]], s.pending[at[j]])
    ensures forall k: nat | k < |s.pending| ::
              k in at <==> s.pending[k].key <= now && !s.info[s.pending[k].event].cancelled
  {
    hide Live, Before;
    var n := UpperBound(s.pending, now);
    at := LivePositions(s.pending[..n], s.info);
    forall k: nat | n <= k < |s.pending|
      ensures s.pending[k].key > now
    {
      LaterIsNotEarlier(s, n, k);
    }
  }

  lemma LaterIsNotEarlier<E>(s: TimerState<E>, i: nat, k: nat)
    requires InOrder(s) && i <= k < |s.pending|
    ensures s.pending[i].key <= s.pending[k].key
  {
    assert i < k ==> Before(s.pending[i], s.pending[k]);
  }

  /** The fired events that repeat, in order. */
  function Repeating<E>(es: seq<E>, info: map<E, Info>): (r: seq<E>)
    requires forall e <- es :: e in info
    ensures forall e <- r :: e in info
  {
    if es == [] then []
    else (if info[es[0]].repeated then [es[0]] else []) + Repeating(es[1..], info)
  }

  /** The entries of events put back at the clock readings `times`. */
  function FreshEntries<E>(es: seq<E>, times: seq<int>, info: map<E, Info>, stamps: nat): seq<Entry<E>>
    requires |times| == |es| && forall e <- es :: e in info
  {
    seq(|es|, k requires 0 <= k < |es| => Entry(times[k] + info[es[k]].interval, es[k], stamps + k))
  }

  predicate SamePeriods<E>(a: map<E, Info>, b: map<E, Info>) {
    a.Keys == b.Keys && forall e <- a :: b[e] == a[e].(arrive := b[e].arrive)
  }

  lemma SamePeriodsTwice<E>(a: map<E, Info>, b: map<E, Info>, c: map<E, Info>)
    ensures SamePeriods(a, a)
    ensures SamePeriods(a, b) && SamePeriods(b, c) ==> SamePeriods(a, c)
  {
  }

  lemma InsertedMultiset<E>(p: seq<Entry<E>>, e: Entry<E>)
    ensures multiset(Inserted(p, e)) == multiset(p) + multiset{e}
  {
    var i := UpperBound(p, e.key);
    assert p == p[..i] + p[i..];
  }

  lemma {:induction false} RepeatingSame<E>(es: seq<E>, a: map<E, Info>, b: map<E, Info>)
    requires (forall e <- es :: e in a) && SamePeriods(a, b)
    ensures Repeating(es, a) == Repeating(es, b)
  {
    if es != [] {
      RepeatingSame(es[1..], a, b);
    }
  }

  /** One event put back. */
  lemma ReaddedOne<E>(s: TimerState<E>, e: E, clock: Clock)
    requires Known(s) && e in s.info && Monotone(clock)
    ensures var f, r := Refreshed(s, e, clock), Added(Refreshed(s, e, clock), e, clock);
            && SamePeriods(s.info, f.info) && r.info == f.info && r.stamps == s.stamps + 1 && s.tick < r.tick
            && clock(s.tick) <= clock(r.tick)
            && multiset(r.pending) == multiset(s.pending) + multiset{Entry(f.info[e].arrive, e, s.stamps)}
  {
    InsertedMultiset(s.pending, Entry(Refreshed(s, e, clock).info[e].arrive, e, s.stamps));
  }

  lemma RepeatingStep<E>(es: seq<E>, info: map<E, Info>)
    requires es != [] && forall e <- es :: e in info
    ensures Repeating(es, info)
         == if info[es[0]].repeated then [es[0]] + Repeating(es[1..], info) else Repeating(es[1..], info)
  {
  }

  lemma RepeatingNone<E>(s: TimerState<E>)
    ensures Repeating([], s.info) == [] && FreshEntries([], [], s.info, s.stamps) == []
  {
  }

  lemma RefreshedArrive<E>(s: TimerState<E>, e: E, clock: Clock)
    requires Known(s) && e in s.info
    ensures Refreshed(s, e, clock).info[e].arrive == clock(s.tick) + s.info[e].interval
  {
  }

  lemma FreshEntriesStep<E>(e: E, es: seq<E>, time: int, times: seq<int>, a: map<E, Info>, b: map<E, Info>, stamps: nat)
    requires |times| == |es| && e in a && (forall x <- es :: x in a) && SamePeriods(a, b)
    ensures multiset(FreshEntries([e] + es, [time] + times, a, stamps))
         == multiset{Entry(time + a[e].interval, e, stamps)} + multiset(FreshEntries(es, times, b, stamps + 1))
  {
    var first := Entry(time + a[e].interval, e, stamps);
    assert FreshEntries([e] + es, [time] + times, a, stamps) == [first] + FreshEntries(es, times, b, stamps + 1);
  }

  lemma {:induction false} ReaddedEntries<E>(s: TimerState<E>, es: seq<E>, clock: Clock) returns (times: seq<int>)
    requires Known(s) && (forall e <- es :: e in s.info) && Monotone(clock)
    ensures SamePeriods(s.info, Readded(s, es, clock).info)
    ensures |times| == |Repeating(es, s.info)| && forall t <- times :: clock(s.tick) <= t
    ensures multiset(Readded(s, es, clock).pending)
         == multiset(s.pending) + multiset(FreshEntries(Repeating(es, s.info), times, s.info, s.stamps))
    ensures s.tick <= Readded(s, es, clock).tick && clock(s.tick) <= clock(Readded(s, es, clock).tick)
    decreases |es|
  {
    hide Added, FreshEntries, Repeating, Refreshed, SamePeriods;
    times := [];
    SamePeriodsTwice(s.info, s.info, s.info);
    if es == [] {
      RepeatingNone(s);
    } else {
      RepeatingStep(es, s.info);
      var e, rest := es[0], es[1..];
      if s.info[e].repeated {
        var f := Refreshed(s, e, clock);
        var r := Added(f, e, clock);
        ReaddedOne(s, e, clock);
        var later := ReaddedEntries(r, rest, clock);
        times := [clock(s.tick)] + later;
        RepeatingSame(rest, s.info, r.info);
        RefreshedArrive(s, e, clock);
        FreshEntriesStep(e, Repeating(rest, s.info), clock(s.tick), later, s.info, r.info, s.stamps);
        SamePeriodsTwice(s.info, r.info, Readded(r, rest, clock).info);
      } else {
        times := ReaddedEntries(s, rest, clock);
      }
    }
  }

  /** After onTimer the multimap holds exactly the entries that were not due, and one fresh entry, at a clock reading not
      before onTimer's own plus its period, for each event that was run and repeats: nothing is lost or duplicated. */
  lemma NothingLost<E>(s: TimerState<E>, clock: Clock) returns (times: seq<int>)
    requires Known(s) && Monotone(clock)
    ensures var now := clock(s.tick); var again := Repeating(FiredAt(s, now), s.info);
            && |times| == |again| && (forall t <- times :: now <= t)
            && multiset(TimerRun(s, clock).pending)
            == multiset(s.pending[UpperBound(s.pending, now)..]) + multiset(FreshEntries(again, times, s.info, s.stamps))
    ensures TimerRun(s, clock).batch == Tasks(FiredAt(s, clock(s.tick)), s.info, clock(s.tick))
    ensures TimerRun(s, clock).log == s.log
    ensures SamePeriods(s.info, TimerRun(s, clock).info)
  {
    hide Readded;
    var now := clock(s.tick);
    times := ReaddedEntries(Drained(s, now), FiredAt(s, now), clock);
    assert clock(s.tick) <= clock(s.tick + 1);
  }

  // ---- Arming ----

  /** What is pending has the timerfd set, or already expired. */
  predicate Watched<E>(s: TimerState<E>) {
    s.pending != [] ==> !s.fd.Idle?
  }

  lemma NextWatched<E>(s: TimerState<E>, step: Step<E>, clock: Clock)
    requires Known(s) && Enabled(s, step, clock) && Watched(s)
    ensures Watched(Next(s, step, clock))
  {
    hide Inserted, Live, UpperBound, LowerBound, IndexOf, Readded;
  }

  /** Each pending event is pending once, under its own arrival time. */
  predicate Exact<E>(s: TimerState<E>) {
    && Known(s)
    && (forall i, j | 0 <= i < j < |s.pending| :: s.pending[i].event != s.pending[j].event)
    && (forall k | 0 <= k < |s.pending| :: s.pending[k].key == s.info[s.pending[k].event].arrive)
  }

  /** The interval written to the timerfd is positive, so that it does arm it, and seconds and nanoseconds say it exactly. */
  lemma IntervalSplit(arrive: int, now: int)
    ensures var i := Interval(arrive, now); var sec, nsec := i / 1000, i % 1000 * 1_000_000;
            0 < i && 0 <= sec && 0 <= nsec < 1_000_000_000 && (sec != 0 || nsec != 0) && 1000 * sec + nsec / 1_000_000 == i
  {
    var i := Interval(arrive, now);
    assert i % 1000 * 1_000_000 / 1_000_000 == i % 1000;
  }

  lemma InsertedEvents<E>(p: seq<Entry<E>>, e: Entry<E>)
    ensures forall x :: x in Inserted(p, e) <==> x in p || x == e
  {
    var i := UpperBound(p, e.key);
    assert p == p[..i] + p[i..];
  }

  lemma InsertedDistinct<E>(p: seq<Entry<E>>, e: Entry<E>)
    requires forall i, j | 0 <= i < j < |p| :: p[i].event != p[j].event
    requires forall k | 0 <= k < |p| :: p[k].event != e.event
    ensures var r := Inserted(p, e); forall i, j | 0 <= i < j < |r| :: r[i].event != r[j].event
  {
  }

  lemma AddedPending<E>(s: TimerState<E>, e: E, clock: Clock)
    requires Known(s) && e in s.info
    ensures forall x <- s.info :: IsPending(Added(s, e, clock), x) <==> IsPending(s, x) || x == e
  {
    var entry := Entry(s.info[e].arrive, e, s.stamps);
    InsertedEvents(s.pending, entry);
    hide Inserted;
    var r := Added(s, e, clock);
    forall x | x in s.info
      ensures IsPending(r, x) <==> IsPending(s, x) || x == e
    {
      if IsPending(s, x) {
        var k :| 0 <= k < |s.pending| && s.pending[k].event == x;
        assert s.pending[k] in r.pending;
      }
      assert entry in r.pending;
    }
  }

  /** Adding an event keeps the multimap exact precisely when the event is not pending already. */
  lemma AddedExactIff<E>(s: TimerState<E>, e: E, clock: Clock)
    requires Exact(s) && e in s.info
    ensures Exact(Added(s, e, clock)) <==> !IsPending(s, e)
  {
    var entry := Entry(s.info[e].arrive, e, s.stamps);
    if IsPending(s, e) {
      var i, k := UpperBound(s.pending, entry.key), 0;
      k :| 0 <= k < |s.pending| && s.pending[k].event == e;
      assert Added(s, e, clock).pending[i].event == Added(s, e, clock).pending[if k < i then k else k + 1].event;
    } else {
      AddedExact(s, e, clock);
    }
  }

  lemma AddedExact<E>(s: TimerState<E>, e: E, clock: Clock)
    requires Exact(s) && e in s.info && !IsPending(s, e)
    ensures Exact(Added(s, e, clock))
  {
    var entry := Entry(s.info[e].arrive, e, s.stamps);
    InsertedEvents(s.pending, entry);
    InsertedDistinct(s.pending, entry);
    hide Inserted;
    var r := Added(s, e, clock);
    assert forall k | 0 <= k < |r.pending| :: r.pending[k] in r.pending;
  }

  lemma RearmedExact<E>(s: TimerState<E>, clock: Clock)
    requires Exact(s)
    ensures Exact(Rearmed(s, clock))
    ensures forall x :: IsPending(Rearmed(s, clock), x) <==> IsPending(s, x)
  {
  }

  lemma RemovedExact<E>(s: TimerState<E>, r: TimerState<E>, i: nat)
    requires Exact(s) && i < |s.pending| && r.pending == s.pending[..i] + s.pending[i + 1..]
    requires r.info.Keys == s.info.Keys && forall e <- s.info :: r.info[e].arrive == s.info[e].arrive
    ensures Exact(r) && !IsPending(r, s.pending[i].event)
    ensures forall x | x != s.pending[i].event :: IsPending(r, x) <==> IsPending(s, x)
  {
    forall x | x != s.pending[i].event
      ensures IsPending(r, x) <==> IsPending(s, x)
    {
      if IsPending(s, x) {
        var k :| 0 <= k < |s.pending| && s.pending[k].event == x;
        assert r.pending[if k < i then k else k - 1].event == x;
      }
    }
  }

  /** deleteTimerEvent removes exactly the event's own entry. */
  lemma DeletesExactlyOne<E>(s: TimerState<E>, e: E)
    requires Exact(s) && InOrder(s) && e in s.info
    ensures var r := Deleted(s, e);
            && Exact(r) && !IsPending(r, e) && r.info == s.info[e := s.info[e].(cancelled := true)]
            && (!IsPending(s, e) ==> r.pending == s.pending)
            && (IsPending(s, e) ==> exists i ::
                 0 <= i < |s.pending| && s.pending[i].event == e && r.pending == s.pending[..i] + s.pending[i + 1..])
            && (forall x | x != e :: IsPending(r, x) <==> IsPending(s, x))
  {
    DeletedInfo(s, e);
    hide InOrder, Deleted, Exact;
    if IsPending(s, e) {
      var i :| 0 <= i < |s.pending| && s.pending[i].event == e;
      DeleteFinds(s, e, i);
      RemovedExact(s, Deleted(s, e), i);
      hide IsPending;
    } else {
      DeleteMisses(s, e);
    }
  }

  lemma DeletedInfo<E>(s: TimerState<E>, e: E)
    requires Known(s) && e in s.info
    ensures Deleted(s, e).info == s.info[e := s.info[e].(cancelled := true)]
  {
  }

  lemma DeleteMisses<E>(s: TimerState<E>, e: E)
    requires Exact(s) && e in s.info && !IsPending(s, e)
    ensures Deleted(s, e).pending == s.pending && Exact(Deleted(s, e))
  {
  }

  lemma DeleteFinds<E>(s: TimerState<E>, e: E, i: nat)
    requires Exact(s) && InOrder(s) && e in s.info && i < |s.pending| && s.pending[i].event == e
    ensures Deleted(s, e).pending == s.pending[..i] + s.pending[i + 1..]
  {
    hide Before;
    var arrive := s.info[e].arrive;
    var begin, end := LowerBound(s.pending, arrive), UpperBound(s.pending, arrive);
    assert s.pending[i].key == arrive;
    if end <= i {
      LaterIsNotEarlier(s, end, i);
    }
    assert begin <= i < end;
    var k := IndexOf(s.pending, begin, end, e);
    assert k <= i;
    assert k == i;
  }

  /** Putting events back that are not pending. */
  lemma {:induction false} ReaddedExact<E>(s: TimerState<E>, es: seq<E>, clock: Clock, now: int)
    requires Known(s) && Exact(s) && Monotone(clock) && now <= clock(s.tick)
    requires forall e <- es :: e in s.info && !IsPending(s, e)
    requires forall i, j | 0 <= i < j < |es| :: es[i] != es[j]
    ensures var r := Readded(s, es, clock);
            && Exact(r) && SamePeriods(s.info, r.info) && now <= clock(r.tick)
            && (forall e <- s.info :: e in es && s.info[e].repeated ==>
                 IsPending(r, e) && now + s.info[e].interval <= r.info[e].arrive)
            && (forall e <- s.info :: !(e in es && s.info[e].repeated) ==>
                 r.info[e] == s.info[e] && (IsPending(r, e) <==> IsPending(s, e)))
    decreases |es|
  {
    hide Added, IsPending, Exact;
    if es != [] {
      var e, rest := es[0], es[1..];
      assert e !in rest;
      if s.info[e].repeated {
        var f := Refreshed(s, e, clock);
        var r := Added(f, e, clock);
        RefreshedExact(s, e, clock);
        AddedExact(f, e, clock);
        AddedPending(f, e, clock);
        ReaddedOne(s, e, clock);
        forall x | x in rest
          ensures x in r.info && !IsPending(r, x)
        {
          assert x in es && x != e;
        }
        ReaddedExact(r, rest, clock, now);
      } else {
        ReaddedExact(s, rest, clock, now);
      }
    }
  }

  lemma RefreshedExact<E>(s: TimerState<E>, e: E, clock: Clock)
    requires Exact(s) && e in s.info && !IsPending(s, e)
    ensures Exact(Refreshed(s, e, clock))
    ensures forall x :: IsPending(Refreshed(s, e, clock), x) <==> IsPending(s, x)
  {
  }

  lemma DrainedPending<E>(s: TimerState<E>, now: int, x: E)
    requires Exact(s) && InOrder(s) && x in s.info
    ensures IsPending(Drained(s, now), x) <==> IsPending(s, x) && s.info[x].arrive > now
  {
    hide Before, InOrder;
    var d, n := Drained(s, now), UpperBound(s.pending, now);
    if IsPending(d, x) {
      var k :| 0 <= k < |d.pending| && d.pending[k].event == x;
      assert s.pending[n + k] == d.pending[k];
      LaterIsNotEarlier(s, n, n + k);
    }
    if IsPending(s, x) && s.info[x].arrive > now {
      var k :| 0 <= k < |s.pending| && s.pending[k].event == x;
      assert d.pending[k - n] == s.pending[k];
    }
  }

  lemma DrainedExact<E>(s: TimerState<E>, now: int)
    requires Exact(s) && InOrder(s)
    ensures Exact(Drained(s, now))
    ensures forall x <- s.info :: IsPending(Drained(s, now), x) <==> IsPending(s, x) && s.info[x].arrive > now
  {
    hide Before, InOrder, IsPending;
    var n := UpperBound(s.pending, now);
    if n < |s.pending| {
      LaterIsNotEarlier(s, 0, n);
    }
    forall x | x in s.info
      ensures IsPending(Drained(s, now), x) <==> IsPending(s, x) && s.info[x].arrive > now
    {
      DrainedPending(s, now, x);
    }
  }

  /** The events onTimer runs are those pending, due and not cancelled, no event twice. */
  lemma FiredEvents<E>(s: TimerState<E>, now: int)
    requires Exact(s) && InOrder(s)
    ensures var f := FiredAt(s, now);
            && (forall i, j | 0 <= i < j < |f| :: f[i] != f[j])
            && (forall x <- s.info :: x in f <==> IsPending(s, x) && s.info[x].arrive <= now && !s.info[x].cancelled)
  {
    hide FiredAt, Before;
    var at := FiresExactlyTheDue(s, now);
    var f := FiredAt(s, now);
    forall x | x in s.info
      ensures x in f <==> IsPending(s, x) && s.info[x].arrive <= now && !s.info[x].cancelled
    {
      if x in f {
        var j :| 0 <= j < |f| && f[j] == x;
        assert s.pending[at[j]].event == x && at[j] in at;
      }
      if IsPending(s, x) && s.info[x].arrive <= now && !s.info[x].cancelled {
        var k: nat :| k < |s.pending| && s.pending[k].event == x;
        assert k in at;
        var j :| 0 <= j < |at| && at[j] == k;
        assert f[j] == x;
      }
    }
  }

  /** The whole of onTimer. */
  lemma RunExact<E>(s: TimerState<E>, clock: Clock)
    requires Exact(s) && InOrder(s) && Monotone(clock)
    ensures var r, now, f := TimerRun(s, clock), clock(s.tick), FiredAt(s, clock(s.tick));
            && Exact(r) && SamePeriods(s.info, r.info) && now <= clock(r.tick)
            && (forall e <- s.info :: e in f && s.info[e].repeated ==>
                 IsPending(r, e) && now + s.info[e].interval <= r.info[e].arrive)
            && (forall e <- s.info :: !(e in f && s.info[e].repeated) ==> r.info[e] == s.info[e])
            && (forall e <- s.info :: !(e in f && s.info[e].repeated) ==>
                 (IsPending(r, e) <==> IsPending(s, e) && s.info[e].arrive > now))
  {
    hide FiredAt, Readded, IsPending, InOrder;
    var now := clock(s.tick);
    var d, f := Drained(s, now), FiredAt(s, now);
    FiredEvents(s, now);
    DrainedExact(s, now);
    assert now <= clock(d.tick);
    ReaddedExact(d, f, clock, now);
    var a := Readded(d, f, clock);
    RearmedExact(a, clock);
    SamePending(Rearmed(a, clock), TimerRun(s, clock));
    assert clock(a.tick) <= clock(a.tick + 1);
  }

  lemma SamePending<E>(a: TimerState<E>, b: TimerState<E>)
    requires b == a.(batch := b.batch)
    ensures forall x :: IsPending(a, x) <==> IsPending(b, x)
  {
  }

  // ---- The deadline, over every run ----

  /** While the timerfd is set, it is set for no later than the first arrival or 100 ms after it was set. */
  predicate InTime<E>(s: TimerState<E>)
    requires Known(s)
  {
    s.fd.Armed? ==> forall k | 0 <= k < |s.pending| ::
      s.fd.deadline <= s.info[s.pending[k].event].arrive || s.fd.deadline <= s.fd.at + 100
  }

  /** The event that resetArriveTime looks at at `now` is due first of all pending ones, or within 100 ms. */
  predicate ArmsRight<E>(s: TimerState<E>, now: int)
    requires Known(s)
  {
    s.pending == [] ||
    var first := s.info[s.pending[0].event].arrive;
    first <= now + 100 || forall k | 0 <= k < |s.pending| :: first <= s.info[s.pending[k].event].arrive
  }

  lemma RearmedInTimeIff<E>(s: TimerState<E>, clock: Clock)
    requires Known(s)
    ensures s.pending != [] ==> (InTime(Rearmed(s, clock)) <==> ArmsRight(s, clock(s.tick)))
    ensures s.pending == [] ==> InTime(Rearmed(s, clock)) && ArmsRight(s, clock(s.tick))
  {
    var r := Rearmed(s, clock);
    assert r.pending == s.pending && r.info == s.info;
  }

  /** addTimerEvent sets the timerfd. */
  predicate Resets<E>(s: TimerState<E>, e: E)
    requires Known(s) && e in s.info
  {
    s.pending == [] || s.info[s.pending[0].event].arrive > s.info[e].arrive
  }

  /** The state addTimerEvent sets it in. */
  function Emplaced<E>(s: TimerState<E>, e: E): (r: TimerState<E>)
    requires Known(s) && e in s.info
    ensures Known(r)
  {
    s.(pending := Inserted(s.pending, Entry(s.info[e].arrive, e, s.stamps)), stamps := s.stamps + 1)
  }

  /** The state in which onTimer sets it. */
  function PutBack<E>(s: TimerState<E>, clock: Clock): (r: TimerState<E>)
    requires Known(s)
    ensures Known(r)
  {
    Readded(Drained(s, clock(s.tick)), FiredAt(s, clock(s.tick)), clock)
  }

  /** If the step sets the timerfd, it does so by the right event. */
  predicate StepsRight<E>(s: TimerState<E>, step: Step<E>, clock: Clock)
    requires Known(s) && Enabled(s, step, clock)
  {
    match step
    case Add(e) => Resets(s, e) ==> ArmsRight(Emplaced(s, e), clock(s.tick))
    case Fire => ArmsRight(PutBack(s, clock), clock(PutBack(s, clock).tick))
    case _ => true
  }

  lemma AddInTimeIff<E>(s: TimerState<E>, e: E, clock: Clock)
    requires Known(s) && e in s.info && InTime(s)
    ensures InTime(Added(s, e, clock)) <==> StepsRight(s, Add(e), clock)
  {
    var r := Emplaced(s, e);
    if Resets(s, e) {
      RearmedInTimeIff(r, clock);
      assert r.pending != [];
      assert Added(s, e, clock) == Rearmed(r, clock);
      hide Rearmed, Inserted;
    } else {
      InsertedEvents(s.pending, Entry(s.info[e].arrive, e, s.stamps));
      hide Inserted;
      assert Added(s, e, clock) == r;
      forall k | 0 <= k < |r.pending| && s.fd.Armed?
        ensures s.fd.deadline <= s.info[r.pending[k].event].arrive || s.fd.deadline <= s.fd.at + 100
      {
        assert r.pending[k] in r.pending;
      }
    }
  }

  lemma DeleteInTime<E>(s: TimerState<E>, e: E)
    requires Known(s) && e in s.info && InTime(s)
    ensures InTime(Deleted(s, e))
  {
    hide IndexOf, LowerBound, UpperBound;
    var r := Deleted(s, e);
    assert r.fd == s.fd;
    forall k | 0 <= k < |r.pending| && s.fd.Armed?
      ensures s.fd.deadline <= r.info[r.pending[k].event].arrive || s.fd.deadline <= s.fd.at + 100
    {
      var i := DeletedFrom(s, e, k);
      assert s.pending[i] == r.pending[k];
    }
  }

  lemma DeletedFrom<E>(s: TimerState<E>, e: E, k: nat) returns (i: nat)
    requires Known(s) && e in s.info && k < |Deleted(s, e).pending|
    ensures i < |s.pending| && s.pending[i] == Deleted(s, e).pending[k]
    ensures Deleted(s, e).info == s.info[e := s.info[e].(cancelled := true)]
  {
    hide IndexOf, LowerBound, UpperBound;
    var arrive := s.info[e].arrive;
    var end := UpperBound(s.pending, arrive);
    var at := IndexOf(s.pending, LowerBound(s.pending, arrive), end, e);
    i := if at == end || k < at then k else k + 1;
  }

  /** A step keeps the deadline in time exactly if it sets the timerfd by the right event. */
  lemma NextInTimeIff<E>(s: TimerState<E>, step: Step<E>, clock: Clock)
    requires Known(s) && Enabled(s, step, clock) && InTime(s)
    ensures InTime(Next(s, step, clock)) <==> StepsRight(s, step, clock)
  {
    hide Added, Deleted, ArmsRight, Emplaced, Resets;
    match step
    case Add(e) => AddInTimeIff(s, e, clock);
    case Delete(e) => DeleteInTime(s, e);
    case Fire =>
      hide Readded, Drained, FiredAt;
      var a := PutBack(s, clock);
      RearmedInTimeIff(a, clock);
      assert TimerRun(s, clock) == Rearmed(a, clock).(batch := TimerRun(s, clock).batch);
    case _ =>
  }

  // ---- What the timerfd is set to ----

  /** The timerfd is set to the arrival of the event in front if that is still to come, and to 100 ms later if it has passed. */
  predicate SetForFront<E>(s: TimerState<E>)
    requires Known(s)
  {
    && s.fd.Armed? && s.pending != []
    && var first := s.info[s.pending[0].event].arrive;
       if first > s.fd.at then s.fd.deadline == first else s.fd.deadline == s.fd.at + 100
  }

  lemma RearmedForFront<E>(s: TimerState<E>, clock: Clock)
    requires Known(s) && s.pending != []
    ensures SetForFront(Rearmed(s, clock)) && Rearmed(s, clock).fd.at == clock(s.tick)
  {
  }

  /** What each step does to the timerfd. It is set, by a reading of the clock, when an event is added to an empty multimap or
      is due before the event in front, and by onTimer, if anything is pending then; else onTimer only empties it. */
  lemma StepSetsFd<E>(s: TimerState<E>, step: Step<E>, clock: Clock)
    requires Known(s) && Enabled(s, step, clock)
    ensures var r := Next(s, step, clock);
            match step
            case Add(e) =>
              if s.pending == [] || s.info[s.pending[0].event].arrive > s.info[e].arrive
              then SetForFront(r) && r.fd.at == clock(s.tick) else r.fd == s.fd
            case Expire => r.fd == Expired
            case Fire =>
              if r.pending != [] then SetForFront(r) && 0 < r.tick && r.fd.at == clock(r.tick - 1)
              else r.fd == if s.fd.Expired? then Idle else s.fd
            case _ => r.fd == s.fd
  {
    hide SetForFront, Inserted;
    match step
    case Add(e) =>
      if Resets(s, e) {
        RearmedForFront(Emplaced(s, e), clock);
        EmplacedPending(s, e);
        assert Added(s, e, clock) == Rearmed(Emplaced(s, e), clock);
      }
    case Fire =>
      var a := PutBack(s, clock);
      assert TimerRun(s, clock) == Rearmed(a, clock).(batch := TimerRun(s, clock).batch);
      if a.pending != [] {
        RearmedForFront(a, clock);
        SetWhateverBatch(Rearmed(a, clock), TimerRun(s, clock));
      } else {
        NothingReadded(Drained(s, clock(s.tick)), FiredAt(s, clock(s.tick)), clock);
      }
    case _ =>
  }

  lemma EmplacedPending<E>(s: TimerState<E>, e: E)
    requires Known(s) && e in s.info
    ensures Emplaced(s, e).pending != [] && Emplaced(s, e).tick == s.tick
  {
  }

  lemma SetWhateverBatch<E>(s: TimerState<E>, r: TimerState<E>)
    requires Known(s) && Known(r) && r.fd == s.fd && r.pending == s.pending && r.info == s.info
    ensures SetForFront(r) <==> SetForFront(s)
  {
  }

  lemma {:induction false} NothingReadded<E>(s: TimerState<E>, es: seq<E>, clock: Clock)
    requires Known(s) && forall e <- es :: e in s.info
    ensures |s.pending| <= |Readded(s, es, clock).pending|
    ensures Readded(s, es, clock).pending == [] ==> Readded(s, es, clock).fd == s.fd
    decreases |es|
  {
    if es != [] {
      var e := es[0];
      if s.info[e].repeated {
        NothingReadded(Added(Refreshed(s, e, clock), e, clock), es[1..], clock);
      } else {
        NothingReadded(s, es[1..], clock);
      }
    }
  }

  /** Over every run: if the timerfd is set, then since some state of the run in which it was set, to exactly that, for the
      event then in front. So it never expires before that event is due. */
  lemma FdIsSetForFront<E>(steps: seq<Step<E>>, clock: Clock, single: bool, s: TimerState<E>)
    returns (n: nat, m: TimerState<E>)
    requires Leads(Start<E>(), steps, clock, single, s) && s.fd.Armed?
    ensures n <= |steps| && Known(m) && Leads(Start<E>(), steps[..n], clock, single, m) && m.fd == s.fd && m.pending != []
    ensures var first := m.info[m.pending[0].event].arrive;
            && first <= m.fd.deadline && m.fd.at < m.fd.deadline
            && (first > m.fd.at ==> m.fd.deadline == first) && (first <= m.fd.at ==> m.fd.deadline == m.fd.at + 100)
  {
    n, m := SetSince(Start<E>(), steps, clock, single, s);
  }

  lemma {:induction false} SetSince<E>(s: TimerState<E>, steps: seq<Step<E>>, clock: Clock, single: bool, r: TimerState<E>)
    returns (n: nat, m: TimerState<E>)
    requires Known(s) && Leads(s, steps, clock, single, r) && r.fd.Armed? && r.fd != s.fd
    ensures n <= |steps| && Known(m) && Leads(s, steps[..n], clock, single, m) && m.fd == r.fd && SetForFront(m)
    decreases |steps|
  {
    hide Next, Enabled, SetForFront;
    var next := Next(s, steps[0], clock);
    StepSetsFd(s, steps[0], clock);
    if r.fd == next.fd {
      n, m := 1, next;
      assert steps[..1][1..] == [];
    } else {
      n, m := SetSince(next, steps[1..], clock, single, r);
      n := n + 1;
      assert steps[..n][1..] == steps[1..][..n - 1];
    }
  }

  /** In every state of the run the deadline is in time. */
  predicate AlwaysInTime<E>(s: TimerState<E>, steps: seq<Step<E>>, clock: Clock)
    requires Known(s)
    decreases |steps|
  {
    InTime(s) && (steps != [] && Enabled(s, steps[0], clock) ==> AlwaysInTime(Next(s, steps[0], clock), steps[1..], clock))
  }

  /** Every step of the run that sets the timerfd does so by the right event. */
  predicate AlwaysRight<E>(s: TimerState<E>, steps: seq<Step<E>>, clock: Clock)
    requires Known(s)
    decreases |steps|
  {
    steps != [] && Enabled(s, steps[0], clock) ==>
      StepsRight(s, steps[0], clock) && AlwaysRight(Next(s, steps[0], clock), steps[1..], clock)
  }

  lemma {:induction false} InTimeIff<E>(s: TimerState<E>, steps: seq<Step<E>>, clock: Clock)
    requires Known(s) && InTime(s)
    ensures AlwaysInTime(s, steps, clock) <==> AlwaysRight(s, steps, clock)
    decreases |steps|
  {
    hide Next, StepsRight, InTime;
    if steps != [] && Enabled(s, steps[0], clock) {
      NextInTimeIff(s, steps[0], clock);
      if StepsRight(s, steps[0], clock) {
        InTimeIff(Next(s, steps[0], clock), steps[1..], clock);
      }
    }
  }

  // ---- Runs in which the deadline is in time ----

  /** Every entry is under its event's own arrival time, and only events that do not repeat are in the multimap more than
      once. */
  predicate Keyed<E>(s: TimerState<E>) {
    && Known(s)
    && (forall k | 0 <= k < |s.pending| :: s.pending[k].key == s.info[s.pending[k].event].arrive)
    && (forall i, j | 0 <= i < j < |s.pending| && s.pending[i].event == s.pending[j].event ::
          !s.info[s.pending[i].event].repeated)
  }

  lemma KeyedArmsRight<E>(s: TimerState<E>, now: int)
    requires Keyed(s) && InOrder(s)
    ensures ArmsRight(s, now)
  {
    hide Before, InOrder;
    forall k | 0 <= k < |s.pending|
      ensures s.pending[0].key <= s.pending[k].key
    {
      LaterIsNotEarlier(s, 0, k);
    }
  }

  /** The step adds no repeated event that is pending. */
  predicate Spares<E>(s: TimerState<E>, step: Step<E>)
  {
    step.Add? && step.e in s.info && s.info[step.e].repeated ==> !IsPending(s, step.e)
  }

  lemma EmplacedKeyed<E>(s: TimerState<E>, e: E)
    requires Keyed(s) && e in s.info && (s.info[e].repeated ==> !IsPending(s, e))
    ensures Keyed(Emplaced(s, e))
    ensures forall x :: IsPending(Emplaced(s, e), x) <==> IsPending(s, x) || x == e
  {
    var entry, r := Entry(s.info[e].arrive, e, s.stamps), Emplaced(s, e);
    var i := UpperBound(s.pending, entry.key);
    hide UpperBound;
    assert forall k | 0 <= k < |r.pending| ::
      r.pending[k] == if k < i then s.pending[k] else if k == i then entry else s.pending[k - 1];
    forall x
      ensures IsPending(r, x) <==> IsPending(s, x) || x == e
    {
      if IsPending(s, x) {
        var k :| 0 <= k < |s.pending| && s.pending[k].event == x;
        assert r.pending[if k < i then k else k + 1].event == x;
      }
      assert r.pending[i].event == e;
    }
  }

  lemma AddedKeyed<E>(s: TimerState<E>, e: E, clock: Clock)
    requires Keyed(s) && e in s.info && (s.info[e].repeated ==> !IsPending(s, e))
    ensures Keyed(Added(s, e, clock))
    ensures forall x :: IsPending(Added(s, e, clock), x) <==> IsPending(s, x) || x == e
  {
    EmplacedKeyed(s, e);
    var r := Added(s, e, clock);
    assert r.pending == Emplaced(s, e).pending && r.info == s.info;
    hide Inserted, Added;
  }

  lemma RefreshedKeyed<E>(s: TimerState<E>, e: E, clock: Clock)
    requires Keyed(s) && e in s.info && !IsPending(s, e)
    ensures Keyed(Refreshed(s, e, clock))
    ensures forall x :: IsPending(Refreshed(s, e, clock), x) <==> IsPending(s, x)
  {
  }

  /** Putting events back of which those that repeat are neither pending nor there twice. */
  lemma {:induction false} ReaddedKeyed<E>(s: TimerState<E>, es: seq<E>, clock: Clock)
    requires Keyed(s) && forall e <- es :: e in s.info
    requires forall e <- es :: s.info[e].repeated ==> !IsPending(s, e)
    requires forall i, j | 0 <= i < j < |es| && es[i] == es[j] :: !s.info[es[i]].repeated
    ensures Keyed(Readded(s, es, clock))
    decreases |es|
  {
    assert Known(s);
    hide Added, IsPending, Keyed;
    if es != [] {
      var e, rest := es[0], es[1..];
      if s.info[e].repeated {
        var f := Refreshed(s, e, clock);
        RefreshedKeyed(s, e, clock);
        AddedKeyed(f, e, clock);
        var r := Added(f, e, clock);
        forall x | x in rest
          ensures x in r.info && (r.info[x].repeated ==> !IsPending(r, x))
        {
          assert x in es;
          var j :| 1 <= j < |es| && es[j] == x;
        }
        ReaddedKeyed(r, rest, clock);
      } else {
        ReaddedKeyed(s, rest, clock);
      }
    }
  }

  lemma PutBackKeyed<E>(s: TimerState<E>, clock: Clock)
    requires Keyed(s) && InOrder(s)
    ensures Keyed(PutBack(s, clock)) && InOrder(PutBack(s, clock))
  {
    hide FiredAt, Readded, InOrder, Before;
    var now := clock(s.tick);
    var d, f, n := Drained(s, now), FiredAt(s, now), UpperBound(s.pending, now);
    SameOrder(s, d, n);
    ReaddedInOrder(d, f, clock);
    var at := FiresExactlyTheDue(s, now);
    forall i, j | 0 <= i < j < |f| && f[i] == f[j]
      ensures !d.info[f[i]].repeated
    {
      assert s.pending[at[i]].event == s.pending[at[j]].event;
    }
    forall i | 0 <= i < |f| && d.info[f[i]].repeated
      ensures !IsPending(d, f[i])
    {
      assert at[i] in at && s.pending[at[i]].key <= now;
      DueIsTaken(s, now, at[i]);
    }
    assert Keyed(d);
    ReaddedKeyed(d, f, clock);
  }

  /** A repeated event that is due is not left in the multimap. */
  lemma DueIsTaken<E>(s: TimerState<E>, now: int, k: nat)
    requires Keyed(s) && InOrder(s) && k < |s.pending| && s.pending[k].key <= now && s.info[s.pending[k].event].repeated
    ensures !IsPending(Drained(s, now), s.pending[k].event)
  {
    hide Before, InOrder;
    var d, n := Drained(s, now), UpperBound(s.pending, now);
    if n <= k {
      LaterIsNotEarlier(s, n, k);
    }
    assert k < n;
    forall j | 0 <= j < |d.pending|
      ensures d.pending[j].event != s.pending[k].event
    {
      assert d.pending[j] == s.pending[n + j];
    }
  }

  lemma DeletedKeyed<E>(s: TimerState<E>, e: E)
    requires Keyed(s) && e in s.info
    ensures Keyed(Deleted(s, e))
  {
    var arrive := s.info[e].arrive;
    var end := UpperBound(s.pending, arrive);
    var at := IndexOf(s.pending, LowerBound(s.pending, arrive), end, e);
    var r := Deleted(s, e);
    assert r.pending == if at != end then s.pending[..at] + s.pending[at + 1..] else s.pending;
    hide IndexOf, LowerBound, UpperBound;
    var c := Cancelled(s, e);
    assert Keyed(c);
    if at != end {
      WithoutKeyed(c, r, at);
    }
  }

  lemma WithoutKeyed<E>(s: TimerState<E>, r: TimerState<E>, i: nat)
    requires Keyed(s) && i < |s.pending| && r.info == s.info && r.pending == s.pending[..i] + s.pending[i + 1..]
    ensures Keyed(r)
  {
    forall k | 0 <= k < |r.pending|
      ensures r.pending[k] == s.pending[if k < i then k else k + 1]
    {
    }
  }

  lemma NextKeyed<E>(s: TimerState<E>, step: Step<E>, clock: Clock)
    requires Keyed(s) && InOrder(s) && Enabled(s, step, clock) && Spares(s, step)
    ensures Keyed(Next(s, step, clock)) && StepsRight(s, step, clock)
  {
    hide InOrder, ArmsRight;
    match step
    case Add(e) =>
      AddedKeyed(s, e, clock);
      EmplacedKeyed(s, e);
      EmplacedInOrder(s, e);
      KeyedArmsRight(Emplaced(s, e), clock(s.tick));
    case Delete(e) => DeletedKeyed(s, e);
    case Fire =>
      PutBackKeyed(s, clock);
      var a := PutBack(s, clock);
      KeyedArmsRight(a, clock(a.tick));
      assert TimerRun(s, clock).pending == a.pending && TimerRun(s, clock).info == a.info;
      hide PutBack;
    case _ =>
  }

  lemma EmplacedInOrder<E>(s: TimerState<E>, e: E)
    requires InOrder(s) && Known(s) && e in s.info
    ensures InOrder(Emplaced(s, e))
  {
    hide Before, UpperBound;
    InsertedOrdered(s.pending, Entry(s.info[e].arrive, e, s.stamps));
  }

  /** No step of the run adds a repeated event that is pending. */
  predicate AlwaysSpares<E>(s: TimerState<E>, steps: seq<Step<E>>, clock: Clock)
    requires Known(s)
    decreases |steps|
  {
    steps != [] && Enabled(s, steps[0], clock) ==>
      Spares(s, steps[0]) && AlwaysSpares(Next(s, steps[0], clock), steps[1..], clock)
  }

  lemma {:induction false} SparingRunsAreRight<E>(s: TimerState<E>, steps: seq<Step<E>>, clock: Clock)
    requires Keyed(s) && InOrder(s) && AlwaysSpares(s, steps, clock)
    ensures AlwaysRight(s, steps, clock)
    decreases |steps|
  {
    hide Next, StepsRight, InOrder, Spares;
    if steps != [] && Enabled(s, steps[0], clock) {
      NextKeyed(s, steps[0], clock);
      NextInOrder(s, steps[0], clock);
      SparingRunsAreRight(Next(s, steps[0], clock), steps[1..], clock);
    }
  }

  // ---- The period of repeated events ----

  /** The callbacks collected so far, run or not, in order. */
  function Taken<E>(s: TimerState<E>): (r: seq<Task<E>>)
    ensures |r| == |s.log| + |s.batch|
    ensures forall i | 0 <= i < |s.log| :: r[i] == s.log[i].task
    ensures forall i | 0 <= i < |s.batch| :: r[|s.log| + i] == s.batch[i]
  {
    seq(|s.log|, i requires 0 <= i < |s.log| => s.log[i].task) + s.batch
  }

  /** Callbacks collected no earlier than they are due, and run no earlier than collected. */
  ghost predicate Punctual<E>(s: TimerState<E>, clock: Clock) {
    var t := Taken(s);
    && (forall i | 0 <= i < |t| :: t[i].event in s.info && t[i].due <= t[i].taken <= clock(s.tick))
    && (forall i | 0 <= i < |s.log| :: t[i].taken <= s.log[i].time <= clock(s.tick))
    && (forall i, j | 0 <= i < j < |s.log| :: s.log[i].time <= s.log[j].time)
  }

  /** A repeated event is due again at least its interval after it was collected, and unless cancelled it is pending then. */
  ghost predicate Spaced<E>(s: TimerState<E>, clock: Clock) {
    var t := Taken(s);
    && Punctual(s, clock)
    && (forall i, j | 0 <= i < j < |t| && t[i].event == t[j].event && s.info[t[i].event].repeated ::
          t[i].taken + s.info[t[i].event].interval <= t[j].due)
    && (forall i | 0 <= i < |t| && s.info[t[i].event].repeated && !s.info[t[i].event].cancelled ::
          IsPending(s, t[i].event) && t[i].taken + s.info[t[i].event].interval <= s.info[t[i].event].arrive)
  }

  lemma SameTaken<E>(s: TimerState<E>, r: TimerState<E>)
    requires r.log == s.log && r.batch == s.batch
    ensures Taken(r) == Taken(s)
  {
  }

  lemma TakenMore<E>(s: TimerState<E>, r: TimerState<E>)
    requires s.batch == [] && r.log == s.log
    ensures Taken(r) == Taken(s) + r.batch
  {
  }

  lemma TakenInRun<E>(s: TimerState<E>, clock: Clock)
    requires Known(s) && s.batch == []
    ensures var now, f := clock(s.tick), FiredAt(s, clock(s.tick));
            TimerRun(s, clock).log == s.log && Taken(TimerRun(s, clock)) == Taken(s) + Tasks(f, s.info, now)
  {
    hide FiredAt, Readded, Taken;
    TakenMore(s, TimerRun(s, clock));
  }

  lemma TaskTaken<E>(s: TimerState<E>, clock: Clock)
    requires Known(s) && s.batch != []
    ensures Taken(TaskRun(s, clock)) == Taken(s)
  {
  }

  lemma RunSpaced<E>(s: TimerState<E>, clock: Clock)
    requires Known(s) && Exact(s) && InOrder(s) && Monotone(clock) && Spaced(s, clock) && s.batch == []
    ensures Spaced(TimerRun(s, clock), clock)
  {
    hide FiredAt, TimerRun, IsPending, InOrder, Exact, Taken;
    var r, now, f := TimerRun(s, clock), clock(s.tick), FiredAt(s, clock(s.tick));
    RunExact(s, clock);
    FiredEvents(s, now);
    TakenInRun(s, clock);
    var t, n := Taken(r), |s.log|;
    forall i | n <= i < |t|
      ensures t[i].event in f && t[i].due <= now && t[i].due == s.info[t[i].event].arrive
    {
      assert t[i].event == f[i - n];
    }
    forall i | 0 <= i < |t| && r.info[t[i].event].repeated && !r.info[t[i].event].cancelled
      ensures IsPending(r, t[i].event) && t[i].taken + r.info[t[i].event].interval <= r.info[t[i].event].arrive
    {
      assert t[i].event in s.info && (i < n ==> t[i] == Taken(s)[i]);
    }
    forall i, j | n <= i < j < |t|
      ensures t[i].event != t[j].event
    {
      assert f[i - n] != f[j - n];
    }
    forall i, j | 0 <= i < j < |t| && t[i].event == t[j].event && r.info[t[i].event].repeated
      ensures t[i].taken + r.info[t[i].event].interval <= t[j].due
    {
      assert i < n && t[i] == Taken(s)[i];
    }
  }

  lemma TaskSpaced<E>(s: TimerState<E>, clock: Clock)
    requires Known(s) && Monotone(clock) && Spaced(s, clock) && s.batch != []
    ensures Spaced(TaskRun(s, clock), clock) && Taken(TaskRun(s, clock)) == Taken(s)
  {
    var r := TaskRun(s, clock);
    TaskTaken(s, clock);
    assert clock(s.tick) <= clock(r.tick);
    hide Taken;
    assert forall x :: IsPending(r, x) <==> IsPending(s, x);
    forall i | 0 <= i < |r.log|
      ensures r.log[i].task == Taken(s)[i] && r.log[i].time <= clock(s.tick)
      ensures r.log[i].task.taken <= r.log[i].time
    {
    }
  }

  /** Everything a run in which no event is added twice keeps. */
  ghost predicate Sound<E>(s: TimerState<E>, clock: Clock) {
    Exact(s) && InOrder(s) && Spaced(s, clock)
  }

  lemma AddSound<E>(s: TimerState<E>, e: E, clock: Clock)
    requires Sound(s, clock) && Monotone(clock) && e in s.info && !IsPending(s, e)
    ensures Sound(Added(s, e, clock), clock)
  {
    AddedInOrder(s, e, clock);
    AddedExact(s, e, clock);
    AddedPending(s, e, clock);
    hide Added, InOrder, Exact, IsPending;
    TickGrows(s, e, clock);
  }

  lemma TickGrows<E>(s: TimerState<E>, e: E, clock: Clock)
    requires Known(s) && e in s.info && Monotone(clock)
    ensures clock(s.tick) <= clock(Added(s, e, clock).tick)
  {
  }

  lemma DeleteSound<E>(s: TimerState<E>, e: E, clock: Clock)
    requires Sound(s, clock) && e in s.info
    ensures Sound(Deleted(s, e), clock)
  {
    DeletedInOrder(s, e);
    DeletesExactlyOne(s, e);
    DeletedRest(s, e);
    hide Deleted, InOrder, Exact, Spaced, IsPending;
    CancelledSpaced(s, Deleted(s, e), e, clock);
  }

  lemma CancelledSpaced<E>(s: TimerState<E>, r: TimerState<E>, e: E, clock: Clock)
    requires Spaced(s, clock) && e in s.info && r.info == s.info[e := s.info[e].(cancelled := true)]
    requires r.log == s.log && r.batch == s.batch && r.tick == s.tick
    requires forall x | x != e :: IsPending(r, x) <==> IsPending(s, x)
    ensures Spaced(r, clock)
  {
    SameTaken(s, r);
    var t := Taken(s);
    hide Taken, IsPending;
    forall i | 0 <= i < |t|
      ensures t[i].event in r.info && r.info[t[i].event].repeated == s.info[t[i].event].repeated
      ensures r.info[t[i].event].interval == s.info[t[i].event].interval
      ensures r.info[t[i].event].repeated && !r.info[t[i].event].cancelled ==>
                IsPending(r, t[i].event) && t[i].taken + r.info[t[i].event].interval <= r.info[t[i].event].arrive
    {
      assert t[i].event != e ==> r.info[t[i].event] == s.info[t[i].event];
    }
  }

  lemma DeletedRest<E>(s: TimerState<E>, e: E)
    requires Known(s) && e in s.info
    ensures Deleted(s, e).log == s.log && Deleted(s, e).batch == s.batch && Deleted(s, e).tick == s.tick
  {
  }

  /** The clock goes on, and an event nobody has seen may be made. */
  lemma SameSpaced<E>(s: TimerState<E>, r: TimerState<E>, clock: Clock)
    requires Spaced(s, clock) && clock(s.tick) <= clock(r.tick) && r.log == s.log && r.batch == s.batch
    requires r.pending == s.pending && forall e <- s.info :: e in r.info && r.info[e] == s.info[e]
    ensures Spaced(r, clock)
  {
    SameTaken(s, r);
    hide Taken;
    assert forall x :: IsPending(r, x) <==> IsPending(s, x);
  }

  lemma OtherSound<E>(s: TimerState<E>, step: Step<E>, clock: Clock)
    requires Sound(s, clock) && Enabled(s, step, clock) && Monotone(clock) && (step.Create? || step.Expire? || step.Run?)
    ensures Sound(Next(s, step, clock), clock)
  {
    var r := Next(s, step, clock);
    SameOrder(s, r, 0);
    assert clock(s.tick) <= clock(s.tick + 1);
    assert Exact(r);
    if step.Run? {
      TaskSpaced(s, clock);
      hide Spaced, InOrder, Exact;
    } else {
      assert r.pending == s.pending && forall e <- s.info :: e in r.info && r.info[e] == s.info[e];
      hide Spaced, InOrder, Exact;
      SameSpaced(s, r, clock);
    }
  }

  lemma NextSound<E>(s: TimerState<E>, step: Step<E>, clock: Clock)
    requires Known(s) && Sound(s, clock) && Enabled(s, step, clock) && Single(s, step) && Monotone(clock)
    ensures Sound(Next(s, step, clock), clock)
  {
    hide InOrder, Exact, Spaced, TimerRun, Added, Deleted, IsPending;
    match step
    case Add(e) => AddSound(s, e, clock);
    case Delete(e) => DeleteSound(s, e, clock);
    case Fire =>
      NextInOrder(s, step, clock);
      RunExact(s, clock);
      RunSpaced(s, clock);
    case _ => OtherSound(s, step, clock);
  }

  lemma {:induction false} RunsAreSound<E>(s: TimerState<E>, steps: seq<Step<E>>, clock: Clock, r: TimerState<E>)
    requires Known(s) && Sound(s, clock) && Monotone(clock) && Leads(s, steps, clock, true, r)
    ensures Sound(r, clock)
    decreases |steps|
  {
    hide Sound, Next, Monotone, Single;
    if steps != [] {
      NextSound(s, steps[0], clock);
      RunsAreSound(Next(s, steps[0], clock), steps[1..], clock, r);
    }
  }

  lemma StartSound<E>(clock: Clock)
    ensures Sound(Start<E>(), clock)
  {
  }

  // ---- Main results, over every run ----

  lemma {:induction false} StaysWatched<E>(s: TimerState<E>, steps: seq<Step<E>>, clock: Clock, r: TimerState<E>)
    requires Known(s) && Watched(s) && Leads(s, steps, clock, false, r)
    ensures Known(r) && Watched(r)
    decreases |steps|
  {
    hide Next, Watched;
    if steps != [] {
      NextWatched(s, steps[0], clock);
      StaysWatched(Next(s, steps[0], clock), steps[1..], clock, r);
    }
  }

  /** Whatever has been created, added, also twice, deleted and run, in any order: as long as anything is pending the timerfd
      is set or has expired. */
  lemma AlwaysArmed<E>(steps: seq<Step<E>>, clock: Clock, s: TimerState<E>)
    requires Leads(Start<E>(), steps, clock, false, s)
    ensures Known(s) && (s.pending != [] ==> !s.fd.Idle?)
  {
    StaysWatched(Start<E>(), steps, clock, s);
  }

  /** Over the whole of any run the deadline set is no later than the first arrival, or 100 ms after it was set, exactly if
      each time the timerfd is set the event in front of the multimap is the one due first, or due within 100 ms. */
  lemma DeadlineInTimeIff<E>(steps: seq<Step<E>>, clock: Clock)
    ensures AlwaysInTime(Start<E>(), steps, clock) <==> AlwaysRight(Start<E>(), steps, clock)
  {
    InTimeIff(Start<E>(), steps, clock);
  }

  /** So it is in every run, on any clock, in which no repeated event is added while it is pending. */
  lemma DeadlineInTime<E>(steps: seq<Step<E>>, clock: Clock)
    requires AlwaysSpares(Start<E>(), steps, clock)
    ensures AlwaysInTime(Start<E>(), steps, clock)
  {
    SparingRunsAreRight(Start<E>(), steps, clock);
    InTimeIff(Start<E>(), steps, clock);
  }

  /** In a run in which no event is added while it is pending, a repeated event that onTimer has collected is due again no
      earlier than its interval later, and runs no earlier than it is due. Two runs of it can be closer than the interval by
      as much as the first was late. */
  lemma PeriodIsKept<E>(steps: seq<Step<E>>, clock: Clock, s: TimerState<E>, i: nat, j: nat)
    requires Monotone(clock) && Leads(Start<E>(), steps, clock, true, s) && i < j < |s.log|
    requires s.log[i].task.event == s.log[j].task.event
    ensures s.log[i].task.event in s.info
    ensures var a, b := s.log[i], s.log[j]; var info := s.info[a.task.event];
            info.repeated ==>
              && a.task.taken + info.interval <= b.task.due <= b.task.taken <= b.time
              && info.interval - (a.time - a.task.taken) <= b.time - a.time
              && a.task.taken <= a.time <= b.time
  {
    hide Leads, Exact, InOrder, Taken;
    StartSound<E>(clock);
    RunsAreSound(Start<E>(), steps, clock, s);
    assert Taken(s)[i] == s.log[i].task && Taken(s)[j] == s.log[j].task;
  }

  // ---- Deleted events ----

  /** A cancelled event stays cancelled, and no step collects it. */
  lemma CancelledStep<E>(s: TimerState<E>, step: Step<E>, clock: Clock, e: E)
    requires Known(s) && Enabled(s, step, clock) && e in s.info && s.info[e].cancelled
    ensures var r := Next(s, step, clock);
            && e in r.info && r.info[e].cancelled && Taken(s) <= Taken(r) && |s.log| <= |r.log|
            && forall i | |Taken(s)| <= i < |Taken(r)| :: Taken(r)[i].event != e
  {
    hide TimerRun, Inserted, Taken;
    var r := Next(s, step, clock);
    if step.Fire? {
      TakenInRun(s, clock);
      RunCancelled(s, clock, e);
      FiredAreLive(s, clock(s.tick));
      var f := FiredAt(s, clock(s.tick));
      forall i | |Taken(s)| <= i < |Taken(r)|
        ensures Taken(r)[i].event != e
      {
        assert f[i - |Taken(s)|] in f;
      }
      assert Taken(r)[..|Taken(s)|] == Taken(s);
    } else if step.Run? {
      TaskTaken(s, clock);
    } else {
      SameTaken(s, r);
    }
  }

  lemma {:induction false} ReaddedCancelled<E>(s: TimerState<E>, es: seq<E>, clock: Clock, e: E)
    requires Known(s) && (forall x <- es :: x in s.info) && e in s.info
    ensures e in Readded(s, es, clock).info && Readded(s, es, clock).info[e].cancelled == s.info[e].cancelled
    decreases |es|
  {
    hide Added;
    if es != [] {
      var x := es[0];
      if s.info[x].repeated {
        ReaddedCancelled(Added(Refreshed(s, x, clock), x, clock), es[1..], clock, e);
      } else {
        ReaddedCancelled(s, es[1..], clock, e);
      }
    }
  }

  lemma RunCancelled<E>(s: TimerState<E>, clock: Clock, e: E)
    requires Known(s) && e in s.info
    ensures e in TimerRun(s, clock).info && TimerRun(s, clock).info[e].cancelled == s.info[e].cancelled
  {
    hide Readded, FiredAt;
    ReaddedCancelled(Drained(s, clock(s.tick)), FiredAt(s, clock(s.tick)), clock, e);
  }

  lemma FiredAreLive<E>(s: TimerState<E>, now: int)
    requires Known(s)
    ensures forall e <- FiredAt(s, now) :: !s.info[e].cancelled
  {
  }

  lemma {:induction false} NeverCollected<E>(s: TimerState<E>, e: E, steps: seq<Step<E>>, clock: Clock, r: TimerState<E>)
    requires Known(s) && e in s.info && s.info[e].cancelled && Leads(s, steps, clock, false, r)
    ensures Taken(s) <= Taken(r) && |s.log| <= |r.log|
    ensures forall i | |Taken(s)| <= i < |Taken(r)| :: Taken(r)[i].event != e
    decreases |steps|
  {
    hide Next, Taken;
    if steps != [] {
      CancelledStep(s, steps[0], clock, e);
      var n := Next(s, steps[0], clock);
      NeverCollected(n, e, steps[1..], clock, r);
      forall i | |Taken(s)| <= i < |Taken(n)|
        ensures Taken(r)[i].event != e
      {
        assert Taken(r)[i] == Taken(n)[i];
      }
    }
  }

  /** Once deleted, whatever happens afterwards and however events are added, an event is run again exactly where it is in the
      batch that onTimer had collected before and not yet run. */
  lemma DeletedRunsIff<E>(s: TimerState<E>, e: E, steps: seq<Step<E>>, clock: Clock, r: TimerState<E>, i: nat)
    requires Known(s) && e in s.info && Leads(Deleted(s, e), steps, clock, false, r)
    ensures |s.log| <= |r.log|
    ensures |s.log| <= i < |r.log| ==>
              (r.log[i].task.event == e <==> i - |s.log| < |s.batch| && s.batch[i - |s.log|].event == e)
  {
    hide Taken, Leads;
    var d := Deleted(s, e);
    DeletedRest(s, e);
    NeverCollected(d, e, steps, clock, r);
    if |s.log| <= i < |r.log| {
      assert r.log[i].task == Taken(r)[i];
      if i < |Taken(d)| {
        assert Taken(r)[i] == Taken(d)[i];
        assert Taken(d)[|d.log| + (i - |s.log|)] == s.batch[i - |s.log|];
      }
    }
  }
}
