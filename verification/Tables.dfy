/** The table of fd events, which grows on demand, and the choice of io threads in turn. */
module Tables {
  class FdEvent {
    const fd: int

    constructor (fd: int)
      ensures this.fd == fd
    {
      this.fd := fd;
    }
  }

  /** The new size for `fd` covers it exactly from 2 on. */
  lemma GrowthCoversIff(fd: nat)
    ensures fd < 3 * fd / 2 <==> 2 <= fd
  {
  }

  class FdEventGroup {
    var group: seq<FdEvent>

    ghost predicate Valid()
      reads this
    {
      forall i | 0 <= i < |group| :: group[i].fd == i
    }

    constructor (size: nat)
      ensures Valid() && |group| == size
    {
      var events: seq<FdEvent> := [];
      for i := 0 to size
        invariant |events| == i && forall k | 0 <= k < i :: events[k].fd == k
      {
        var event := new FdEvent(i);
        events := events + [event];
      }
      group := events;
    }

    /** An entry once handed out stays the entry of its fd: the table only grows at its end. On a table of two entries
        or more every fd is covered. */
    method GetFdEvent(fd: nat) returns (event: FdEvent)
      requires Valid() && (fd < |group| || 2 <= fd)
      modifies this
      ensures Valid() && old(group) <= group && fd < |group|
      ensures event == group[fd] && event.fd == fd
      ensures |group| == if fd < old(|group|) then old(|group|) else 3 * fd / 2
    {
      if fd < |group| {
        return group[fd];
      }
      GrowthCoversIff(fd);
      var newSize := 3 * fd / 2;
      for i := |group| to newSize
        invariant Valid() && |group| == i && old(group) <= group
      {
        var added := new FdEvent(i);
        group := group + [added];
      }
      event := group[fd];
    }

    /** Any sequence of look-ups on a table of at least two entries: the same fd always gives the same object, different
        fds different ones. */
    method GetFdEvents(fds: seq<nat>) returns (events: seq<FdEvent>)
      requires Valid() && 2 <= |group|
      modifies this
      ensures Valid() && old(group) <= group && |events| == |fds|
      ensures forall i | 0 <= i < |fds| :: fds[i] < |group| && events[i] == group[fds[i]] && events[i].fd == fds[i]
      ensures forall i, j | 0 <= i < |fds| && 0 <= j < |fds| :: events[i] == events[j] <==> fds[i] == fds[j]
    {
      events := [];
      for i := 0 to |fds|
        invariant Valid() && 2 <= |group| && old(group) <= group && |events| == i
        invariant forall k | 0 <= k < i :: fds[k] < |group| && events[k] == group[fds[k]]
      {
        var event := GetFdEvent(fds[i]);
        events := events + [event];
      }
    }
  }

  class IOThread {
  }

  /** Whose turn the k-th of n is. */
  function Turn(k: nat, n: nat): (t: nat)
    requires 0 < n
    ensures t < n
  {
    k % n
  }

  class IOThreadGroup {
    const threads: seq<IOThread>
    var index: int
    /** How often a thread has been asked for. */
    ghost var calls: nat

    ghost predicate Valid()
      reads this
    {
      0 < |threads| && index == if calls == 0 then 0 else Turn(calls - 1, |threads|) + 1
    }

    constructor (threads: seq<IOThread>)
      requires threads != []
      ensures Valid() && this.threads == threads && calls == 0
    {
      this.threads := threads;
      index, calls := 0, 0;
    }

    /** The k-th call, counted from 0, gives thread k mod n. */
    method GetIOThread() returns (thread: IOThread)
      requires Valid()
      modifies this
      ensures Valid() && calls == old(calls) + 1
      ensures thread == threads[Turn(old(calls), |threads|)]
    {
      hide Turn;
      NextInTurn(calls, |threads|);
      if index == |threads| || index == -1 {
        index := 0;
      }
      thread := threads[index];
      index := index + 1;
      calls := calls + 1;
    }
  }

  lemma NextInTurn(k: nat, n: nat)
    requires 0 < n
    ensures k == 0 ==> Turn(k, n) == 0
    ensures k != 0 ==> Turn(k, n) == if Turn(k - 1, n) + 1 == n then 0 else Turn(k - 1, n) + 1
  {
    if k != 0 {
      var q, r := Quotient(k - 1, n);
      if r + 1 == n {
        Distribute(q, -1, n);
        Remainder(k, n, q + 1, 0);
      } else {
        Remainder(k, n, q, r + 1);
      }
    } else {
      Remainder(0, n, 0, 0);
    }
  }

  lemma LargeMultiple(d: int, n: int)
    requires 0 < n && 1 <= d
    ensures n <= d * n && (-d) * n == -(d * n)
  {
    assert (d - 1) * n >= 0;
  }

  lemma SmallMultiple(d: int, n: int)
    requires 0 < n && -n < d * n < n
    ensures d == 0
  {
    if d != 0 {
      LargeMultiple(if 1 <= d then d else -d, n);
    }
  }

  lemma Quotient(k: nat, n: nat) returns (q: int, r: int)
    requires 0 < n
    ensures k == q * n + r && 0 <= r < n && r == k % n
  {
    q, r := k / n, k % n;
  }

  lemma Remainder(k: nat, n: nat, q: int, r: nat)
    requires 0 < n && r < n && k == q * n + r
    ensures k % n == r
  {
    var q2, r2 := Quotient(k, n);
    Distribute(q, q2, n);
    SmallMultiple(q - q2, n);
  }

  lemma Distribute(a: int, b: int, n: int)
    ensures (a - b) * n == a * n - b * n
  {
  }

  /** How many of the first k calls gave thread t. */
  function Share(k: nat, n: nat, t: nat): nat
    requires t < n
  {
    if k == 0 then 0 else Share(k - 1, n, t) + if Turn(k - 1, n) == t then 1 else 0
  }

  /** After any number of calls the threads before the next one in turn have had one call more than the others. */
  lemma {:induction false} SharesDiffer(k: nat, n: nat, t: nat, u: nat)
    requires t < n && u < n
    ensures Share(k, n, t) - Share(k, n, u) == (if t < Turn(k, n) then 1 else 0) - (if u < Turn(k, n) then 1 else 0)
  {
    hide Turn;
    NextInTurn(k, n);
    if k != 0 {
      SharesDiffer(k - 1, n, t, u);
    }
  }

  /** So their shares never differ by more than one. */
  lemma SharesAreEven(k: nat, n: nat, t: nat, u: nat)
    requires t < n && u < n
    ensures -1 <= Share(k, n, t) - Share(k, n, u) <= 1
  {
    SharesDiffer(k, n, t, u);
  }
}
