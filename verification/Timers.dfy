/** Timer and TimerEvent as objects. */
module Timers {
  import opened TimerModel

  /** getNowMs: some reading after the other. */
  class SystemClock {
    const readings: Clock
    var tick: nat

    constructor (readings: Clock)
      ensures this.readings == readings && tick == 0
    {
      this.readings := readings;
      tick := 0;
    }

    method Now() returns (t: int)
      modifies this
      ensures t == readings(old(tick)) && tick == old(tick) + 1
    {
      t := readings(tick);
      tick := tick + 1;
    }
  }

  class TimerEvent {
    var arriveTime: int
    var interval: int
    var isRepeated: bool
    var isCancelled: bool

    constructor (interval: int, isRepeated: bool, now: int)
      ensures Value() == Info(now + interval, interval, isRepeated, false)
    {
      this.interval, this.isRepeated, isCancelled := interval, isRepeated, false;
      arriveTime := now + interval;
    }

    function Value(): Info
      reads this
    {
      Info(arriveTime, interval, isRepeated, isCancelled)
    }

    method ResetArriveTime(clock: SystemClock)
      modifies this`arriveTime, clock
      ensures arriveTime == clock.readings(old(clock.tick)) + interval && clock.tick == old(clock.tick) + 1
    {
      var now := clock.Now();
      arriveTime := now + interval;
    }
  }

  class Timer {
    var pendingEvents: seq<Entry<TimerEvent>>
    var fd: Fd
    var inserted: nat
    /** The callbacks that onTimer has collected and not yet run. */
    var tasks: seq<Task<TimerEvent>>
    const clock: SystemClock
    /** The events made for this timer, and what has been run. */
    ghost var events: set<TimerEvent>
    ghost var log: seq<Ran<TimerEvent>>

    ghost function State(): TimerState<TimerEvent>
      reads this, clock, events
    {
      TimerState(pendingEvents, map e | e in events :: e.Value(), fd, inserted, clock.tick, tasks, log)
    }

    constructor (clock: SystemClock)
      ensures this.clock == clock && State() == Start().(tick := clock.tick)
    {
      this.clock := clock;
      pendingEvents, fd, inserted, tasks := [], Idle, 0, [];
      events, log := {}, [];
    }

    method NewEvent(interval: int, isRepeated: bool) returns (event: TimerEvent)
      modifies this`events, clock
      ensures fresh(event) && events == old(events) + {event}
      ensures State() == Created(old(State()), event, interval, isRepeated, clock.readings)
    {
      var now := clock.Now();
      event := new TimerEvent(interval, isRepeated, now);
      events := events + {event};
    }

    /** Sets the timerfd to the time left until the first arrival. */
    method ResetArriveTime()
      requires Known(State())
      modifies this`fd, clock
      ensures State() == Rearmed(old(State()), clock.readings)
    {
      if pendingEvents == [] {
        return;
      }
      var now := clock.Now();
      var first := pendingEvents[0].event;
      assert first in old(State()).info;
      var interval := 0;
      if first.arriveTime > now {
        interval := first.arriveTime - now;
      } else {
        interval := 100;
      }
      fd := Armed(now + interval, now);
    }

    /** multimap::upper_bound */
    method FindAbove(key: int) returns (i: nat)
      ensures i == UpperBound(pendingEvents, key)
    {
      i := 0;
      while i < |pendingEvents| && pendingEvents[i].key <= key
        invariant i <= |pendingEvents|
        invariant UpperBound(pendingEvents, key) == i + UpperBound(pendingEvents[i..], key)
      {
        assert pendingEvents[i..][1..] == pendingEvents[i + 1..];
        i := i + 1;
      }
    }

    /** multimap::lower_bound */
    method FindNotBelow(key: int) returns (i: nat)
      ensures i == LowerBound(pendingEvents, key)
    {
      i := 0;
      while i < |pendingEvents| && pendingEvents[i].key < key
        invariant i <= |pendingEvents|
        invariant LowerBound(pendingEvents, key) == i + LowerBound(pendingEvents[i..], key)
      {
        assert pendingEvents[i..][1..] == pendingEvents[i + 1..];
        i := i + 1;
      }
    }

    method AddTimerEvent(event: TimerEvent)
      requires Known(State()) && event in events
      modifies this`pendingEvents, this`inserted, this`fd, clock
      ensures State() == Added(old(State()), event, clock.readings)
    {
      hide Rearmed, UpperBound;
      var isResetTimerfd := false;
      if pendingEvents == [] {
        isResetTimerfd := true;
      } else if pendingEvents[0].event.arriveTime > event.arriveTime {
        isResetTimerfd := true;
      }
      var i := FindAbove(event.arriveTime);
      pendingEvents := pendingEvents[..i] + [Entry(event.arriveTime, event, inserted)] + pendingEvents[i..];
      inserted := inserted + 1;
      assert var s := old(State());
             var pending := Inserted(s.pending, Entry(s.info[event].arrive, event, s.stamps));
             State() == s.(pending := pending, stamps := s.stamps + 1);
      if isResetTimerfd {
        ResetArriveTime();
      }
    }

    /** The search through equal_range of the event's arrival time. */
    method FindEntry(event: TimerEvent) returns (found: bool, i: nat)
      ensures var end := UpperBound(pendingEvents, event.arriveTime);
              && i == IndexOf(pendingEvents, LowerBound(pendingEvents, event.arriveTime), end, event)
              && found == (i != end)
    {
      var begin := FindNotBelow(event.arriveTime);
      var end := FindAbove(event.arriveTime);
      i := begin;
      while i != end && pendingEvents[i].event != event
        invariant begin <= i <= end
        invariant IndexOf(pendingEvents, begin, end, event) == IndexOf(pendingEvents, i, end, event)
        decreases end - i
      {
        i := i + 1;
      }
      found := i != end;
    }

    method Cancel(event: TimerEvent)
      requires Known(State()) && event in events
      modifies event`isCancelled
      ensures State() == Cancelled(old(State()), event) && event.arriveTime == old(event.arriveTime)
    {
      event.isCancelled := true;
    }

    method DeleteTimerEvent(event: TimerEvent)
      requires Known(State()) && event in events
      modifies this`pendingEvents, event`isCancelled
      ensures State() == Deleted(old(State()), event)
    {
      hide IndexOf, LowerBound, UpperBound, Cancelled;
      Cancel(event);
      assert event.arriveTime == old(State()).info[event].arrive;
      var found, i := FindEntry(event);
      if found {
        pendingEvents := pendingEvents[..i] + pendingEvents[i + 1..];
      }
    }

    /** The loop over due entries: how many there are, the events to run, and their callbacks. */
    method CollectDue(now: int) returns (n: nat, tmps: seq<TimerEvent>, callbacks: seq<Task<TimerEvent>>)
      requires Known(State())
      ensures n == UpperBound(pendingEvents, now) && tmps == FiredAt(State(), now)
      ensures callbacks == Tasks(tmps, State().info, now)
    {
      hide UpperBound, Live, Tasks;
      ghost var p, info := pendingEvents, State().info;
      tmps, callbacks := [], [];
      n := 0;
      NothingDue(p, info, now);
      while n < |pendingEvents| && pendingEvents[n].key <= now
        invariant n <= |p| && UpperBound(p, now) == n + UpperBound(p[n..], now)
        invariant tmps == Live(p[..n], info) && callbacks == Tasks(tmps, info, now)
      {
        var event := pendingEvents[n].event;
        assert p[n].event in info;
        OneMoreDue(p, info, now, n);
        if !event.isCancelled {
          TasksSnoc(tmps, event, info, now);
          tmps := tmps + [event];
          callbacks := callbacks + [Task(event, event.arriveTime, now)];
        }
        n := n + 1;
      }
      NoMoreDue(p, now, n);
    }

    method Refresh(event: TimerEvent)
      requires Known(State()) && event in events
      modifies clock, event`arriveTime
      ensures State() == Refreshed(old(State()), event, clock.readings)
    {
      event.ResetArriveTime(clock);
    }

    /** The loop that puts repeated events back. */
    method AddRepeated(tmps: seq<TimerEvent>)
      requires Known(State()) && forall e <- tmps :: e in events
      modifies this`pendingEvents, this`inserted, this`fd, clock, events
      ensures State() == Readded(old(State()), tmps, clock.readings)
    {
      hide Added, Refreshed;
      for i := 0 to |tmps|
        invariant Known(State()) && events == old(events) && log == old(log) && tasks == old(tasks)
        invariant Readded(State(), tmps[i..], clock.readings) == Readded(old(State()), tmps, clock.readings)
      {
        var event := tmps[i];
        assert tmps[i..][0] == event && tmps[i..][1..] == tmps[i + 1..];
        if event.isRepeated {
          Refresh(event);
          AddTimerEvent(event);
        }
      }
      assert tmps[|tmps|..] == [];
    }

    /** The first part of onTimer: drains the timerfd, and takes the due entries out. */
    method TakeDue() returns (tmps: seq<TimerEvent>, callbacks: seq<Task<TimerEvent>>)
      requires Known(State())
      modifies this`pendingEvents, this`fd, clock
      ensures var s, now := old(State()), clock.readings(old(clock.tick));
              && State() == Drained(s, now) && tmps == FiredAt(s, now)
              && callbacks == Tasks(tmps, s.info, now)
    {
      hide FiredAt, UpperBound;
      if fd.Expired? {
        fd := Idle;
      }
      var now := clock.Now();
      ghost var s := State();
      var n, due, all := CollectDue(now);
      tmps, callbacks := due, all;
      SameFired(old(State()), s, now);
      pendingEvents := pendingEvents[n..];
    }

    /** onTimer up to its last loop. */
    method CollectTasks()
      requires Known(State()) && tasks == []
      modifies this`pendingEvents, this`inserted, this`fd, this`tasks, clock, events
      ensures State() == TimerRun(old(State()), clock.readings)
    {
      hide Readded, FiredAt, Rearmed, Drained, Tasks;
      ghost var s, now := State(), clock.readings(clock.tick);
      var tmps, callbacks := TakeDue();
      assert forall e <- tmps :: e in Drained(s, now).info by { DrainedKeeps(s, now); }
      AddRepeated(tmps);
      ResetArriveTime();
      tasks := callbacks;
    }

    /** One turn of the last loop: the callback is recorded with the time it starts. */
    method RunTask()
      requires Known(State()) && tasks != []
      modifies this`tasks, this`log, clock
      ensures State() == TaskRun(old(State()), clock.readings)
    {
      var now := clock.Now();
      log := log + [Ran(tasks[0], now)];
      tasks := tasks[1..];
    }

    /** onTimer when nothing comes between its callbacks. */
    method OnTimer()
      requires Known(State()) && tasks == []
      modifies this`pendingEvents, this`inserted, this`fd, this`tasks, this`log, clock, events
      ensures State() == AllRun(TimerRun(old(State()), clock.readings), clock.readings)
    {
      hide TimerRun, TaskRun;
      CollectTasks();
      while tasks != []
        invariant Known(State()) && events == old(events)
        invariant AllRun(State(), clock.readings) == AllRun(TimerRun(old(State()), clock.readings), clock.readings)
        decreases |tasks|
      {
        ghost var s := State();
        RunTask();
        assert |tasks| < |s.batch| by { TaskGone(s, clock.readings); }
      }
    }
  }

  /** The last loop of onTimer to its end. */
  function AllRun<E>(s: TimerState<E>, clock: Clock): (r: TimerState<E>)
    requires Known(s)
    ensures r.batch == [] && r.pending == s.pending && r.info == s.info && r.fd == s.fd
    decreases |s.batch|
  {
    if s.batch == [] then s else AllRun(TaskRun(s, clock), clock)
  }

  lemma TaskGone<E>(s: TimerState<E>, clock: Clock)
    requires Known(s) && s.batch != []
    ensures TaskRun(s, clock).batch == s.batch[1..]
  {
  }

  lemma NothingDue<E>(p: seq<Entry<E>>, info: map<E, Info>, now: int)
    ensures p[0..] == p && p[..0] == [] && Live(p[..0], info) == [] && Tasks([], info, now) == []
  {
  }

  lemma OneMoreDue<E>(p: seq<Entry<E>>, info: map<E, Info>, now: int, n: nat)
    requires n < |p| && p[n].key <= now && forall k | 0 <= k < |p| :: p[k].event in info
    ensures UpperBound(p[n..], now) == 1 + UpperBound(p[n + 1..], now)
    ensures Live(p[..n + 1], info) == Live(p[..n], info) + if info[p[n].event].cancelled then [] else [p[n].event]
  {
    assert p[n..][1..] == p[n + 1..];
    assert p[..n + 1][..n] == p[..n];
  }

  lemma NoMoreDue<E>(p: seq<Entry<E>>, now: int, n: nat)
    requires n <= |p| && (n == |p| || p[n].key > now)
    ensures UpperBound(p[n..], now) == 0
  {
  }

  lemma TasksSnoc<E>(es: seq<E>, e: E, info: map<E, Info>, now: int)
    requires (forall x <- es :: x in info) && e in info
    ensures Tasks(es + [e], info, now) == Tasks(es, info, now) + [Task(e, info[e].arrive, now)]
  {
  }

  lemma DrainedKeeps<E>(s: TimerState<E>, now: int)
    requires Known(s)
    ensures Drained(s, now).info == s.info && Drained(s, now).log == s.log
  {
  }

  lemma SameFired<E>(a: TimerState<E>, b: TimerState<E>, now: int)
    requires Known(a) && Known(b) && a.pending == b.pending && a.info == b.info
    ensures FiredAt(a, now) == FiredAt(b, now)
  {
  }
}
