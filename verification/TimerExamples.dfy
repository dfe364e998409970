/** Runs of the timer that reach the limits of what it keeps: an event added twice, and callbacks that start late. */
module TimerExamples {
  import opened TimerModel

  lemma LeadsStep<E>(s: TimerState<E>, steps: seq<Step<E>>, clock: Clock, single: bool, r: TimerState<E>)
    requires Known(s) && steps != [] && Enabled(s, steps[0], clock) && (single ==> Single(s, steps[0]))
    requires Leads(Next(s, steps[0], clock), steps[1..], clock, single, r)
    ensures Leads(s, steps, clock, single, r)
  {
  }

  lemma LeadsNowhere<E>(s: TimerState<E>, clock: Clock, single: bool)
    requires Known(s)
    ensures Leads(s, [], clock, single, s)
  {
  }

  lemma FirstEntry<E>(entry: Entry<E>)
    ensures Inserted([], entry) == [entry]
  {
    assert [] + [entry] + [] == [entry];
  }

  /** An entry that comes behind the first one. */
  lemma SecondEntry<E>(a: Entry<E>, entry: Entry<E>)
    requires a.key <= entry.key
    ensures Inserted([a], entry) == [a, entry]
  {
    assert [a][1..] == [];
    assert UpperBound([a], entry.key) == 1;
  }

  lemma MiddleEntry<E>(a: Entry<E>, b: Entry<E>, entry: Entry<E>)
    requires a.key <= entry.key < b.key
    ensures Inserted([a, b], entry) == [a, entry, b]
  {
    assert [a, b][1..] == [b];
    assert UpperBound([b], entry.key) == 0;
    assert UpperBound([a, b], entry.key) == 1;
  }

  /** A timer with one event, made and added when the clock reads 0. */
  function Opened<E>(e: E, p: int): (s: TimerState<E>)
    ensures Known(s)
  {
    TimerState([Entry(p, e, 0)], map[e := Info(p, p, true, false)], Armed(p, 0), 1, 2, [], [])
  }

  lemma OpeningLeads<E>(e: E, p: int, clock: Clock, single: bool, rest: seq<Step<E>>, r: TimerState<E>)
    requires 0 < p && clock(0) == clock(1) == 0 && Leads(Opened(e, p), rest, clock, single, r)
    ensures Leads(Start<E>(), [Create(e, p, true), Add(e)] + rest, clock, single, r)
  {
    var s1 := TimerState([], map[e := Info(p, p, true, false)], Idle, 0, 1, [], []);
    OpeningSteps(e, p, clock, s1);
    var steps := [Create(e, p, true), Add(e)] + rest;
    hide Leads, Next, Opened;
    assert steps[1..][1..] == rest;
    LeadsStep(s1, steps[1..], clock, single, r);
    LeadsStep(Start<E>(), steps, clock, single, r);
  }

  lemma OpeningSteps<E>(e: E, p: int, clock: Clock, s1: TimerState<E>)
    requires 0 < p && clock(0) == clock(1) == 0
    requires s1 == TimerState([], map[e := Info(p, p, true, false)], Idle, 0, 1, [], [])
    ensures Next(Start<E>(), Create(e, p, true), clock) == s1 && Next(s1, Add(e), clock) == Opened(e, p)
    ensures !IsPending(s1, e)
  {
    FirstEntry(Entry(p, e, 0));
  }

  // ---- A callback that starts late ----

  /** onTimer at the moment the only event, a repeated one, is due. */
  lemma FireOne<E>(s: TimerState<E>, e: E, t: int, p: int, clock: Clock)
    requires Known(s) && 0 < p && s.info == map[e := Info(t, p, true, false)]
    requires 0 < s.stamps && s.pending == [Entry(t, e, s.stamps - 1)] && s.fd == Expired && s.batch == []
    requires forall i | s.tick <= i <= s.tick + 3 :: clock(i) == t
    ensures TimerRun(s, clock)
         == TimerState([Entry(t + p, e, s.stamps)], map[e := Info(t + p, p, true, false)], Armed(t + p, t),
                       s.stamps + 1, s.tick + 4, [Task(e, t, t)], s.log)
  {
    var d := Drained(s, t);
    OneDue(s, e, t);
    var f := Refreshed(d, e, clock);
    assert f.info == map[e := Info(t + p, p, true, false)];
    FirstEntry(Entry(t + p, e, s.stamps));
    var a := Added(f, e, clock);
    assert a == TimerState([Entry(t + p, e, s.stamps)], f.info, Armed(t + p, t), s.stamps + 1, s.tick + 3, [], s.log);
    hide Added, Refreshed;
    OnlyReadded(d, e, clock);
    hide Readded;
    assert Tasks([e], s.info, t) == [Task(e, t, t)];
  }

  lemma OneDue<E>(s: TimerState<E>, e: E, t: int)
    requires Known(s) && |s.pending| == 1 && s.pending[0].key == t && s.pending[0].event == e && !s.info[e].cancelled
    ensures UpperBound(s.pending, t) == 1 && FiredAt(s, t) == [e]
  {
    assert s.pending[1..] == [];
    assert UpperBound(s.pending[1..], t) == 0;
    var p := s.pending[..1];
    assert p[..0] == [];
    assert Live(p[..0], s.info) == [];
  }

  lemma OnlyReadded<E>(s: TimerState<E>, e: E, clock: Clock)
    requires Known(s) && e in s.info && s.info[e].repeated
    ensures Readded(s, [e], clock) == Added(Refreshed(s, e, clock), e, clock)
  {
    hide Added, Refreshed;
    assert [e][1..] == [];
    assert Readded(Added(Refreshed(s, e, clock), e, clock), [], clock) == Added(Refreshed(s, e, clock), e, clock);
  }

  function LateClock(p: int, late: int): Clock {
    (i: nat) => if i < 2 then 0 else if i < 7 then p else if i < 8 then p + late else p + p
  }

  /** The bound on the distance of two runs is met: an event of any period, none added twice, whose first callback starts
      `late` after it was collected, runs again `p - late` after that; at once, if it was late by a whole period. */
  lemma LateCallback<E>(e: E, p: int, late: int) returns (steps: seq<Step<E>>, s: TimerState<E>)
    requires 0 < p && 0 <= late <= p
    ensures var clock := LateClock(p, late); Monotone(clock) && Leads(Start<E>(), steps, clock, true, s)
    ensures |s.log| == 2 && s.log[0].task.event == s.log[1].task.event == e && e in s.info && s.info[e].repeated
    ensures s.info[e].interval == p && s.log[0].time == s.log[0].task.taken + late
    ensures s.log[1].time - s.log[0].time == p - late
  {
    var clock := LateClock(p, late);
    var second, r := SecondPeriod(e, p, late);
    s := r;
    var s2, s3 := Opened(e, p), Opened(e, p).(fd := Expired, tick := 3);
    FireOne(s3, e, p, p, clock);
    assert Next(s2, Expire, clock) == s3;
    var rest := [Expire, Fire] + second;
    steps := [Create(e, p, true), Add(e)] + rest;
    hide Leads, TimerRun;
    assert rest[1..][1..] == second;
    LeadsStep(s3, rest[1..], clock, true, s);
    LeadsStep(s2, rest, clock, true, s);
    OpeningLeads(e, p, clock, true, rest, s);
  }

  /** From the first callback to the second. */
  lemma SecondPeriod<E>(e: E, p: int, late: int) returns (steps: seq<Step<E>>, s: TimerState<E>)
    requires 0 < p && 0 <= late <= p
    ensures var s4 := TimerState([Entry(p + p, e, 1)], map[e := Info(p + p, p, true, false)], Armed(p + p, p), 2, 7,
                                 [Task(e, p, p)], []);
            Leads(s4, steps, LateClock(p, late), true, s)
    ensures s.log == [Ran(Task(e, p, p), p + late), Ran(Task(e, p + p, p + p), p + p)]
    ensures e in s.info && s.info[e].repeated && s.info[e].interval == p
  {
    var clock, info := LateClock(p, late), map[e := Info(p + p, p, true, false)];
    var s4 := TimerState([Entry(p + p, e, 1)], info, Armed(p + p, p), 2, 7, [Task(e, p, p)], []);
    var s5 := s4.(batch := [], log := [Ran(Task(e, p, p), p + late)], tick := 8);
    var s6 := s5.(fd := Expired, tick := 9);
    FireOne(s6, e, p + p, p, clock);
    var s7 := TimerRun(s6, clock);
    s := TaskRun(s7, clock);
    assert Next(s4, Run, clock) == s5;
    assert Next(s5, Expire, clock) == s6;
    assert s.log == [Ran(Task(e, p, p), p + late), Ran(Task(e, p + p, p + p), p + p)];
    steps := [Run, Expire, Fire, Run];
    LeadsNowhere(s, clock, true);
    hide Leads, TimerRun;
    assert steps[1..] == [Expire, Fire, Run] && steps[1..][1..] == [Fire, Run] && steps[1..][1..][1..] == [Run];
    assert steps[1..][1..][1..][1..] == [];
    LeadsStep(s7, steps[1..][1..][1..], clock, true, s);
    LeadsStep(s6, steps[1..][1..], clock, true, s);
    LeadsStep(s5, steps[1..], clock, true, s);
    LeadsStep(s4, steps, clock, true, s);
  }

  // ---- An event added twice ----

  function TwiceClock(i: nat): int { if i < 2 then 0 else if i < 6 then 1000 else 1500 }

  /** onTimer when a repeated event is in the multimap twice, with the clock going on by 500 ms between its two refreshes: its
      first new entry keeps a key that is no longer its arrival time. */
  lemma FireTwice<E>(s: TimerState<E>, e: E)
    requires Known(s) && s.info == map[e := Info(1000, 1000, true, false)]
    requires s.pending == [Entry(1000, e, 0), Entry(1000, e, 1)] && s.fd == Expired && s.batch == [] && s.log == []
    requires s.stamps == 2 && s.tick == 3
    ensures TimerRun(s, TwiceClock)
         == TimerState([Entry(2000, e, 2), Entry(2500, e, 3)], map[e := Info(2500, 1000, true, false)], Armed(2500, 1500),
                       4, 8, [Task(e, 1000, 1000), Task(e, 1000, 1000)], [])
  {
    var d, clock := Drained(s, 1000), TwiceClock;
    TwoDue(s, e, 1000);
    FirstEntry(Entry(2000, e, 2));
    SecondEntry(Entry(2000, e, 2), Entry(2500, e, 3));
    var r1 := Refreshed(d, e, clock);
    var a1 := Added(r1, e, clock);
    assert r1.info == map[e := Info(2000, 1000, true, false)];
    assert a1 == TimerState([Entry(2000, e, 2)], r1.info, Armed(2000, 1000), 3, 6, [], []);
    var r2 := Refreshed(a1, e, clock);
    var a2 := Added(r2, e, clock);
    assert r2.info == map[e := Info(2500, 1000, true, false)];
    assert a2 == TimerState([Entry(2000, e, 2), Entry(2500, e, 3)], r2.info, Armed(2000, 1000), 4, 7, [], []);
    hide Added, Refreshed;
    OnlyReadded(a1, e, clock);
    assert [e, e][1..] == [e];
    assert Readded(d, [e, e], clock) == a2;
    hide Readded;
    assert Tasks([e, e], s.info, 1000) == [Task(e, 1000, 1000), Task(e, 1000, 1000)];
  }

  lemma TwoDue<E>(s: TimerState<E>, e: E, t: int)
    requires Known(s) && |s.pending| == 2 && forall k | 0 <= k < 2 :: s.pending[k].key == t && s.pending[k].event == e
    requires e in s.info && !s.info[e].cancelled
    ensures UpperBound(s.pending, t) == 2 && FiredAt(s, t) == [e, e]
  {
    assert s.pending[1..][1..] == [];
    assert UpperBound(s.pending[1..], t) == 1;
    var p := s.pending[..2];
    assert p[..1][..0] == [];
    assert Live(p[..1][..0], s.info) == [];
    assert Live(p[..1], s.info) == [e];
  }

  /** The deadline can be late once a repeated event has been added twice: `g`, due at 2200 and added at 1500, is in front of
      the timerfd's 2500, which is the arrival time of the event that stands before it under an older key. */
  lemma AddedTwiceArmsLate<E>(e: E, g: E, again: bool) returns (steps: seq<Step<E>>, s: TimerState<E>)
    requires e != g
    ensures Monotone(TwiceClock) && Leads(Start<E>(), steps, TwiceClock, false, s)
    ensures steps == [Create(e, 1000, true), Add(e), Add(e), Expire, Fire, Create(g, 700, again), Add(g)]
    ensures Known(s) && s.fd == Armed(2500, 1500) && g in s.info && s.info[g].arrive == 2200 && IsPending(s, g)
    ensures !InTime(s)
    ensures forall twice: set<E>, repeats: set<E> :: e in twice && e in repeats && (again <==> g in repeats) ==>
              Follows(Start<E>(), steps, TwiceClock, twice, repeats)
  {
    var last, r := ThirdEvent(e, g, again);
    s := r;
    TwiceLeads(e, last, s);
    steps := [Create(e, 1000, true), Add(e)] + ([Add(e), Expire, Fire] + last);
    hide Leads, Follows, AfterTwice;
    forall twice: set<E>, repeats: set<E> | e in twice && e in repeats && (again <==> g in repeats)
      ensures Follows(Start<E>(), steps, TwiceClock, twice, repeats)
    {
      TwiceFollows(e, last, twice, repeats);
    }
  }

  /** An event in the multimap twice, after both entries have been put back. */
  function AfterTwice<E>(e: E): (s: TimerState<E>)
    ensures Known(s)
  {
    TimerState([Entry(2000, e, 2), Entry(2500, e, 3)], map[e := Info(2500, 1000, true, false)],
               Armed(2500, 1500), 4, 8, [Task(e, 1000, 1000), Task(e, 1000, 1000)], [])
  }

  lemma TwiceLeads<E>(e: E, last: seq<Step<E>>, s: TimerState<E>)
    requires Leads(AfterTwice(e), last, TwiceClock, false, s)
    ensures Leads(Start<E>(), [Create(e, 1000, true), Add(e)] + ([Add(e), Expire, Fire] + last), TwiceClock, false, s)
  {
    var s2 := Opened(e, 1000);
    var s3 := s2.(pending := [Entry(1000, e, 0), Entry(1000, e, 1)], stamps := 2);
    var s4 := s3.(fd := Expired, tick := 3);
    TwiceSteps(s2, s3, s4, e);
    var rest := [Add(e), Expire, Fire] + last;
    hide Leads, Next, Opened, AfterTwice;
    assert rest[1..][1..][1..] == last;
    LeadsStep(s4, rest[1..][1..], TwiceClock, false, s);
    LeadsStep(s3, rest[1..], TwiceClock, false, s);
    LeadsStep(s2, rest, TwiceClock, false, s);
    OpeningLeads(e, 1000, TwiceClock, false, rest, s);
  }

  lemma TwiceFollows<E>(e: E, last: seq<Step<E>>, twice: set<E>, repeats: set<E>)
    requires e in twice && e in repeats && Follows(AfterTwice(e), last, TwiceClock, twice, repeats)
    ensures Follows(Start<E>(), [Create(e, 1000, true), Add(e)] + ([Add(e), Expire, Fire] + last), TwiceClock, twice, repeats)
  {
    var s2 := Opened(e, 1000);
    var s3 := s2.(pending := [Entry(1000, e, 0), Entry(1000, e, 1)], stamps := 2);
    var s4 := s3.(fd := Expired, tick := 3);
    TwiceSteps(s2, s3, s4, e);
    var rest := [Add(e), Expire, Fire] + last;
    hide Follows, Next, Opened, AfterTwice;
    assert rest[1..][1..][1..] == last;
    FollowsStep(s4, rest[1..][1..], TwiceClock, twice, repeats);
    FollowsStep(s3, rest[1..], TwiceClock, twice, repeats);
    FollowsStep(s2, rest, TwiceClock, twice, repeats);
    OpeningFollows(e, 1000, TwiceClock, rest, twice, repeats);
  }

  lemma TwiceSteps<E>(s2: TimerState<E>, s3: TimerState<E>, s4: TimerState<E>, e: E)
    requires s2 == Opened(e, 1000) && s3 == s2.(pending := [Entry(1000, e, 0), Entry(1000, e, 1)], stamps := 2)
    requires s4 == s3.(fd := Expired, tick := 3)
    ensures Next(s2, Add(e), TwiceClock) == s3 && IsPending(s2, e)
    ensures Next(s3, Expire, TwiceClock) == s4
    ensures Next(s4, Fire, TwiceClock) == AfterTwice(e)
  {
    SecondEntry(Entry(1000, e, 0), Entry(1000, e, 1));
    FireTwice(s4, e);
    hide TimerRun;
  }

  lemma ThirdEvent<E>(e: E, g: E, again: bool) returns (steps: seq<Step<E>>, s: TimerState<E>)
    requires e != g
    ensures steps == [Create(g, 700, again), Add(g)]
    ensures var s5 := AfterTwice(e);
            && Leads(s5, steps, TwiceClock, false, s)
            && forall twice: set<E>, repeats: set<E> :: (again <==> g in repeats) ==>
                 Follows(s5, steps, TwiceClock, twice, repeats)
    ensures Known(s) && s.fd == Armed(2500, 1500) && g in s.info && s.info[g].arrive == 2200 && IsPending(s, g)
    ensures !InTime(s)
  {
    var clock, s5 := TwiceClock, AfterTwice(e);
    var s6 := s5.(info := s5.info[g := Info(2200, 700, again, false)], tick := 9);
    MiddleEntry(Entry(2000, e, 2), Entry(2500, e, 3), Entry(2200, g, 4));
    s := s6.(pending := [Entry(2000, e, 2), Entry(2200, g, 4), Entry(2500, e, 3)], stamps := 5, tick := 10);
    assert Next(s5, Create(g, 700, again), clock) == s6;
    assert Next(s6, Add(g), clock) == s;
    assert s.pending[1].event == g;
    steps := [Create(g, 700, again), Add(g)];
    LeadsNowhere(s, clock, false);
    hide Leads, Follows;
    assert steps[1..] == [Add(g)] && steps[1..][1..] == [];
    LeadsStep(s6, steps[1..], clock, false, s);
    LeadsStep(s5, steps, clock, false, s);
    forall twice: set<E>, repeats: set<E> | again <==> g in repeats
      ensures Follows(s5, steps, clock, twice, repeats)
    {
      FollowsNowhere(s, clock, twice, repeats);
      FollowsStep(s6, steps[1..], clock, twice, repeats);
      FollowsStep(s5, steps, clock, twice, repeats);
    }
  }

  // ---- Which events may be added twice ----

  /** A run in which exactly the events in `repeats` are made repeated, and none but those in `twice` is added while it is
      pending. */
  predicate Follows<E>(s: TimerState<E>, steps: seq<Step<E>>, clock: Clock, twice: set<E>, repeats: set<E>)
    requires Known(s)
    decreases |steps|
  {
    steps == [] ||
    (&& Enabled(s, steps[0], clock) && Permitted(s, steps[0], twice, repeats)
     && Follows(Next(s, steps[0], clock), steps[1..], clock, twice, repeats))
  }

  predicate Permitted<E>(s: TimerState<E>, step: Step<E>, twice: set<E>, repeats: set<E>) {
    && (step.Create? ==> (step.repeated <==> step.e in repeats))
    && (step.Add? && IsPending(s, step.e) ==> step.e in twice)
  }

  lemma FollowsStep<E>(s: TimerState<E>, steps: seq<Step<E>>, clock: Clock, twice: set<E>, repeats: set<E>)
    requires Known(s) && steps != [] && Enabled(s, steps[0], clock) && Permitted(s, steps[0], twice, repeats)
    requires Follows(Next(s, steps[0], clock), steps[1..], clock, twice, repeats)
    ensures Follows(s, steps, clock, twice, repeats)
  {
  }

  lemma FollowsNowhere<E>(s: TimerState<E>, clock: Clock, twice: set<E>, repeats: set<E>)
    requires Known(s)
    ensures Follows(s, [], clock, twice, repeats)
  {
  }

  lemma OpeningFollows<E>(e: E, p: int, clock: Clock, rest: seq<Step<E>>, twice: set<E>, repeats: set<E>)
    requires 0 < p && clock(0) == clock(1) == 0 && e in repeats && Follows(Opened(e, p), rest, clock, twice, repeats)
    ensures Follows(Start<E>(), [Create(e, p, true), Add(e)] + rest, clock, twice, repeats)
  {
    var s1 := TimerState([], map[e := Info(p, p, true, false)], Idle, 0, 1, [], []);
    OpeningSteps(e, p, clock, s1);
    var steps := [Create(e, p, true), Add(e)] + rest;
    hide Follows, Next, Opened;
    assert steps[1..][1..] == rest;
    FollowsStep(s1, steps[1..], clock, twice, repeats);
    FollowsStep(Start<E>(), steps, clock, twice, repeats);
  }

  /** The events made are repeated as the run says. */
  predicate Made<E>(s: TimerState<E>, repeats: set<E>) {
    forall e <- s.info :: s.info[e].repeated <==> e in repeats
  }

  lemma NextMade<E>(s: TimerState<E>, step: Step<E>, clock: Clock, twice: set<E>, repeats: set<E>)
    requires Known(s) && Enabled(s, step, clock) && Permitted(s, step, twice, repeats) && Made(s, repeats)
    ensures Made(Next(s, step, clock), repeats)
  {
    hide Inserted, Readded;
    if step.Fire? {
      ReaddedMade(Drained(s, clock(s.tick)), FiredAt(s, clock(s.tick)), clock, repeats);
    }
  }

  lemma {:induction false} ReaddedMade<E>(s: TimerState<E>, es: seq<E>, clock: Clock, repeats: set<E>)
    requires Known(s) && (forall e <- es :: e in s.info) && Made(s, repeats)
    ensures Made(Readded(s, es, clock), repeats)
    decreases |es|
  {
    hide Added;
    if es != [] {
      var e := es[0];
      if s.info[e].repeated {
        ReaddedMade(Added(Refreshed(s, e, clock), e, clock), es[1..], clock, repeats);
      } else {
        ReaddedMade(s, es[1..], clock, repeats);
      }
    }
  }

  lemma {:induction false} FollowsSpares<E>(s: TimerState<E>, steps: seq<Step<E>>, clock: Clock, twice: set<E>, repeats: set<E>)
    requires Known(s) && Made(s, repeats) && Follows(s, steps, clock, twice, repeats) && twice !! repeats
    ensures AlwaysSpares(s, steps, clock)
    decreases |steps|
  {
    hide Next, Made, IsPending, Enabled;
    if steps != [] && Enabled(s, steps[0], clock) {
      NextMade(s, steps[0], clock, twice, repeats);
      assert Spares(s, steps[0]) by { MadeSpares(s, steps[0], twice, repeats); }
      FollowsSpares(Next(s, steps[0], clock), steps[1..], clock, twice, repeats);
    }
  }

  lemma MadeSpares<E>(s: TimerState<E>, step: Step<E>, twice: set<E>, repeats: set<E>)
    requires Made(s, repeats) && Permitted(s, step, twice, repeats) && twice !! repeats
    ensures Spares(s, step)
  {
  }

  lemma {:induction false} LateSomewhere<E>(s: TimerState<E>, steps: seq<Step<E>>, clock: Clock, single: bool, r: TimerState<E>)
    requires Known(s) && Leads(s, steps, clock, single, r)
    ensures Known(r) && (!InTime(r) ==> !AlwaysInTime(s, steps, clock))
    decreases |steps|
  {
    hide Next, InTime;
    if steps != [] {
      LateSomewhere(Next(s, steps[0], clock), steps[1..], clock, single, r);
    }
  }

  /** Let certain events be repeated, and let certain events be added while they are pending. The deadline is in time in every
      state of every such run, on every clock that does not go back, exactly if no event is both. */
  lemma TwiceAddedInTimeIff<E(!new)>(twice: set<E>, repeats: set<E>, a: E, b: E)
    requires a != b
    ensures (forall steps, clock :: Monotone(clock) && Follows(Start<E>(), steps, clock, twice, repeats) ==>
               AlwaysInTime(Start<E>(), steps, clock))
        <==> twice !! repeats
  {
    hide Follows, AlwaysInTime, AlwaysSpares, Leads, InTime;
    if twice !! repeats {
      forall steps, clock | Monotone(clock) && Follows(Start<E>(), steps, clock, twice, repeats)
        ensures AlwaysInTime(Start<E>(), steps, clock)
      {
        FollowsSpares(Start<E>(), steps, clock, twice, repeats);
        DeadlineInTime(steps, clock);
      }
    } else {
      var e :| e in twice && e in repeats;
      var g := if e == a then b else a;
      var steps, s := AddedTwiceArmsLate(e, g, g in repeats);
      LateSomewhere(Start<E>(), steps, TwiceClock, false, s);
      assert Follows(Start<E>(), steps, TwiceClock, twice, repeats);
    }
  }
}
