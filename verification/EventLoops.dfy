/** EventLoop: tasks posted by any thread and drained in batches by the loop thread, and the set of fds registered with
    epoll. The machine below interleaves the loop's own steps with those of everybody else. */
module EventLoops {
  /** A queued function: user code that posts more tasks when it runs, the closures by which other threads register and
      unregister an fd, or one that asks the loop to stop. */
  datatype Task = User(id: nat, posts: seq<Task>) | AddFd(fd: int) | DeleteFd(fd: int) | Stopping

  /** Where the loop thread is: before the stop flag is checked, before the swap, draining its batch, handling what
      epoll_wait returned, or out of the loop. */
  datatype Place = AtCheck | AtSwap | Draining | InWait | Exited

  datatype Control = Add | Mod | Del

  /** A call of epoll_ctl, and whether the kernel had the fd registered at that moment. */
  datatype Ctl = Ctl(op: Control, fd: int, present: bool) {
    /** ADD needs an fd that is absent, MOD and DEL one that is present. */
    predicate Succeeds() { if op.Add? then !present else present }
  }

  /** `thread` is the id of the thread that runs the loop. */
  datatype Loop = Loop(
    thread: int,
    place: Place,
    stop: bool,
    pending: seq<Task>,
    batch: seq<Task>,
    done: seq<Task>,
    posted: seq<Task>,
    listen: set<int>,
    kernel: set<int>,
    orphans: set<int>,
    ctls: seq<Ctl>)

  function Start(thread: int): Loop { Loop(thread, AtCheck, false, [], [], [], [], {}, {}, {}, []) }

  /** addTask: one critical section. */
  function Posted(s: Loop, t: Task): Loop {
    s.(pending := s.pending + [t], posted := s.posted + [t])
  }

  function PostedAll(s: Loop, ts: seq<Task>): (r: Loop)
    ensures r == s.(pending := s.pending + ts, posted := s.posted + ts)
    decreases |ts|
  {
    if ts == [] then
      assert s.pending + ts == s.pending && s.posted + ts == s.posted;
      s
    else
      assert s.pending + [ts[0]] + ts[1..] == s.pending + ts && s.posted + [ts[0]] + ts[1..] == s.posted + ts;
      PostedAll(Posted(s, ts[0]), ts[1..])
  }

  /** ADD_TO_EPOLL: the listened set decides between ADD and MOD, and gets the fd whatever epoll_ctl says. */
  function Registered(s: Loop, fd: int): Loop {
    var op := if fd in s.listen then Mod else Add;
    var ctl := Ctl(op, fd, fd in s.kernel);
    s.(listen := s.listen + {fd},
       kernel := if op.Add? && ctl.Succeeds() then s.kernel + {fd} else s.kernel,
       ctls := s.ctls + [ctl])
  }

  /** DELETE_TO_EPOLL */
  function Unregistered(s: Loop, fd: int): Loop {
    if fd !in s.listen then s
    else
      s.(listen := s.listen - {fd}, kernel := s.kernel - {fd}, orphans := s.orphans - {fd},
         ctls := s.ctls + [Ctl(Del, fd, fd in s.kernel)])
  }

  /** One task run by the loop thread. */
  function Ran(s: Loop, t: Task): Loop {
    match t
    case User(_, posts) => PostedAll(s, posts)
    case AddFd(fd) => Registered(s, fd)
    case DeleteFd(fd) => Unregistered(s, fd)
    case Stopping => s.(stop := true)
  }

  function Popped(s: Loop): Loop
    requires s.batch != []
  {
    Ran(s.(batch := s.batch[1..], done := s.done + [s.batch[0]]), s.batch[0])
  }

  lemma PoppedParts(s: Loop)
    requires s.batch != []
    ensures Popped(s).batch == s.batch[1..] && Popped(s).done == s.done + [s.batch[0]] && Popped(s).place == s.place
  {
  }

  /** The batch popped and run to its end. */
  function AllPopped(s: Loop): (r: Loop)
    ensures r.batch == [] && r.place == s.place
    decreases |s.batch|
  {
    if s.batch == [] then s
    else
      PoppedParts(s);
      AllPopped(Popped(s))
  }

  /** Steps of the loop itself, and calls made by the thread `caller`. */
  datatype Step =
    | Check                      // while (!m_stop_flag)
    | Swap                       // the queue is taken over, under the lock
    | Pop                        // the front task is popped and run
    | Wait                       // the batch is empty: epoll_wait
    | Return                     // everything epoll_wait returned has been handled
    | Post(caller: int, task: Task)  // addTask
    | Register(caller: int, fd: int)    // addEpollEvent
    | Unregister(caller: int, fd: int)  // deleteEpollEvent
    | AskStop(caller: int)           // stop
    | Close(caller: int, fd: int)    // an fd is closed, and the kernel forgets it

  /** The thread that takes a step. */
  function Taker(s: Loop, step: Step): int {
    match step
    case Post(caller, _) => caller
    case Register(caller, _) => caller
    case Unregister(caller, _) => caller
    case AskStop(caller) => caller
    case Close(caller, _) => caller
    case _ => s.thread
  }

  predicate Enabled(s: Loop, step: Step) {
    match step
    case Check => s.place.AtCheck?
    case Swap => s.place.AtSwap?
    case Pop => s.place.Draining? && s.batch != []
    case Wait => s.place.Draining? && s.batch == []
    case Return => s.place.InWait?
    case _ => true
  }

  function Next(s: Loop, step: Step): Loop
    requires Enabled(s, step)
  {
    match step
    case Check => s.(place := if s.stop then Exited else AtSwap)
    case Swap => s.(place := Draining, batch := s.pending, pending := [])
    case Pop => Popped(s)
    case Wait => s.(place := InWait)
    case Return => s.(place := AtCheck)
    case Post(_, t) => Posted(s, t)
    case Register(caller, fd) => if caller == s.thread then Registered(s, fd) else Posted(s, AddFd(fd))
    case Unregister(caller, fd) => if caller == s.thread then Unregistered(s, fd) else Posted(s, DeleteFd(fd))
    case AskStop(_) => s.(stop := true)
    case Close(_, fd) =>
      if fd in s.kernel then s.(kernel := s.kernel - {fd}, orphans := s.orphans + {fd}) else s
  }

  ghost predicate Leads(s: Loop, steps: seq<Step>, r: Loop)
    decreases |steps|
  {
    if steps == [] then r == s
    else Enabled(s, steps[0]) && Leads(Next(s, steps[0]), steps[1..], r)
  }

  // ---- The queue ----

  predicate Queued(s: Loop) {
    && s.done + s.batch + s.pending == s.posted
    && (!s.place.Draining? ==> s.batch == [])
  }

  lemma PopQueued(s: Loop)
    requires Queued(s) && s.place.Draining? && s.batch != []
    ensures Queued(Popped(s))
  {
    var t, rest := s.batch[0], s.batch[1..];
    assert s.done + s.batch == s.done + [t] + rest;
    var s1 := s.(batch := rest, done := s.done + [t]);
    assert Queued(s1);
    if t.User? {
      assert s1.done + s1.batch + (s1.pending + t.posts) == s1.done + s1.batch + s1.pending + t.posts;
    }
  }

  lemma NextQueued(s: Loop, step: Step)
    requires Queued(s) && Enabled(s, step)
    ensures Queued(Next(s, step))
  {
    match step
    case Pop => PopQueued(s);
    case Swap => assert s.done + [] + s.pending == s.done + s.pending + [];
    case Post(_, t) => assert s.done + s.batch + (s.pending + [t]) == s.done + s.batch + s.pending + [t];
    case Register(_, fd) => assert s.done + s.batch + (s.pending + [AddFd(fd)]) == s.done + s.batch + s.pending + [AddFd(fd)];
    case Unregister(_, fd) =>
      assert s.done + s.batch + (s.pending + [DeleteFd(fd)]) == s.done + s.batch + s.pending + [DeleteFd(fd)];
    case _ =>
  }

  lemma {:induction false} RunsKeepQueue(s: Loop, steps: seq<Step>, r: Loop)
    requires Queued(s) && Leads(s, steps, r)
    ensures Queued(r)
    decreases |steps|
  {
    hide Next, Queued, Enabled;
    if steps != [] {
      NextQueued(s, steps[0]);
      RunsKeepQueue(Next(s, steps[0]), steps[1..], r);
    }
  }

  /** Whatever is posted from wherever, by other threads or by the tasks themselves: tasks run in the order they were
      posted, each once, none skipped; those not run yet are the rest of the current batch and then the queue. Whenever
      the stop flag is checked, and for good once the loop has been left, the batch has been drained. */
  lemma TasksRunInPostOrder(thread: int, steps: seq<Step>, s: Loop)
    requires Leads(Start(thread), steps, s)
    ensures s.posted == s.done + s.batch + s.pending
    ensures s.place.AtCheck? || s.place.Exited? ==> s.batch == []
  {
    RunsKeepQueue(Start(thread), steps, s);
  }

  /** After the loop has been left no task runs any more. */
  lemma {:induction false} NothingRunsAfterExit(s: Loop, steps: seq<Step>, r: Loop)
    requires s.place.Exited? && Leads(s, steps, r)
    ensures r.place.Exited? && r.done == s.done
    decreases |steps|
  {
    if steps != [] {
      NothingRunsAfterExit(Next(s, steps[0]), steps[1..], r);
    }
  }

  // ---- Leaving the loop, and going on ----

  /** The loop is only left after a stop, and the stop flag is set exactly if stop was called or a task that asks for it has
      been run. */
  lemma StoppedIff(thread: int, steps: seq<Step>, s: Loop)
    requires Leads(Start(thread), steps, s)
    ensures s.place.Exited? ==> s.stop
    ensures s.stop <==> (exists i :: 0 <= i < |steps| && steps[i].AskStop?) || Stopping in s.done
  {
    StopsOnlyIf(Start(thread), steps, s);
  }

  lemma {:induction false} StopsOnlyIf(s: Loop, steps: seq<Step>, r: Loop)
    requires Leads(s, steps, r) && (s.place.Exited? ==> s.stop)
    ensures r.place.Exited? ==> r.stop
    ensures s.done <= r.done
    ensures r.stop <==> s.stop || (exists i :: 0 <= i < |steps| && steps[i].AskStop?) || Stopping in r.done[|s.done|..]
    decreases |steps|
  {
    if steps != [] {
      var n, rest := Next(s, steps[0]), steps[1..];
      StopStep(s, steps[0]);
      hide Next;
      StopsOnlyIf(n, rest, r);
      assert r.done[|s.done|..] == n.done[|s.done|..] + r.done[|n.done|..];
      assert (exists i :: 0 <= i < |steps| && steps[i].AskStop?) <==>
             steps[0].AskStop? || (exists i :: 0 <= i < |rest| && rest[i].AskStop?) by {
        assert forall i | 0 < i < |steps| :: steps[i] == rest[i - 1];
        assert forall i | 0 <= i < |rest| :: rest[i] == steps[i + 1];
      }
    }
  }

  lemma StopStep(s: Loop, step: Step)
    requires Enabled(s, step) && (s.place.Exited? ==> s.stop)
    ensures var n := Next(s, step);
            && (n.place.Exited? ==> n.stop) && s.done <= n.done
            && (n.stop <==> s.stop || step.AskStop? || Stopping in n.done[|s.done|..])
  {
    assert step.Pop? ==> (s.done + [s.batch[0]])[|s.done|..] == [s.batch[0]];
  }

  /** A step only the loop thread takes. */
  predicate Own(step: Step) { step.Check? || step.Swap? || step.Pop? || step.Wait? || step.Return? }

  ghost predicate OwnLead(s: Loop, steps: seq<Step>, r: Loop) {
    Leads(s, steps, r) && forall i | 0 <= i < |steps| :: Own(steps[i])
  }

  lemma OneMore(s: Loop, step: Step, rest: seq<Step>, r: Loop)
    requires Own(step) && Enabled(s, step) && OwnLead(Next(s, step), rest, r)
    ensures OwnLead(s, [step] + rest, r)
  {
    assert ([step] + rest)[1..] == rest;
  }

  lemma {:induction false} OwnThenOwn(s: Loop, a: seq<Step>, m: Loop, b: seq<Step>, r: Loop)
    requires OwnLead(s, a, m) && OwnLead(m, b, r)
    ensures OwnLead(s, a + b, r)
    decreases |a|
  {
    hide Next, Enabled, Own;
    if a == [] {
      assert a + b == b;
    } else {
      assert Own(a[0]) && forall i | 0 <= i < |a[1..]| :: a[1..][i] == a[i + 1];
      OwnThenOwn(Next(s, a[0]), a[1..], m, b, r);
      OneMore(s, a[0], a[1..] + b, r);
      assert [a[0]] + (a[1..] + b) == a + b;
    }
  }

  /** The batch is drained, whether or not a stop is asked for. */
  lemma {:induction false} BatchDrains(s: Loop) returns (steps: seq<Step>, r: Loop)
    requires s.place.Draining?
    ensures OwnLead(s, steps, r) && r == AllPopped(s) && r.place.Draining? && r.batch == [] && r.done == s.done + s.batch
    ensures s.pending <= r.pending && (r.stop <==> s.stop || Stopping in s.batch)
    decreases |s.batch|
  {
    if s.batch == [] {
      steps, r := [], s;
      assert s.done + [] == s.done;
    } else {
      var n := Next(s, Pop);
      PopKeeps(s);
      assert AllPopped(n) == AllPopped(s);
      hide Next, AllPopped, Leads;
      var rest, end := BatchDrains(n);
      steps, r := [Pop] + rest, end;
      OneMore(s, Pop, rest, r);
      assert s.batch == [s.batch[0]] + s.batch[1..];
      assert s.done + [s.batch[0]] + s.batch[1..] == s.done + s.batch;
    }
  }

  lemma PopKeeps(s: Loop)
    requires s.place.Draining? && s.batch != []
    ensures var n := Next(s, Pop);
            && n.place.Draining? && n.batch == s.batch[1..] && n.done == s.done + [s.batch[0]]
            && s.pending <= n.pending && (n.stop <==> s.stop || s.batch[0] == Stopping)
  {
  }

  /** From the swap on: what is queued is run. */
  lemma FromSwap(s: Loop) returns (steps: seq<Step>, r: Loop)
    requires s.place.AtSwap?
    ensures OwnLead(s, steps, r) && r.place.Draining? && r.batch == [] && r.done == s.done + s.pending
    ensures s.stop ==> r.stop
  {
    var rest;
    rest, r := BatchDrains(Next(s, Swap));
    steps := [Swap] + rest;
    OneMore(s, Swap, rest, r);
  }

  lemma FromCheck(s: Loop) returns (steps: seq<Step>, r: Loop)
    requires s.place.AtCheck? && !s.stop
    ensures OwnLead(s, steps, r) && r.done == s.done + s.pending
  {
    var rest;
    rest, r := FromSwap(Next(s, Check));
    steps := [Check] + rest;
    OneMore(s, Check, rest, r);
  }

  lemma FromWait(s: Loop) returns (steps: seq<Step>, r: Loop)
    requires s.place.InWait? && !s.stop
    ensures OwnLead(s, steps, r) && r.done == s.done + s.pending
  {
    var rest;
    rest, r := FromCheck(Next(s, Return));
    steps := [Return] + rest;
    OneMore(s, Return, rest, r);
  }

  lemma FromDraining(s: Loop) returns (steps: seq<Step>, r: Loop)
    requires s.place.Draining? && !s.stop && Stopping !in s.batch
    ensures OwnLead(s, steps, r) && s.done + s.batch + s.pending <= r.done
  {
    var drain, m := BatchDrains(s);
    var rest;
    rest, r := FromWait(Next(m, Wait));
    OneMore(m, Wait, rest, r);
    OwnThenOwn(s, drain, m, [Wait] + rest, r);
    steps := drain + ([Wait] + rest);
  }

  /** In every reachable state: if no stop has been asked for and the batch being drained asks for none, the loop's own next
      steps run every task posted so far. */
  lemma EveryTaskIsRun(thread: int, before: seq<Step>, s: Loop) returns (steps: seq<Step>, r: Loop)
    requires Leads(Start(thread), before, s) && !s.stop && Stopping !in s.batch
    ensures OwnLead(s, steps, r) && s.posted <= r.done
  {
    StoppedIff(thread, before, s);
    RunsKeepQueue(Start(thread), before, s);
    match s.place
    case AtCheck =>
      steps, r := FromCheck(s);
      assert s.done + [] + s.pending == s.done + s.pending;
    case AtSwap =>
      steps, r := FromSwap(s);
      assert s.done + [] + s.pending == s.done + s.pending;
    case Draining => steps, r := FromDraining(s);
    case InWait =>
      steps, r := FromWait(s);
      assert s.done + [] + s.pending == s.done + s.pending;
  }

  /** Once a stop has been asked for, the loop's own next steps leave it; the rest of the batch is run before that, or, if the
      flag had just been checked, what was queued, and nothing else. */
  lemma StopTakesEffect(thread: int, before: seq<Step>, s: Loop) returns (steps: seq<Step>, r: Loop)
    requires Leads(Start(thread), before, s) && s.stop
    ensures OwnLead(s, steps, r) && r.place.Exited?
    ensures r.done == s.done + if s.place.AtSwap? then s.pending else s.batch
  {
    RunsKeepQueue(Start(thread), before, s);
    var first, m := [], s;
    if s.place.AtSwap? {
      first, m := FromSwap(s);
    } else if s.place.Draining? {
      first, m := BatchDrains(s);
    }
    var last := Leave(m);
    r := m.(place := Exited);
    OwnThenOwn(s, first, m, last, r);
    steps := first + last;
  }

  lemma Leave(m: Loop) returns (last: seq<Step>)
    requires m.stop && !m.place.AtSwap? && m.batch == []
    ensures OwnLead(m, last, m.(place := Exited))
  {
    var r := m.(place := Exited);
    assert OwnLead(r, [], r);
    last := [];
    if !m.place.Exited? {
      OneMore(m.(place := AtCheck), Check, [], r);
      last := [Check] + [];
      if !m.place.AtCheck? {
        OneMore(m.(place := InWait), Return, last, r);
        last := [Return] + last;
        if m.place.Draining? {
          OneMore(m, Wait, last, r);
          last := [Wait] + last;
        }
      }
    }
  }

  // ---- The registered fds ----

  /** The listened set is what the kernel has, and the fds that were closed while registered and not deleted since. */
  predicate Tracked(s: Loop) {
    && s.listen == s.kernel + s.orphans && s.kernel !! s.orphans
  }

  lemma {:induction false} RunsKeepTrack(s: Loop, steps: seq<Step>, r: Loop)
    requires Tracked(s) && Leads(s, steps, r)
    ensures Tracked(r)
    decreases |steps|
  {
    if steps != [] {
      RunsKeepTrack(Next(s, steps[0]), steps[1..], r);
    }
  }

  /** The listened set equals the kernel's exactly as long as no fd has been left behind by being closed while it was
      registered. */
  lemma ListenedIsRegisteredIff(thread: int, steps: seq<Step>, s: Loop)
    requires Leads(Start(thread), steps, s)
    ensures s.kernel <= s.listen
    ensures s.listen == s.kernel <==> s.orphans == {}
  {
    RunsKeepTrack(Start(thread), steps, s);
  }

  /** The loop thread registers an fd: it is listened to, and the kernel has it unless it was left behind; deleting it takes it
      out of both. Every other fd stays as it is. */
  lemma OwnCallsRegister(s: Loop, fd: int)
    requires Tracked(s)
    ensures var r := Next(s, Register(s.thread, fd));
            r.listen == s.listen + {fd} && r.kernel == s.kernel + ({fd} - s.orphans) && r.orphans == s.orphans
    ensures var r := Next(s, Unregister(s.thread, fd));
            r.listen == s.listen - {fd} && r.kernel == s.kernel - {fd} && r.orphans == s.orphans - {fd}
  {
  }

  /** The tasks other threads post for that do the same when the loop runs them. User tasks, and one that asks for a stop,
      leave the sets as they are, and so does any task all other fds. */
  lemma TasksRegister(s: Loop)
    requires Tracked(s) && s.place.Draining? && s.batch != []
    ensures var r := Next(s, Pop);
            && (s.batch[0].AddFd? ==>
                  var fd := s.batch[0].fd;
                  r.listen == s.listen + {fd} && r.kernel == s.kernel + ({fd} - s.orphans) && r.orphans == s.orphans)
            && (s.batch[0].DeleteFd? ==>
                  var fd := s.batch[0].fd;
                  r.listen == s.listen - {fd} && r.kernel == s.kernel - {fd} && r.orphans == s.orphans - {fd})
            && (s.batch[0].User? ==>
                  && r.listen == s.listen && r.kernel == s.kernel && r.orphans == s.orphans
                  && r.pending == s.pending + s.batch[0].posts && r.stop == s.stop)
            && (s.batch[0].Stopping? ==>
                  r.listen == s.listen && r.kernel == s.kernel && r.orphans == s.orphans && r.stop)
  {
  }

  /** No other step changes the listened set; only the close of a registered fd changes the kernel's. */
  lemma OtherStepsLeaveSets(s: Loop, step: Step)
    requires Enabled(s, step) && !step.Pop?
    requires step.Register? ==> step.caller != s.thread
    requires step.Unregister? ==> step.caller != s.thread
    ensures var r := Next(s, step);
            && r.listen == s.listen
            && (!step.Close? ==> r.kernel == s.kernel && r.orphans == s.orphans)
            && (step.Close? ==> r.kernel == s.kernel - {step.fd} && r.orphans == s.orphans + ({step.fd} * s.kernel))
  {
  }

  datatype Registration = Adds(fd: int) | Deletes(fd: int)

  /** The registration a step carries out, directly or by running a task. */
  function CarriedOut(s: Loop, step: Step): seq<Registration>
    requires Enabled(s, step)
  {
    match step
    case Register(caller, fd) => if caller == s.thread then [Adds(fd)] else []
    case Unregister(caller, fd) => if caller == s.thread then [Deletes(fd)] else []
    case Pop =>
      (match s.batch[0]
       case AddFd(fd) => [Adds(fd)]
       case DeleteFd(fd) => [Deletes(fd)]
       case _ => [])
    case _ => []
  }

  ghost function AllCarriedOut(s: Loop, steps: seq<Step>): seq<Registration>
    decreases |steps|
  {
    if steps == [] || !Enabled(s, steps[0]) then []
    else CarriedOut(s, steps[0]) + AllCarriedOut(Next(s, steps[0]), steps[1..])
  }

  /** Over every run: an fd is listened to exactly if it has been registered and the last registration of it that was carried
      out, directly on the loop thread or from the queue, is an addition. */
  lemma ListenedIffLastAdded(thread: int, steps: seq<Step>, s: Loop, fd: int)
    requires Leads(Start(thread), steps, s)
    ensures var rs := AllCarriedOut(Start(thread), steps);
            fd in s.listen <==>
              exists i :: 0 <= i < |rs| && rs[i] == Adds(fd) && forall j | i < j < |rs| :: rs[j].fd != fd
  {
    ListenedFollows(Start(thread), steps, s, fd);
  }

  lemma {:induction false} ListenedFollows(s: Loop, steps: seq<Step>, r: Loop, fd: int)
    requires Leads(s, steps, r)
    ensures var rs := AllCarriedOut(s, steps);
            fd in r.listen <==> LastAdds(rs, fd) || (fd in s.listen && Never(rs, fd))
    decreases |steps|
  {
    if steps != [] {
      var n, one := Next(s, steps[0]), CarriedOut(s, steps[0]);
      ListenedStep(s, steps[0], fd);
      hide Next, CarriedOut;
      ListenedFollows(n, steps[1..], r, fd);
      LastOfMore(one, AllCarriedOut(n, steps[1..]), fd);
    }
  }

  predicate LastAdds(rs: seq<Registration>, fd: int) {
    exists i :: 0 <= i < |rs| && rs[i] == Adds(fd) && forall j | i < j < |rs| :: rs[j].fd != fd
  }

  lemma ListenedStep(s: Loop, step: Step, fd: int)
    requires Enabled(s, step)
    ensures var one := CarriedOut(s, step);
            && |one| <= 1
            && (fd in Next(s, step).listen <==> if one != [] && one[0].fd == fd then one[0].Adds? else fd in s.listen)
  {
  }

  predicate Never(rs: seq<Registration>, fd: int) { forall j | 0 <= j < |rs| :: rs[j].fd != fd }

  lemma LastOfMore(one: seq<Registration>, rest: seq<Registration>, fd: int)
    requires |one| <= 1
    ensures LastAdds(one + rest, fd) <==> LastAdds(rest, fd) || (one == [Adds(fd)] && Never(rest, fd))
    ensures Never(one + rest, fd) <==> (one == [] || one[0].fd != fd) && Never(rest, fd)
  {
    if one == [] {
      assert one + rest == rest;
    } else {
      var all := one + rest;
      assert one == [all[0]];
      assert forall j | 0 <= j < |rest| :: rest[j] == all[j + 1];
      assert forall j | 0 < j < |all| :: all[j] == rest[j - 1];
      if LastAdds(rest, fd) {
        var i :| 0 <= i < |rest| && rest[i] == Adds(fd) && forall j | i < j < |rest| :: rest[j].fd != fd;
        assert all[i + 1] == Adds(fd);
      }
    }
  }

  /** What a step of another thread puts into the queue. */
  function Request(step: Step): seq<Task> {
    match step
    case Post(_, t) => [t]
    case Register(_, fd) => [AddFd(fd)]
    case Unregister(_, fd) => [DeleteFd(fd)]
    case _ => []
  }

  function Requests(steps: seq<Step>): seq<Task> {
    if steps == [] then [] else Request(steps[0]) + Requests(steps[1..])
  }

  /** From `s` to `r` nothing has happened but that the tasks `q` were posted, fds closed, or a stop asked for. */
  predicate OnlyPosted(s: Loop, q: seq<Task>, r: Loop) {
    && r.listen == s.listen && r.ctls == s.ctls && r.done == s.done && r.batch == s.batch && r.place == s.place
    && r.thread == s.thread && r.kernel <= s.kernel
    && r.pending == s.pending + q && r.posted == s.posted + q
  }

  lemma PostedInTurn(s: Loop, q: seq<Task>, n: Loop, more: seq<Task>, r: Loop)
    requires OnlyPosted(s, q, n) && OnlyPosted(n, more, r)
    ensures OnlyPosted(s, q + more, r)
  {
    assert s.pending + q + more == s.pending + (q + more);
    assert s.posted + q + more == s.posted + (q + more);
  }

  lemma OtherThreadPosts(s: Loop, step: Step)
    requires Enabled(s, step) && Taker(s, step) != s.thread
    ensures OnlyPosted(s, Request(step), Next(s, step))
  {
    assert s.pending + [] == s.pending && s.posted + [] == s.posted;
  }

  /** However many steps other threads take while the loop thread takes none, and whatever they call: the listened set, the
      epoll_ctl calls, the tasks run and the batch stay as they are, and the queue gains exactly their tasks and their
      registrations, in order. */
  lemma {:induction false} OtherThreadsOnlyPost(s: Loop, steps: seq<Step>, r: Loop)
    requires Leads(s, steps, r) && forall i | 0 <= i < |steps| :: Taker(s, steps[i]) != s.thread
    ensures OnlyPosted(s, Requests(steps), r)
    decreases |steps|
  {
    if steps == [] {
      assert s.pending + [] == s.pending && s.posted + [] == s.posted;
    } else {
      var n := Next(s, steps[0]);
      OtherThreadPosts(s, steps[0]);
      SameTakers(s, n, steps);
      hide OnlyPosted, Next, Taker;
      OtherThreadsOnlyPost(n, steps[1..], r);
      PostedInTurn(s, Request(steps[0]), n, Requests(steps[1..]), r);
    }
  }

  lemma SameTakers(s: Loop, n: Loop, steps: seq<Step>)
    requires n.thread == s.thread && steps != [] && forall i | 0 <= i < |steps| :: Taker(s, steps[i]) != s.thread
    ensures forall i | 0 <= i < |steps[1..]| :: Taker(n, steps[1..][i]) != n.thread
  {
    forall i | 0 <= i < |steps[1..]|
      ensures Taker(n, steps[1..][i]) != n.thread
    {
      assert Taker(s, steps[i + 1]) != s.thread;
    }
  }

  /** In every reachable state, the epoll_ctl a registration issues succeeds exactly when its fd was not left behind:
      ADD then finds the fd absent, MOD and DEL find it present. */
  lemma ControlsSucceedIff(thread: int, steps: seq<Step>, s: Loop, fd: int)
    requires Leads(Start(thread), steps, s)
    ensures var r := Registered(s, fd);
            |r.ctls| == |s.ctls| + 1 && (r.ctls[|s.ctls|].Succeeds() <==> fd !in s.orphans)
    ensures fd in s.listen ==>
              var r := Unregistered(s, fd);
              |r.ctls| == |s.ctls| + 1 && (r.ctls[|s.ctls|].Succeeds() <==> fd !in s.orphans)
    ensures fd !in s.listen ==> Unregistered(s, fd) == s
  {
    RunsKeepTrack(Start(thread), steps, s);
  }

  /** The failing state is two steps away: an fd registered on the loop thread and closed before it is deleted. Deleting it
      then fails, and so does registering another connection that gets the same number. */
  lemma ClosedFdIsLeftBehind(thread: int, caller: int, fd: int) returns (s: Loop)
    ensures Leads(Start(thread), [Register(thread, fd), Close(caller, fd)], s) && s.orphans == {fd}
    ensures var r := Unregistered(s, fd); |r.ctls| == 2 && !r.ctls[1].Succeeds()
    ensures var r := Registered(s, fd); |r.ctls| == 2 && !r.ctls[1].Succeeds()
  {
    var s1 := Next(Start(thread), Register(thread, fd));
    s := Next(s1, Close(caller, fd));
    assert [Register(thread, fd), Close(caller, fd)][1..] == [Close(caller, fd)];
    assert [Close(caller, fd)][1..] == [];
    assert Leads(s, [], s);
    assert Leads(s1, [Close(caller, fd)], s);
  }

  /** No registered fd is closed during the steps. */
  ghost predicate NoneLost(s: Loop, steps: seq<Step>)
    decreases |steps|
  {
    steps == [] ||
    (Enabled(s, steps[0]) && (steps[0].Close? ==> steps[0].fd !in s.kernel) && NoneLost(Next(s, steps[0]), steps[1..]))
  }

  lemma {:induction false} NoFailures(s: Loop, steps: seq<Step>, r: Loop)
    requires Tracked(s) && s.orphans == {} && (forall c <- s.ctls :: c.Succeeds())
    requires NoneLost(s, steps) && Leads(s, steps, r)
    ensures r.orphans == {} && r.listen == r.kernel && forall c <- r.ctls :: c.Succeeds()
    decreases |steps|
  {
    if steps != [] {
      NoFailures(Next(s, steps[0]), steps[1..], r);
    }
  }

  /** As long as no registered fd is closed, every epoll_ctl of the run succeeds and the two sets are equal. */
  lemma RegistrationIsExact(thread: int, steps: seq<Step>, s: Loop)
    requires NoneLost(Start(thread), steps) && Leads(Start(thread), steps, s)
    ensures s.listen == s.kernel && forall c <- s.ctls :: c.Succeeds()
  {
    NoFailures(Start(thread), steps, s);
  }

  // ---- The loop as an object ----

  class EventLoop {
    const threadId: int
    var stopFlag: bool
    var listenFds: set<int>
    var pendingTasks: seq<Task>
    var wakeups: nat
    /** The batch, what has run and been posted, and epoll's side. */
    var batch: seq<Task>
    ghost var done: seq<Task>
    ghost var posted: seq<Task>
    ghost var kernel: set<int>
    ghost var orphans: set<int>
    ghost var ctls: seq<Ctl>

    ghost function State(place: Place): Loop
      reads this
    {
      Loop(threadId, place, stopFlag, pendingTasks, batch, done, posted, listenFds, kernel, orphans, ctls)
    }

    constructor (threadId: int)
      ensures State(AtCheck) == Start(threadId) && this.threadId == threadId
    {
      this.threadId := threadId;
      stopFlag, listenFds, pendingTasks, batch, wakeups := false, {}, [], [], 0;
      done, posted, kernel, orphans, ctls := [], [], {}, {}, [];
    }

    method AddTask(task: Task, isWakeUp: bool)
      modifies this`pendingTasks, this`posted, this`wakeups
      ensures forall p :: State(p) == Posted(old(State(p)), task)
      ensures wakeups == old(wakeups) + if isWakeUp then 1 else 0
    {
      pendingTasks := pendingTasks + [task];
      posted := posted + [task];
      if isWakeUp {
        wakeups := wakeups + 1;
      }
    }

    method AddToEpoll(fd: int)
      modifies this`listenFds, this`kernel, this`ctls
      ensures forall p :: State(p) == Registered(old(State(p)), fd)
    {
      ghost var op := if fd in listenFds then Mod else Add;
      ctls := ctls + [Ctl(op, fd, fd in kernel)];
      if fd !in listenFds && fd !in kernel {
        kernel := kernel + {fd};
      }
      listenFds := listenFds + {fd};
    }

    method DeleteFromEpoll(fd: int)
      modifies this`listenFds, this`kernel, this`orphans, this`ctls
      ensures forall p :: State(p) == Unregistered(old(State(p)), fd)
    {
      if fd !in listenFds {
        return;
      }
      ctls := ctls + [Ctl(Del, fd, fd in kernel)];
      kernel, orphans := kernel - {fd}, orphans - {fd};
      listenFds := listenFds - {fd};
    }

    /** On another thread the registration is posted, and the loop woken up. */
    method AddEpollEvent(fd: int, caller: int)
      modifies this`listenFds, this`kernel, this`ctls, this`pendingTasks, this`posted, this`wakeups
      ensures forall p :: State(p) == Next(old(State(p)), Register(caller, fd))
    {
      if caller == threadId {
        AddToEpoll(fd);
      } else {
        AddTask(AddFd(fd), true);
      }
    }

    method DeleteEpollEvent(fd: int, caller: int)
      modifies this`listenFds, this`kernel, this`orphans, this`ctls, this`pendingTasks, this`posted, this`wakeups
      ensures forall p :: State(p) == Next(old(State(p)), Unregister(caller, fd))
    {
      if caller == threadId {
        DeleteFromEpoll(fd);
      } else {
        AddTask(DeleteFd(fd), true);
      }
    }

    method RunTask(task: Task)
      modifies this
      ensures forall p :: State(p) == Ran(old(State(p)), task)
    {
      match task {
        case User(_, posts) =>
          for i := 0 to |posts|
            invariant forall p :: PostedAll(State(p), posts[i..]) == PostedAll(old(State(p)), posts)
          {
            assert posts[i..][0] == posts[i] && posts[i..][1..] == posts[i + 1..];
            AddTask(posts[i], false);
          }
          assert posts[|posts|..] == [];
        case AddFd(fd) => AddToEpoll(fd);
        case DeleteFd(fd) => DeleteFromEpoll(fd);
        case Stopping => stopFlag := true;
      }
    }

    method SwapTasks()
      modifies this`pendingTasks, this`batch
      ensures State(Draining) == Next(old(State(AtSwap)), Swap)
    {
      batch := pendingTasks;
      pendingTasks := [];
    }

    method PopTask()
      requires batch != []
      modifies this
      ensures forall p :: State(p) == Popped(old(State(p)))
    {
      var cb := batch[0];
      batch := batch[1..];
      done := done + [cb];
      RunTask(cb);
    }

    /** One turn of the loop up to epoll_wait, nobody else interfering: exactly the tasks queued at the swap are run. */
    method RunBatch()
      requires Queued(State(AtSwap))
      modifies this
      ensures done == old(done) + old(pendingTasks) && batch == []
      ensures posted == done + pendingTasks && Queued(State(InWait))
      ensures State(Draining) == AllPopped(Next(old(State(AtSwap)), Swap))
    {
      hide Ran;
      ghost var all := pendingTasks;
      ghost var swapped := Next(State(AtSwap), Swap);
      NextQueued(State(AtSwap), Swap);
      SwapTasks();
      while batch != []
        invariant Queued(State(Draining))
        invariant done + batch == old(done) + all && AllPopped(State(Draining)) == AllPopped(swapped)
        decreases |batch|
      {
        ghost var before := batch;
        PopQueued(State(Draining));
        PoppedParts(State(Draining));
        PopTask();
        assert before == [before[0]] + batch;
      }
      assert done + [] + pendingTasks == done + pendingTasks;
    }
  }
}
