/** The asynchronous log: producers push into a front buffer, syncLoop hands it over as one batch, and a writer thread
    takes batches and writes them. Any number of syncLoop calls may be under way; each step is one critical section. */
module LogPipelines {
  type Line = seq<char>

  datatype Pipeline = Pipeline(
    /** Logger::m_buffer */
    buffer: seq<Line>,
    /** The vectors that syncLoop calls have swapped out and not yet handed over, in the order of the swaps. */
    swapped: seq<seq<Line>>,
    /** AsyncLogger::m_buffer */
    queue: seq<seq<Line>>,
    /** What the writer has taken and not yet written. */
    batch: seq<Line>,
    /** The writer is between taking a batch and having written it. */
    writing: bool,
    stop: bool,
    exited: bool,
    written: seq<Line>,
    pushed: seq<Line>)

  const START: Pipeline := Pipeline([], [], [], [], false, false, false, [], [])

  datatype Step =
    | Push(line: Line)    // pushLog
    | Swap                // the first critical section of syncLoop
    | HandOver(i: nat)    // pushLogBuffer by one of the calls under way, unless it has nothing to hand over
    | Take                // the writer wakes up and takes the front batch
    | Write               // the writer writes the next line of its batch, unless it is empty
    | Finish              // the batch is written; the stop flag is looked at
    | AskStop

  predicate Enabled(s: Pipeline, step: Step) {
    match step
    case HandOver(i) => i < |s.swapped|
    case Take => !s.exited && !s.writing && s.queue != []
    case Write => s.writing && s.batch != []
    case Finish => s.writing && s.batch == []
    case _ => true
  }

  function Next(s: Pipeline, step: Step): Pipeline
    requires Enabled(s, step)
  {
    match step
    case Push(line) => s.(buffer := s.buffer + [line], pushed := s.pushed + [line])
    case Swap => s.(swapped := s.swapped + [s.buffer], buffer := [])
    case HandOver(i) =>
      s.(queue := if s.swapped[i] != [] then s.queue + [s.swapped[i]] else s.queue,
         swapped := s.swapped[..i] + s.swapped[i + 1..])
    case Take => s.(batch := s.queue[0], queue := s.queue[1..], writing := true)
    case Write =>
      s.(written := if s.batch[0] != [] then s.written + [s.batch[0]] else s.written, batch := s.batch[1..])
    case Finish => s.(writing := false, exited := s.stop)
    case AskStop => s.(stop := true)
  }

  // ---- The lines on their way ----

  /** Empty lines are never written. */
  function NonEmpty(lines: seq<Line>): seq<Line> {
    if lines == [] then [] else (if lines[0] != [] then [lines[0]] else []) + NonEmpty(lines[1..])
  }

  function Flat(queue: seq<seq<Line>>): seq<Line> {
    if queue == [] then [] else queue[0] + Flat(queue[1..])
  }

  /** The lines of a list of vectors that will be written. */
  function Lines(vectors: seq<seq<Line>>): seq<Line> { NonEmpty(Flat(vectors)) }

  /** Lines written, or handed over and sure to be written in this order unless the writer leaves. */
  function Ahead(s: Pipeline): seq<Line> { s.written + NonEmpty(s.batch) + Lines(s.queue) }

  /** Lines not handed over, in the order pushed if the vectors are handed over as they were swapped out. */
  function Behind(s: Pipeline): seq<Line> { Lines(s.swapped) + NonEmpty(s.buffer) }

  /** A line of this vector overtakes a line of one swapped out earlier. */
  predicate Overtakes(s: Pipeline, step: Step)
    requires Enabled(s, step)
  {
    step.HandOver? && NonEmpty(s.swapped[step.i]) != [] && Lines(s.swapped[..step.i]) != []
  }

  /** The steps lead from `s` to `r`; with `orderly`, no vector overtakes another. */
  ghost predicate Leads(s: Pipeline, steps: seq<Step>, orderly: bool, r: Pipeline)
    decreases |steps|
  {
    if steps == [] then r == s
    else
      && Enabled(s, steps[0]) && (orderly ==> !Overtakes(s, steps[0]))
      && Leads(Next(s, steps[0]), steps[1..], orderly, r)
  }

  lemma {:induction false} NonEmptyConcat(a: seq<Line>, b: seq<Line>)
    ensures NonEmpty(a + b) == NonEmpty(a) + NonEmpty(b)
  {
    if a == [] {
      assert a + b == b;
    } else {
      NonEmptyConcat(a[1..], b);
      assert (a + b)[1..] == a[1..] + b;
      var first := if a[0] != [] then [a[0]] else [];
      assert first + (NonEmpty(a[1..]) + NonEmpty(b)) == first + NonEmpty(a[1..]) + NonEmpty(b);
    }
  }

  lemma {:induction false} FlatConcat(a: seq<seq<Line>>, b: seq<seq<Line>>)
    ensures Flat(a + b) == Flat(a) + Flat(b)
  {
    if a == [] {
      assert a + b == b;
    } else {
      FlatConcat(a[1..], b);
      assert (a + b)[1..] == a[1..] + b;
      assert a[0] + (Flat(a[1..]) + Flat(b)) == a[0] + Flat(a[1..]) + Flat(b);
    }
  }

  lemma LinesConcat(a: seq<seq<Line>>, b: seq<seq<Line>>)
    ensures Lines(a + b) == Lines(a) + Lines(b)
  {
    FlatConcat(a, b);
    NonEmptyConcat(Flat(a), Flat(b));
  }

  lemma LinesOf(v: seq<Line>)
    ensures Lines([v]) == NonEmpty(v) && Lines([]) == [] && NonEmpty([]) == []
  {
    assert [v][1..] == [];
    assert v + [] == v;
  }

  lemma LinesOut(vectors: seq<seq<Line>>, i: nat)
    requires i < |vectors|
    ensures Lines(vectors) == Lines(vectors[..i]) + NonEmpty(vectors[i]) + Lines(vectors[i + 1..])
    ensures Lines(vectors[..i] + vectors[i + 1..]) == Lines(vectors[..i]) + Lines(vectors[i + 1..])
  {
    hide Lines;
    var a, v, c := vectors[..i], vectors[i], vectors[i + 1..];
    assert vectors == (a + [v]) + c;
    LinesConcat(a + [v], c);
    LinesConcat(a, [v]);
    LinesConcat(a, c);
    LinesOf(v);
  }

  // ---- One step ----

  /** The lines a step adds to what is ahead. */
  function HandedOver(s: Pipeline, step: Step): seq<Line>
    requires Enabled(s, step)
  {
    if step.HandOver? then NonEmpty(s.swapped[step.i]) else []
  }

  lemma Three(a: seq<Line>, b: seq<Line>, c: seq<Line>)
    ensures a + b + c == a + (b + c) && a + [] + (b + c) == a + b + c && a + b + [] == a + b && a + [] == a
  {
  }

  /** Nothing that is ahead is reordered or lost, whatever the step. */
  lemma NextAhead(s: Pipeline, step: Step)
    requires Enabled(s, step) && (!s.writing ==> s.batch == [])
    ensures Ahead(Next(s, step)) == Ahead(s) + HandedOver(s, step)
    ensures !Next(s, step).writing ==> Next(s, step).batch == []
  {
    hide NonEmpty, Lines;
    var w, b, q := s.written, NonEmpty(s.batch), Lines(s.queue);
    match step
    case HandOver(i) =>
      LinesConcat(s.queue, [s.swapped[i]]);
      LinesOf(s.swapped[i]);
      Three(w + b, q, NonEmpty(s.swapped[i]));
    case Take =>
      LinesOf([]);
      assert s.queue == [s.queue[0]] + s.queue[1..];
      LinesConcat([s.queue[0]], s.queue[1..]);
      LinesOf(s.queue[0]);
      Three(w, NonEmpty(s.queue[0]), Lines(s.queue[1..]));
      Three(Ahead(s), [], []);
    case Write =>
      assert s.batch == [s.batch[0]] + s.batch[1..];
      NonEmptyConcat([s.batch[0]], s.batch[1..]);
      OneLine(s.batch[0]);
      Three(w, NonEmpty([s.batch[0]]), NonEmpty(s.batch[1..]));
      Three(Ahead(s), [], []);
    case _ =>
      Three(Ahead(s), [], []);
  }

  lemma OneLine(line: Line)
    ensures NonEmpty([line]) == if line != [] then [line] else []
  {
    assert [line][1..] == [];
  }

  /** The line a step adds to what has been pushed. */
  function NewLine(step: Step): seq<Line> { if step.Push? then NonEmpty([step.line]) else [] }

  lemma NextPushed(s: Pipeline, step: Step)
    requires Enabled(s, step)
    ensures NonEmpty(Next(s, step).pushed) == NonEmpty(s.pushed) + NewLine(step)
  {
    if step.Push? {
      NonEmptyConcat(s.pushed, [step.line]);
    }
  }

  lemma NextBehind(s: Pipeline, step: Step)
    requires Enabled(s, step)
    ensures !step.HandOver? ==> Behind(Next(s, step)) == Behind(s) + NewLine(step)
    ensures step.HandOver? ==>
              var front, back := Lines(s.swapped[..step.i]), Lines(s.swapped[step.i + 1..]) + NonEmpty(s.buffer);
              Behind(s) == front + NonEmpty(s.swapped[step.i]) + back && Behind(Next(s, step)) == front + back
  {
    hide NonEmpty, Lines;
    match step
    case Push(line) =>
      NonEmptyConcat(s.buffer, [line]);
      Three(Lines(s.swapped), NonEmpty(s.buffer), NonEmpty([line]));
    case Swap =>
      LinesConcat(s.swapped, [s.buffer]);
      LinesOf(s.buffer);
      Three(Behind(s), [], []);
    case HandOver(i) =>
      LinesOut(s.swapped, i);
      var a, v, c, f := Lines(s.swapped[..i]), NonEmpty(s.swapped[i]), Lines(s.swapped[i + 1..]), NonEmpty(s.buffer);
      Three(a + v, c, f);
      Three(a, c, f);
    case _ =>
      Three(Behind(s), [], []);
  }

  // ---- No line lost or written twice, whatever overlaps ----

  ghost predicate Conserved(s: Pipeline) {
    && (!s.writing ==> s.batch == [])
    && multiset(Ahead(s) + Behind(s)) == multiset(NonEmpty(s.pushed))
  }

  lemma NextConserved(s: Pipeline, step: Step)
    requires Conserved(s) && Enabled(s, step)
    ensures Conserved(Next(s, step))
  {
    NextAhead(s, step);
    NextBehind(s, step);
    NextPushed(s, step);
    hide Next, Ahead, Behind, NonEmpty, Lines, NewLine;
    if step.HandOver? {
      var front, back := Lines(s.swapped[..step.i]), Lines(s.swapped[step.i + 1..]) + NonEmpty(s.buffer);
      SameLines(Ahead(s), front, NonEmpty(s.swapped[step.i]), back);
      assert NonEmpty(s.pushed) + [] == NonEmpty(s.pushed);
    } else {
      MoreLines(Ahead(s), Behind(s), NonEmpty(s.pushed), NewLine(step));
      assert Ahead(s) + [] == Ahead(s);
    }
  }

  lemma SameLines(a: seq<Line>, front: seq<Line>, v: seq<Line>, back: seq<Line>)
    ensures multiset((a + v) + (front + back)) == multiset(a + (front + v + back))
  {
  }

  lemma MoreLines(a: seq<Line>, b: seq<Line>, p: seq<Line>, more: seq<Line>)
    requires multiset(a + b) == multiset(p)
    ensures multiset(a + (b + more)) == multiset(p + more)
  {
    Three(a, b, more);
  }

  lemma SameSize(a: seq<Line>, b: seq<Line>)
    requires multiset(a) == multiset(b)
    ensures |a| == |b|
  {
    assert |multiset(a)| == |a| && |multiset(b)| == |b|;
  }

  lemma {:induction false} RunsConserve(s: Pipeline, steps: seq<Step>, r: Pipeline)
    requires Conserved(s) && Leads(s, steps, false, r)
    ensures Conserved(r)
    decreases |steps|
  {
    hide Next, Conserved;
    if steps != [] {
      NextConserved(s, steps[0]);
      RunsConserve(Next(s, steps[0]), steps[1..], r);
    }
  }

  /** However pushes, any number of overlapping syncLoop calls, and the writer interleave: the lines written and those
      still under way are together exactly the non-empty lines pushed, each as often as it was pushed. */
  lemma NothingLostOrDuplicated(steps: seq<Step>, s: Pipeline)
    requires Leads(START, steps, false, s)
    ensures multiset(s.written) + multiset(NonEmpty(s.batch)) + multiset(Lines(s.queue)) + multiset(Lines(s.swapped))
            + multiset(NonEmpty(s.buffer)) == multiset(NonEmpty(s.pushed))
  {
    LinesOf([]);
    RunsConserve(START, steps, s);
    hide NonEmpty, Lines;
  }

  // ---- The order of the file ----

  ghost predicate InOrder(s: Pipeline) {
    (!s.writing ==> s.batch == []) && Ahead(s) + Behind(s) == NonEmpty(s.pushed)
  }

  lemma NextInOrder(s: Pipeline, step: Step)
    requires InOrder(s) && Enabled(s, step) && !Overtakes(s, step)
    ensures InOrder(Next(s, step))
  {
    NextAhead(s, step);
    NextBehind(s, step);
    NextPushed(s, step);
    hide Next, Ahead, Behind, NonEmpty, Lines;
    if step.HandOver? {
      var front, back := Lines(s.swapped[..step.i]), Lines(s.swapped[step.i + 1..]) + NonEmpty(s.buffer);
      Four(Ahead(s), front, NonEmpty(s.swapped[step.i]), back);
    } else {
      Three(Ahead(s), Behind(s), NewLine(step));
      Three(Ahead(s), [], []);
    }
  }

  lemma Four(a: seq<Line>, front: seq<Line>, v: seq<Line>, back: seq<Line>)
    requires v == [] || front == []
    ensures (a + v) + (front + back) == a + (front + v + back)
  {
  }

  lemma {:induction false} RunsStayInOrder(s: Pipeline, steps: seq<Step>, r: Pipeline)
    requires InOrder(s) && Leads(s, steps, true, r)
    ensures InOrder(r)
    decreases |steps|
  {
    hide Next, InOrder, Overtakes;
    if steps != [] {
      NextInOrder(s, steps[0]);
      RunsStayInOrder(Next(s, steps[0]), steps[1..], r);
    }
  }

  /** As long as no vector overtakes another, however syncLoop calls overlap, the file is a prefix of the non-empty lines in
      the order they were pushed; the rest follows stage by stage. */
  lemma FileIsPrefixOfPushes(steps: seq<Step>, s: Pipeline)
    requires Leads(START, steps, true, s)
    ensures s.written <= NonEmpty(s.pushed)
    ensures s.written + NonEmpty(s.batch) + Lines(s.queue) + (Lines(s.swapped) + NonEmpty(s.buffer)) == NonEmpty(s.pushed)
  {
    LinesOf([]);
    RunsStayInOrder(START, steps, s);
    hide NonEmpty, Lines;
    Three(s.written, NonEmpty(s.batch), Lines(s.queue));
    Three(s.written, NonEmpty(s.batch) + Lines(s.queue), Behind(s));
  }

  /** How many lines reach the file in the order pushed: those ahead of the first vector that overtakes, all if none does. */
  ghost function OrderedLines(s: Pipeline, steps: seq<Step>): nat
    decreases |steps|
  {
    if steps == [] || !Enabled(s, steps[0]) then |Ahead(s)|
    else if Overtakes(s, steps[0]) then |Ahead(s)|
    else OrderedLines(Next(s, steps[0]), steps[1..])
  }

  predicate Distinct(lines: seq<Line>) { forall i, j | 0 <= i < j < |lines| :: lines[i] != lines[j] }

  lemma {:induction false} AppendOnly(s: Pipeline, steps: seq<Step>, orderly: bool, r: Pipeline)
    requires (!s.writing ==> s.batch == []) && Leads(s, steps, orderly, r)
    ensures Ahead(s) <= Ahead(r) && NonEmpty(s.pushed) <= NonEmpty(r.pushed)
    decreases |steps|
  {
    hide Next, Ahead, NonEmpty, Overtakes, HandedOver, NewLine;
    if steps != [] {
      NextAhead(s, steps[0]);
      NextPushed(s, steps[0]);
      AppendOnly(Next(s, steps[0]), steps[1..], orderly, r);
    }
  }

  /** An overtaking line ends up in the place of the line it overtakes. */
  lemma Overtaken(s: Pipeline, step: Step)
    requires InOrder(s) && Enabled(s, step) && Overtakes(s, step)
    ensures var n, r := |Ahead(s)|, Next(s, step);
            && Ahead(s) < Ahead(r) && n < |NonEmpty(s.pushed)| && Ahead(s) == NonEmpty(s.pushed)[..n]
            && exists k :: n < k < |NonEmpty(s.pushed)| && Ahead(r)[n] == NonEmpty(s.pushed)[k]
  {
    NextAhead(s, step);
    NextBehind(s, step);
    hide Next, Ahead, Behind, NonEmpty, Lines;
    var a, front, v := Ahead(s), Lines(s.swapped[..step.i]), NonEmpty(s.swapped[step.i]);
    var back := Lines(s.swapped[step.i + 1..]) + NonEmpty(s.buffer);
    var all := a + (front + v + back);
    assert all == NonEmpty(s.pushed);
    assert all[|a| + |front|] == v[0];
  }

  lemma {:induction false} OrderedLinesDecide(s: Pipeline, steps: seq<Step>, r: Pipeline)
    requires InOrder(s) && Leads(s, steps, false, r) && Distinct(NonEmpty(r.pushed))
    ensures var n := OrderedLines(s, steps);
            && n <= |Ahead(r)| && n <= |NonEmpty(r.pushed)| && Ahead(r)[..n] == NonEmpty(r.pushed)[..n]
            && (n < |Ahead(r)| ==> n < |NonEmpty(r.pushed)| && Ahead(r)[n] != NonEmpty(r.pushed)[n])
            && (n < |Ahead(r)| <==> !Leads(s, steps, true, r))
    decreases |steps|
  {
    hide Next, Ahead, Behind, NonEmpty, Overtakes, Lines;
    if steps != [] {
      var step, s' := steps[0], Next(s, steps[0]);
      if Overtakes(s, step) {
        Overtaken(s, step);
        NextAhead(s, step);
        NextPushed(s, step);
        AppendOnly(s', steps[1..], false, r);
        var n, all := |Ahead(s)|, NonEmpty(r.pushed);
        assert NonEmpty(s.pushed) <= all;
        assert Ahead(r)[n] == Ahead(s')[n];
      } else {
        NextInOrder(s, step);
        OrderedLinesDecide(s', steps[1..], r);
      }
    }
  }

  /** When pairwise different lines are pushed, the file is a prefix of the pushes exactly as long as no line that overtook
      another has been written. */
  lemma FileIsPrefixIff(steps: seq<Step>, s: Pipeline)
    requires Leads(START, steps, false, s) && Distinct(NonEmpty(s.pushed))
    ensures s.written <= NonEmpty(s.pushed) <==> |s.written| <= OrderedLines(START, steps)
  {
    LinesOf([]);
    OrderedLinesDecide(START, steps, s);
    hide NonEmpty, Lines, OrderedLines;
    var n := OrderedLines(START, steps);
    assert s.written == Ahead(s)[..|s.written|];
    if |s.written| <= n {
      assert s.written == Ahead(s)[..n][..|s.written|] == NonEmpty(s.pushed)[..n][..|s.written|];
    } else {
      assert s.written[n] == Ahead(s)[n];
    }
  }

  /** Everything pushed has been written. */
  predicate Drained(s: Pipeline) {
    s.batch == [] && s.queue == [] && s.buffer == [] && forall i | 0 <= i < |s.swapped| :: s.swapped[i] == []
  }

  /** Once everything is written, the file is in the order of the pushes exactly if no vector overtook another. */
  lemma DrainedInOrderIff(steps: seq<Step>, s: Pipeline)
    requires Leads(START, steps, false, s) && Distinct(NonEmpty(s.pushed)) && Drained(s)
    ensures s.written == NonEmpty(s.pushed) <==> Leads(START, steps, true, s)
  {
    LinesOf([]);
    NoLines(s.swapped);
    RunsConserve(START, steps, s);
    OrderedLinesDecide(START, steps, s);
    Three(s.written, [], []);
    assert Ahead(s) == s.written && Behind(s) == [];
    SameSize(s.written, NonEmpty(s.pushed));
    FullPrefix(s.written, NonEmpty(s.pushed), OrderedLines(START, steps));
    hide NonEmpty, Lines, OrderedLines, Leads, Ahead, Behind, Conserved;
  }

  lemma FullPrefix(a: seq<Line>, b: seq<Line>, n: nat)
    requires |a| == |b| && n <= |a| && a[..n] == b[..n] && (n < |a| ==> a[n] != b[n])
    ensures a == b <==> n == |a|
  {
  }

  lemma {:induction false} NoLines(vectors: seq<seq<Line>>)
    requires forall i | 0 <= i < |vectors| :: vectors[i] == []
    ensures Lines(vectors) == []
  {
    if vectors != [] {
      NoLines(vectors[1..]);
      assert vectors[0] + Flat(vectors[1..]) == Flat(vectors[1..]);
    }
  }

  /** Two overlapping syncLoop calls, as when the signal handler flushes while the timer synchronises: the later of any two
      different lines can reach the file first. */
  lemma OverlapReorders(a: Line, b: Line) returns (steps: seq<Step>, s: Pipeline)
    requires a != [] && b != [] && a != b
    ensures Leads(START, steps, false, s) && s.pushed == [a, b] && s.written == [b]
    ensures !(s.written <= NonEmpty(s.pushed))
  {
    var s4 := START.(pushed := [a, b], swapped := [[a], [b]]);
    s := s4.(swapped := [], queue := [[a]], writing := true, written := [b]);
    var second := [HandOver(1), HandOver(0), Take, Write];
    SecondFirst(a, b, s4, s);
    BothSwapped(a, b, second, s4, s);
    steps := [Push(a), Swap, Push(b), Swap] + second;
    assert [a, b] == [a] + [b];
    NonEmptyConcat([a], [b]);
    OneLine(a);
    hide NonEmpty, Leads;
    assert s.written[0] != NonEmpty(s.pushed)[0];
  }

  lemma BothSwapped(a: Line, b: Line, rest: seq<Step>, s4: Pipeline, r: Pipeline)
    requires s4 == START.(pushed := [a, b], swapped := [[a], [b]]) && Leads(s4, rest, false, r)
    ensures Leads(START, [Push(a), Swap, Push(b), Swap] + rest, false, r)
  {
    hide Leads;
    var s1 := START.(buffer := [a], pushed := [a]);
    var s2 := s1.(buffer := [], swapped := [[a]]);
    var s3 := s2.(buffer := [b], pushed := [a, b]);
    assert Next(START, Push(a)) == s1;
    assert Next(s1, Swap) == s2;
    assert Next(s2, Push(b)) == s3;
    assert Next(s3, Swap).swapped == s4.swapped;
    LeadsStep(s3, Swap, rest, r);
    LeadsStep(s2, Push(b), [Swap] + rest, r);
    LeadsStep(s1, Swap, [Push(b)] + ([Swap] + rest), r);
    LeadsStep(START, Push(a), [Swap] + ([Push(b)] + ([Swap] + rest)), r);
    assert [Push(a)] + ([Swap] + ([Push(b)] + ([Swap] + rest))) == [Push(a), Swap, Push(b), Swap] + rest;
  }

  lemma SecondFirst(a: Line, b: Line, s4: Pipeline, s: Pipeline)
    requires b != [] && s4 == START.(pushed := [a, b], swapped := [[a], [b]])
    requires s == s4.(swapped := [], queue := [[a]], writing := true, written := [b])
    ensures Leads(s4, [HandOver(1), HandOver(0), Take, Write], false, s)
  {
    hide Leads;
    var s5 := s4.(swapped := [[a]], queue := [[b]]);
    var s6 := s5.(swapped := [], queue := [[b], [a]]);
    var s7 := s6.(queue := [[a]], batch := [b], writing := true);
    assert Next(s4, HandOver(1)).swapped == s5.swapped && Next(s4, HandOver(1)).queue == s5.queue;
    assert Next(s5, HandOver(0)).swapped == s6.swapped && Next(s5, HandOver(0)).queue == s6.queue;
    assert Next(s6, Take).queue == s7.queue;
    assert Next(s7, Write).written == s.written && Next(s7, Write).batch == s.batch;
    LeadsNowhere(s);
    LeadsStep(s7, Write, [], s);
    LeadsStep(s6, Take, [Write] + [], s);
    LeadsStep(s5, HandOver(0), [Take] + ([Write] + []), s);
    LeadsStep(s4, HandOver(1), [HandOver(0)] + ([Take] + ([Write] + [])), s);
    assert [HandOver(1)] + ([HandOver(0)] + ([Take] + ([Write] + []))) == [HandOver(1), HandOver(0), Take, Write];
  }

  lemma LeadsNowhere(s: Pipeline)
    ensures Leads(s, [], false, s)
  {
  }

  lemma LeadsStep(s: Pipeline, step: Step, rest: seq<Step>, r: Pipeline)
    requires Enabled(s, step) && Leads(Next(s, step), rest, false, r)
    ensures Leads(s, [step] + rest, false, r)
  {
    assert ([step] + rest)[1..] == rest;
  }

  /** Once the writer has left, whatever is still queued stays unwritten. */
  lemma {:induction false} NothingWrittenAfterExit(s: Pipeline, steps: seq<Step>, r: Pipeline)
    requires s.exited && !s.writing && Leads(s, steps, false, r)
    ensures r.exited && r.written == s.written
    decreases |steps|
  {
    if steps != [] {
      NothingWrittenAfterExit(Next(s, steps[0]), steps[1..], r);
    }
  }

  // ---- The writer's turn, and when it leaves ----

  /** The pipeline after the writer has written the batch it holds. */
  function Emptied(s: Pipeline): Pipeline {
    s.(batch := [], written := s.written + NonEmpty(s.batch))
  }

  /** The writer gets there by writing line after line. */
  lemma {:induction false} BatchIsWritten(s: Pipeline) returns (steps: seq<Step>)
    requires s.writing
    ensures Leads(s, steps, true, Emptied(s)) && (forall i | 0 <= i < |steps| :: steps[i] == Write)
    decreases |s.batch|
  {
    hide NonEmpty, Overtakes;
    if s.batch == [] {
      steps := [];
      LinesOf([]);
      assert Emptied(s) == s;
    } else {
      var r := Next(s, Write);
      var rest := BatchIsWritten(r);
      steps := [Write] + rest;
      assert steps[1..] == rest && !Overtakes(s, Write) by { WriteOvertakesNothing(s); }
      assert s.batch == [s.batch[0]] + s.batch[1..];
      NonEmptyConcat([s.batch[0]], s.batch[1..]);
      OneLine(s.batch[0]);
      Three(s.written, NonEmpty([s.batch[0]]), NonEmpty(s.batch[1..]));
      assert Emptied(r) == Emptied(s);
    }
  }

  lemma WriteOvertakesNothing(s: Pipeline)
    requires Enabled(s, Write)
    ensures !Overtakes(s, Write)
  {
  }

  /** The writer has left only if a stop was asked for, and a stop is on record exactly if it was asked for. */
  lemma LeavesOnlyWhenStopped(steps: seq<Step>, s: Pipeline)
    requires Leads(START, steps, false, s)
    ensures (s.exited ==> s.stop) && (s.stop <==> AskStop in steps)
  {
    StopIsAsked(START, steps, s);
  }

  lemma {:induction false} StopIsAsked(s: Pipeline, steps: seq<Step>, r: Pipeline)
    requires (s.exited ==> s.stop) && Leads(s, steps, false, r)
    ensures (r.exited ==> r.stop) && (r.stop <==> s.stop || AskStop in steps)
    decreases |steps|
  {
    if steps != [] {
      assert steps == [steps[0]] + steps[1..];
      StopIsAsked(Next(s, steps[0]), steps[1..], r);
    }
  }

  /** Steps of the writer and of syncLoop calls. */
  predicate Onward(step: Step) { !step.Push? && !step.AskStop? }

  /** Such steps lead from `s` to `r`, and no vector overtakes another. */
  ghost predicate Gets(s: Pipeline, steps: seq<Step>, r: Pipeline) {
    Leads(s, steps, true, r) && forall i | 0 <= i < |steps| :: Onward(steps[i])
  }

  lemma GetsStep(s: Pipeline, step: Step, rest: seq<Step>, r: Pipeline)
    requires Enabled(s, step) && !Overtakes(s, step) && Onward(step) && Gets(Next(s, step), rest, r)
    ensures Gets(s, [step] + rest, r)
  {
    assert ([step] + rest)[1..] == rest;
  }

  lemma {:induction false} GetsFurther(s: Pipeline, a: seq<Step>, m: Pipeline, b: seq<Step>, r: Pipeline)
    requires Gets(s, a, m) && Gets(m, b, r)
    ensures Gets(s, a + b, r)
    decreases |a|
  {
    hide Next, Overtakes, Onward;
    if a == [] {
      assert a + b == b;
    } else {
      assert Onward(a[0]) && forall i | 0 <= i < |a[1..]| :: a[1..][i] == a[i + 1];
      GetsFurther(Next(s, a[0]), a[1..], m, b, r);
      GetsStep(s, a[0], a[1..] + b, r);
      assert [a[0]] + (a[1..] + b) == a + b;
    }
  }

  /** A batch taken is written to its end; the writer then leaves if a stop was asked for in the meantime, and only then. */
  lemma TurnEnds(s: Pipeline) returns (steps: seq<Step>, r: Pipeline)
    requires s.writing && !s.exited
    ensures Gets(s, steps, r)
    ensures r == s.(batch := [], writing := false, exited := s.stop, written := s.written + NonEmpty(s.batch))
  {
    var writes := BatchIsWritten(s);
    var m := Emptied(s);
    r := Next(m, Finish);
    assert Gets(s, writes, m);
    assert Gets(r, [], r);
    GetsStep(m, Finish, [], r);
    GetsFurther(s, writes, m, [Finish] + [], r);
    steps := writes + ([Finish] + []);
  }

  /** As long as no stop was asked for, the writer takes one batch after the other until the queue is empty. */
  lemma {:induction false} QueueIsWritten(s: Pipeline) returns (steps: seq<Step>, r: Pipeline)
    requires !s.writing && s.batch == [] && !s.stop && !s.exited
    ensures Gets(s, steps, r) && r == s.(queue := [], written := r.written)
    decreases |s.queue|
  {
    if s.queue == [] {
      steps, r := [], s;
    } else {
      var t := Next(s, Take);
      var turn, m := TurnEnds(t);
      var rest;
      rest, r := QueueIsWritten(m);
      GetsFurther(t, turn, m, rest, r);
      GetsStep(s, Take, turn + rest, r);
      steps := [Take] + (turn + rest);
    }
  }

  /** The vectors that are out are handed over, in the order they were swapped out. */
  lemma {:induction false} VectorsAreHandedOver(s: Pipeline) returns (steps: seq<Step>, r: Pipeline)
    ensures Gets(s, steps, r) && r == s.(queue := r.queue, swapped := [])
    decreases |s.swapped|
  {
    if s.swapped == [] {
      steps, r := [], s;
    } else {
      var n := Next(s, HandOver(0));
      var rest;
      rest, r := VectorsAreHandedOver(n);
      FirstOvertakesNothing(s);
      GetsStep(s, HandOver(0), rest, r);
      steps := [HandOver(0)] + rest;
    }
  }

  lemma FirstOvertakesNothing(s: Pipeline)
    requires s.swapped != []
    ensures !Overtakes(s, HandOver(0))
  {
    assert s.swapped[..0] == [];
    LinesOf([]);
  }

  /** From every reachable state in which no stop was asked for, one more syncLoop call and the writer's own steps bring every
      non-empty line pushed into the file, each as often as it was pushed; and in the order of the pushes, if no vector has
      overtaken another so far. */
  lemma EverythingIsWritten(before: seq<Step>, orderly: bool, s: Pipeline) returns (steps: seq<Step>, r: Pipeline)
    requires Leads(START, before, orderly, s) && AskStop !in before
    ensures Gets(s, steps, r) && Drained(r) && r.pushed == s.pushed
    ensures multiset(r.written) == multiset(NonEmpty(s.pushed))
    ensures orderly ==> r.written == NonEmpty(s.pushed)
  {
    AnyLeads(START, before, orderly, s);
    LeavesOnlyWhenStopped(before, s);
    var first, m := [], s;
    if s.writing {
      first, m := TurnEnds(s);
    } else {
      RestsEmpty(START, before, s);
    }
    var n := Next(m, Swap);
    var hand, h := VectorsAreHandedOver(n);
    var write, e := QueueIsWritten(h);
    r := e;
    GetsFurther(n, hand, h, write, r);
    GetsStep(m, Swap, hand + write, r);
    GetsFurther(s, first, m, [Swap] + (hand + write), r);
    steps := first + ([Swap] + (hand + write));
    WholeFile(before, orderly, s, steps, r);
  }

  lemma {:induction false} AnyLeads(s: Pipeline, steps: seq<Step>, orderly: bool, r: Pipeline)
    requires Leads(s, steps, orderly, r)
    ensures Leads(s, steps, false, r)
    decreases |steps|
  {
    if steps != [] {
      AnyLeads(Next(s, steps[0]), steps[1..], orderly, r);
    }
  }

  lemma {:induction false} RestsEmpty(s: Pipeline, steps: seq<Step>, r: Pipeline)
    requires (!s.writing ==> s.batch == []) && Leads(s, steps, false, r)
    ensures !r.writing ==> r.batch == []
    decreases |steps|
  {
    if steps != [] {
      RestsEmpty(Next(s, steps[0]), steps[1..], r);
    }
  }

  lemma {:induction false} LeadsFurther(s: Pipeline, a: seq<Step>, orderly: bool, m: Pipeline, b: seq<Step>, r: Pipeline)
    requires Leads(s, a, orderly, m) && Leads(m, b, orderly, r)
    ensures Leads(s, a + b, orderly, r)
    decreases |a|
  {
    hide Next, Overtakes;
    if a == [] {
      assert a + b == b;
    } else {
      LeadsFurther(Next(s, a[0]), a[1..], orderly, m, b, r);
      assert (a + b)[1..] == a[1..] + b;
    }
  }

  lemma WholeFile(before: seq<Step>, orderly: bool, s: Pipeline, steps: seq<Step>, r: Pipeline)
    requires Leads(START, before, orderly, s) && Leads(s, steps, true, r) && Drained(r)
    ensures multiset(r.written) == multiset(NonEmpty(r.pushed))
    ensures orderly ==> r.written == NonEmpty(r.pushed)
  {
    AnyLeads(START, before, orderly, s);
    AnyLeads(s, steps, true, r);
    LeadsFurther(START, before, false, s, steps, r);
    NothingLostOrDuplicated(before + steps, r);
    LinesOf([]);
    NoLines(r.swapped);
    if orderly {
      LeadsFurther(START, before, true, s, steps, r);
      FileIsPrefixOfPushes(before + steps, r);
    }
  }

  /** A stop asked for while the writer waits for a batch does not end it: it stays until a batch is handed over. */
  lemma {:induction false} StopWaitsForBatch(s: Pipeline, steps: seq<Step>, r: Pipeline)
    requires !s.writing && !s.exited && s.queue == [] && Leads(s, steps, false, r)
    requires forall i | 0 <= i < |steps| :: !steps[i].HandOver?
    ensures !r.exited && r.written == s.written
    decreases |steps|
  {
    if steps != [] {
      assert forall i | 0 <= i < |steps[1..]| :: steps[1..][i] == steps[i + 1];
      StopWaitsForBatch(Next(s, steps[0]), steps[1..], r);
    }
  }

  // ---- The objects ----

  class AsyncLogger {
    var queue: seq<seq<Line>>
    var stopFlag: bool
    /** Locals of the writer thread: the vector it has taken, whether it is writing, whether it has returned. */
    var tmp: seq<Line>
    var writing: bool
    var exited: bool
    var file: seq<Line>

    /** The pipeline this is the back half of. */
    ghost function State(buffer: seq<Line>, swapped: seq<seq<Line>>, pushed: seq<Line>): Pipeline
      reads this
    {
      Pipeline(buffer, swapped, queue, tmp, writing, stopFlag, exited, file, pushed)
    }

    constructor ()
      ensures State([], [], []) == START
    {
      queue, stopFlag, tmp, writing, exited, file := [], false, [], false, false, [];
    }

    method PushLogBuffer(vec: seq<Line>)
      modifies this`queue
      ensures queue == old(queue) + [vec]
    {
      queue := queue + [vec];
    }

    method Stop(ghost b: seq<Line>, ghost v: seq<seq<Line>>, ghost p: seq<Line>)
      modifies this`stopFlag
      ensures State(b, v, p) == Next(old(State(b, v, p)), AskStop)
    {
      stopFlag := true;
    }

    /** One turn of the writer thread, which only wakes up when there is a batch: it takes the batch, writes it, and looks at
        the stop flag. */
    method WriteBatch(ghost b: seq<Line>, ghost v: seq<seq<Line>>, ghost p: seq<Line>)
      requires Enabled(State(b, v, p), Take)
      modifies this
      ensures State(b, v, p) == Next(Emptied(Next(old(State(b, v, p)), Take)), Finish)
    {
      writing := true;
      tmp := queue[0];
      queue := queue[1..];
      assert State(b, v, p) == Next(old(State(b, v, p)), Take);
      WriteLines();
      writing := false;
      exited := stopFlag;
    }

    /** The loop over the lines of the batch. */
    method WriteLines()
      modifies this`tmp, this`file
      ensures tmp == [] && file == old(file) + NonEmpty(old(tmp))
    {
      hide NonEmpty;
      LinesOf([]);
      while tmp != []
        invariant file + NonEmpty(tmp) == old(file) + NonEmpty(old(tmp))
        decreases |tmp|
      {
        assert tmp == [tmp[0]] + tmp[1..];
        NonEmptyConcat([tmp[0]], tmp[1..]);
        OneLine(tmp[0]);
        Three(file, NonEmpty([tmp[0]]), NonEmpty(tmp[1..]));
        if tmp[0] != [] {
          file := file + [tmp[0]];
        }
        tmp := tmp[1..];
      }
    }
  }

  class Logger {
    var buffer: seq<Line>
    const asyncLogger: AsyncLogger
    /** Vectors of syncLoop calls between their two critical sections, and everything pushed so far. */
    ghost var swapped: seq<seq<Line>>
    ghost var pushed: seq<Line>

    ghost function State(): Pipeline
      reads this, asyncLogger
    {
      asyncLogger.State(buffer, swapped, pushed)
    }

    constructor (asyncLogger: AsyncLogger)
      requires asyncLogger.State([], [], []) == START
      ensures State() == START && this.asyncLogger == asyncLogger
    {
      this.asyncLogger := asyncLogger;
      buffer, swapped, pushed := [], [], [];
    }

    method PushLog(line: Line)
      modifies this
      ensures State() == Next(old(State()), Push(line))
    {
      buffer := buffer + [line];
      pushed := pushed + [line];
    }

    /** The first critical section of syncLoop. */
    method SwapBuffer() returns (tmp: seq<Line>)
      modifies this
      ensures State() == Next(old(State()), Swap) && tmp == old(buffer)
    {
      tmp := buffer;
      swapped := swapped + [buffer];
      buffer := [];
    }

    /** The rest of it, for the call whose vector is the i-th still out. */
    method HandOverVector(tmp: seq<Line>, ghost i: nat)
      requires i < |swapped| && swapped[i] == tmp
      modifies this`swapped, asyncLogger`queue
      ensures State() == Next(old(State()), HandOver(i))
    {
      if tmp != [] {
        asyncLogger.PushLogBuffer(tmp);
      }
      swapped := swapped[..i] + swapped[i + 1..];
    }

    /** A syncLoop call that no other step comes between. */
    method SyncLoop()
      modifies this, asyncLogger`queue
      ensures State() == Next(Next(old(State()), Swap), HandOver(|old(swapped)|))
    {
      ghost var i := |swapped|;
      var tmp := SwapBuffer();
      HandOverVector(tmp, i);
    }
  }
}
