/** The pipe connection: readers and writers queue operations, one worker thread performs them, all writes before each
    read, and the destructor shuts the worker down. The flag `doIo` is read and written outside the mutex, so taking
    the mutex, waiting, each look at the flag and each operation are steps of their own. */
module PipeWorker {
  type Op = nat

  /** Where the worker stands. In `AboutToWait` it holds the mutex. In `WriteCommitted` and `ReadCommitted` it has seen
      the flag set and is about to perform, or is performing, the first operation it holds. */
  datatype Place =
    | Top | Looking | AboutToWait | Waiting | Starting
    | Writing | WriteCommitted | Swapping | Deciding | Reading | ReadCommitted | Merging | Again | Exited

  /** How far the destructor is. */
  datatype Closing = Open | FlagCleared | QueuesCleared | Notified

  /** What the worker does, in order: operations, and its locked checks for further writes. */
  datatype Event = DidWrite(op: Op) | DidRead(op: Op) | Checked(noWrite: bool)

  datatype State = State(
    doIo: bool,
    readQueue: seq<Op>,
    writeQueue: seq<Op>,
    heldReads: seq<Op>,
    heldWrites: seq<Op>,
    place: Place,
    notifies: nat,
    closing: Closing,
    acceptedReads: seq<Op>,
    acceptedWrites: seq<Op>,
    log: seq<Event>)

  const INITIAL := State(true, [], [], [], [], Top, 0, Open, [], [], [])

  /** `Work` is the worker's next step, `Wake` a wake-up without notification. */
  datatype Step = AsyncRead(op: Op) | AsyncWrite(op: Op) | Notify | Work | Wake | Close

  /** The steps that need the mutex. */
  predicate TakesMutex(s: State, step: Step)
  {
    match step
    case AsyncRead(_) => true
    case AsyncWrite(_) => true
    case Close => s.closing.FlagCleared?
    case _ => false
  }

  predicate Enabled(s: State, step: Step)
  {
    && (TakesMutex(s, step) ==> !s.place.AboutToWait?)
    && match step
       case Notify => s.notifies > 0
       case Work => !s.place.Waiting? && !s.place.Exited?
       case Wake => s.place.Waiting?
       case Close => !s.closing.Notified?
       case _ => true
  }

  function DoWork(s: State): State
    requires Enabled(s, Work)
  {
    match s.place
    case Top => s.(place := if s.doIo then Looking else Exited, heldReads := [], heldWrites := [])
    case Looking =>
      if s.doIo && s.readQueue == [] && s.writeQueue == [] then s.(place := AboutToWait)
      else s.(place := Starting, heldReads := s.readQueue, heldWrites := s.writeQueue, readQueue := [], writeQueue := [])
    case AboutToWait => s.(place := Waiting)
    case Starting => s.(place := if s.doIo then Writing else Exited)
    case Writing =>
      if s.heldWrites == [] then s.(place := Swapping)
      else if s.doIo then s.(place := WriteCommitted)
      else s.(heldWrites := s.heldWrites[1..])
    case WriteCommitted =>
      if s.heldWrites == [] then s
      else s.(place := Writing, heldWrites := s.heldWrites[1..], log := s.log + [DidWrite(s.heldWrites[0])])
    case Swapping =>
      s.(place := Deciding, heldWrites := s.writeQueue, writeQueue := [], log := s.log + [Checked(s.writeQueue == [])])
    case Deciding => s.(place := if s.doIo && s.heldWrites != [] then Writing else Reading)
    case Reading =>
      if s.heldReads == [] then s.(place := Merging)
      else if s.doIo then s.(place := ReadCommitted)
      else s.(place := Exited, heldReads := s.heldReads[1..])
    case ReadCommitted =>
      if s.heldReads == [] then s
      else s.(place := Merging, heldReads := s.heldReads[1..], log := s.log + [DidRead(s.heldReads[0])])
    case Merging =>
      s.(place := Again, heldReads := s.heldReads + s.readQueue, readQueue := [],
         heldWrites := s.writeQueue, writeQueue := s.heldWrites)
    case Again => s.(place := if s.doIo && (s.heldReads != [] || s.heldWrites != []) then Writing else Top)
  }

  function DoClose(s: State): State
    requires Enabled(s, Close)
  {
    match s.closing
    case Open => s.(doIo := false, closing := FlagCleared)
    case FlagCleared => s.(readQueue := [], writeQueue := [], closing := QueuesCleared)
    case QueuesCleared => s.(place := if s.place.Waiting? then Looking else s.place, closing := Notified)
  }

  function Apply(s: State, step: Step): State
    requires Enabled(s, step)
  {
    match step
    case AsyncRead(op) =>
      s.(readQueue := s.readQueue + [op], notifies := s.notifies + 1, acceptedReads := s.acceptedReads + [op])
    case AsyncWrite(op) =>
      s.(writeQueue := s.writeQueue + [op], notifies := s.notifies + 1, acceptedWrites := s.acceptedWrites + [op])
    case Notify => s.(place := if s.place.Waiting? then Looking else s.place, notifies := s.notifies - 1)
    case Work => DoWork(s)
    case Wake => s.(place := Looking)
    case Close => DoClose(s)
  }

  predicate Does(s: State, step: Step, u: State)
  {
    Enabled(s, step) && u == Apply(s, step)
  }

  ghost predicate Run(states: seq<State>, steps: seq<Step>)
  {
    && |states| == |steps| + 1
    && forall i :: 0 <= i < |steps| ==> Does(states[i], steps[i], states[i + 1])
  }

  function WritesOf(log: seq<Event>): seq<Op>
  {
    if log == [] then [] else WritesOf(log[..|log| - 1]) + OneWrite(log[|log| - 1])
  }

  function OneWrite(e: Event): seq<Op>
  {
    if e.DidWrite? then [e.op] else []
  }

  function ReadsOf(log: seq<Event>): seq<Op>
  {
    if log == [] then [] else ReadsOf(log[..|log| - 1]) + OneRead(log[|log| - 1])
  }

  function OneRead(e: Event): seq<Op>
  {
    if e.DidRead? then [e.op] else []
  }

  lemma LogSnoc(log: seq<Event>, e: Event)
    ensures WritesOf(log + [e]) == WritesOf(log) + OneWrite(e)
    ensures ReadsOf(log + [e]) == ReadsOf(log) + OneRead(e)
  {
    assert (log + [e])[..|log|] == log;
  }

  predicate LastCheckClear(log: seq<Event>)
  {
    log != [] && log[|log| - 1] == Checked(true)
  }

  /** Each read directly follows a locked check that found no write pending. */
  predicate ReadsFollowChecks(log: seq<Event>)
  {
    forall i :: 0 <= i < |log| && log[i].DidRead? ==> i > 0 && log[i - 1] == Checked(true)
  }

  /** Performed operations are the first accepted ones, in order; while the flag is set the rest are held or queued. */
  predicate Conserved(s: State)
  {
    && WritesOf(s.log) <= s.acceptedWrites
    && ReadsOf(s.log) <= s.acceptedReads
    && (s.doIo ==> s.acceptedWrites == WritesOf(s.log) + (s.heldWrites + s.writeQueue))
    && (s.doIo ==> s.acceptedReads == ReadsOf(s.log) + (s.heldReads + s.readQueue))
    && (s.place.WriteCommitted? ==> s.heldWrites != [] && WritesOf(s.log) + [s.heldWrites[0]] <= s.acceptedWrites)
    && (s.place.ReadCommitted? ==> s.heldReads != [] && ReadsOf(s.log) + [s.heldReads[0]] <= s.acceptedReads)
  }

  /** What each place of the worker knows. */
  predicate Placed(s: State)
  {
    && (s.place.Looking? || s.place.AboutToWait? || s.place.Waiting? ==> s.heldReads == [] && s.heldWrites == [])
    && (s.place.AboutToWait? ==> s.readQueue == [] && s.writeQueue == [])
    && (s.doIo && s.place.Top? ==> s.heldReads == [] && s.heldWrites == [])
    && (s.doIo && (s.place.Swapping? || s.place.Reading? || s.place.ReadCommitted? || s.place.Merging?) ==>
          s.heldWrites == [])
    && (s.place.Deciding? && s.heldWrites == [] ==> LastCheckClear(s.log))
    && (s.doIo && s.place.Reading? ==> LastCheckClear(s.log))
    && (s.place.ReadCommitted? ==> LastCheckClear(s.log))
    && (s.place.Exited? ==> !s.doIo)
  }

  /** No wake-up and no shutdown is lost. */
  predicate Woken(s: State)
  {
    && (s.place.Waiting? && (s.readQueue != [] || s.writeQueue != []) ==> s.notifies > 0)
    && (s.doIo <==> s.closing.Open?)
    && (s.place.AboutToWait? ==> s.closing.Open? || s.closing.FlagCleared?)
    && (s.place.Waiting? ==> !s.closing.Notified?)
  }

  predicate Inv(s: State)
  {
    Conserved(s) && ReadsFollowChecks(s.log) && Placed(s) && Woken(s)
  }

  lemma CommitConserves(s: State)
    requires Inv(s) && (s.place.Writing? || s.place.Reading?)
    ensures Conserved(DoWork(s))
  {
    hide WritesOf, ReadsOf, ReadsFollowChecks, Woken, Placed;
    if s.place.Writing? && s.heldWrites != [] && s.doIo {
      MoveOne(s.acceptedWrites, WritesOf(s.log), s.heldWrites, s.writeQueue);
    } else if s.place.Reading? && s.heldReads != [] && s.doIo {
      MoveOne(s.acceptedReads, ReadsOf(s.log), s.heldReads, s.readQueue);
    }
  }

  lemma PerformConserves(s: State)
    requires Inv(s) && (s.place.WriteCommitted? || s.place.ReadCommitted?)
    ensures Conserved(DoWork(s))
  {
    hide WritesOf, ReadsOf, ReadsFollowChecks, Woken, Placed;
    if s.place.WriteCommitted? {
      LogSnoc(s.log, DidWrite(s.heldWrites[0]));
      if s.doIo { MoveOne(s.acceptedWrites, WritesOf(s.log), s.heldWrites, s.writeQueue); }
      assert ReadsOf(s.log) + [] == ReadsOf(s.log);
    } else {
      LogSnoc(s.log, DidRead(s.heldReads[0]));
      if s.doIo { MoveOne(s.acceptedReads, ReadsOf(s.log), s.heldReads, s.readQueue); }
      assert WritesOf(s.log) + [] == WritesOf(s.log);
    }
  }

  lemma WorkConserves(s: State)
    requires Inv(s) && Enabled(s, Work)
    ensures Conserved(DoWork(s))
  {
    hide WritesOf, ReadsOf, ReadsFollowChecks, Woken;
    match s.place
    case Writing => CommitConserves(s);
    case Reading => CommitConserves(s);
    case WriteCommitted => PerformConserves(s);
    case ReadCommitted => PerformConserves(s);
    case Swapping =>
      LogSnoc(s.log, Checked(s.writeQueue == []));
      assert WritesOf(s.log) + [] == WritesOf(s.log) && ReadsOf(s.log) + [] == ReadsOf(s.log);
      assert s.doIo ==> s.heldWrites + s.writeQueue == s.writeQueue + [];
    case Looking =>
      assert s.heldWrites + s.writeQueue == s.writeQueue + [] && s.heldReads + s.readQueue == s.readQueue + [];
    case Merging =>
      assert s.doIo ==> s.heldWrites + s.writeQueue == s.writeQueue + s.heldWrites;
      assert (s.heldReads + s.readQueue) + [] == s.heldReads + s.readQueue;
    case _ =>
  }

  lemma WorkFollowsChecks(s: State)
    requires Inv(s) && Enabled(s, Work)
    ensures ReadsFollowChecks(DoWork(s).log)
  {
    hide Conserved, Woken;
  }

  lemma WorkKeeps(s: State)
    requires Inv(s) && Enabled(s, Work)
    ensures Inv(Apply(s, Work))
  {
    hide Conserved, ReadsFollowChecks, Placed, Woken, DoWork;
    WorkConserves(s);
    WorkFollowsChecks(s);
    WorkPlaces(s);
    WorkWakes(s);
  }

  lemma WorkPlaces(s: State)
    requires Inv(s) && Enabled(s, Work)
    ensures Placed(DoWork(s))
  {
    hide Conserved, ReadsFollowChecks, Woken;
  }

  lemma WorkWakes(s: State)
    requires Inv(s) && Enabled(s, Work)
    ensures Woken(DoWork(s))
  {
    hide Conserved, ReadsFollowChecks;
  }

  /** Performing the first held operation. */
  lemma MoveOne(accepted: seq<Op>, done: seq<Op>, held: seq<Op>, queued: seq<Op>)
    requires held != [] && accepted == done + (held + queued)
    ensures accepted == (done + [held[0]]) + (held[1..] + queued) && done + [held[0]] <= accepted
  {
  }

  lemma OtherStepKeeps(s: State, step: Step)
    requires Inv(s) && Enabled(s, step) && !step.Work?
    ensures Inv(Apply(s, step))
  {
    hide WritesOf, ReadsOf;
    match step
    case AsyncRead(op) => QueueOne(s.acceptedReads, ReadsOf(s.log), s.heldReads, s.readQueue, op, s.doIo);
    case AsyncWrite(op) => QueueOne(s.acceptedWrites, WritesOf(s.log), s.heldWrites, s.writeQueue, op, s.doIo);
    case _ =>
  }

  lemma QueueOne(accepted: seq<Op>, done: seq<Op>, held: seq<Op>, queued: seq<Op>, op: Op, running: bool)
    requires done <= accepted && (running ==> accepted == done + (held + queued))
    ensures done <= accepted + [op] && (running ==> accepted + [op] == done + (held + (queued + [op])))
  {
  }

  /** Every step of the worker, of the callers and of the destructor keeps the invariant. */
  lemma StepKeepsInvariant(s: State, step: Step)
    requires Inv(s) && Enabled(s, step)
    ensures Inv(Apply(s, step))
  {
    if step.Work? { WorkKeeps(s); } else { OtherStepKeeps(s, step); }
  }

  lemma {:induction false} RunsKeepInvariant(states: seq<State>, steps: seq<Step>)
    requires Run(states, steps) && states[0] == INITIAL
    ensures Inv(states[|steps|])
    decreases |steps|
  {
    if steps != [] {
      var k := |steps| - 1;
      assert Does(states[k], steps[k], states[k + 1]);
      RunsKeepInvariant(states[..k + 1], steps[..k]);
      hide Inv;
      StepKeepsInvariant(states[k], steps[k]);
    }
  }

  /** In every run: operations are performed at most once, in order, and each read after a check that found no
      write; until the destructor begins, none is dropped. */
  lemma PerformedInOrder(states: seq<State>, steps: seq<Step>)
    requires Run(states, steps) && states[0] == INITIAL
    ensures var s := states[|steps|];
            && WritesOf(s.log) <= s.acceptedWrites && ReadsOf(s.log) <= s.acceptedReads
            && ReadsFollowChecks(s.log)
            && (s.closing.Open? ==> s.acceptedWrites == WritesOf(s.log) + (s.heldWrites + s.writeQueue))
            && (s.closing.Open? ==> s.acceptedReads == ReadsOf(s.log) + (s.heldReads + s.readQueue))
  {
    RunsKeepInvariant(states, steps);
  }

  /** A sleeping worker with no wake-up on its way has performed every operation, each exactly once. */
  lemma AsleepMeansDone(states: seq<State>, steps: seq<Step>)
    requires Run(states, steps) && states[0] == INITIAL
    requires var s := states[|steps|]; s.closing.Open? && s.place.Waiting? && s.notifies == 0
    ensures var s := states[|steps|]; WritesOf(s.log) == s.acceptedWrites && ReadsOf(s.log) == s.acceptedReads
  {
    RunsKeepInvariant(states, steps);
    var s := states[|steps|];
    assert WritesOf(s.log) + ([] + []) == WritesOf(s.log) && ReadsOf(s.log) + ([] + []) == ReadsOf(s.log);
  }

  /** The operation the worker is committed to, if any. */
  function Committed(s: State): seq<Event>
  {
    if s.place.WriteCommitted? && s.heldWrites != [] then [DidWrite(s.heldWrites[0])]
    else if s.place.ReadCommitted? && s.heldReads != [] then [DidRead(s.heldReads[0])]
    else []
  }

  /** The operations of a log, without the checks. */
  function Operations(log: seq<Event>): seq<Event>
  {
    if log == [] then []
    else Operations(log[..|log| - 1]) + if log[|log| - 1].Checked? then [] else [log[|log| - 1]]
  }

  lemma OperationsSnoc(log: seq<Event>, e: Event)
    ensures Operations(log + [e]) == Operations(log) + if e.Checked? then [] else [e]
  {
    assert (log + [e])[..|log|] == log;
  }

  /** `u` has done no more than `s` but the operation `s` was committed to. */
  predicate OnlyCommitted(s: State, u: State)
  {
    || (Committed(u) == Committed(s) && Operations(u.log) == Operations(s.log))
    || (Committed(u) == [] && Operations(u.log) == Operations(s.log) + Committed(s))
  }

  lemma FlagStepKeeps(s: State, step: Step)
    requires Inv(s) && Enabled(s, step) && !s.doIo
    ensures !Apply(s, step).doIo && OnlyCommitted(s, Apply(s, step))
  {
    hide WritesOf, ReadsOf, Operations;
    assert Operations(s.log) + [] == Operations(s.log);
    if step.Work? {
      match s.place
      case WriteCommitted => OperationsSnoc(s.log, DidWrite(s.heldWrites[0]));
      case ReadCommitted => OperationsSnoc(s.log, DidRead(s.heldReads[0]));
      case Swapping => OperationsSnoc(s.log, Checked(s.writeQueue == []));
      case _ =>
    }
  }

  /** After the flag is cleared at most one more operation is performed, the one the worker was committed to then;
      and that one has been when it exits. */
  lemma {:induction false} OnlyCommittedAfterFlag(states: seq<State>, steps: seq<Step>)
    requires Run(states, steps) && Inv(states[0]) && !states[0].doIo
    ensures var (s, u) := (states[0], states[|steps|]);
            && Inv(u) && !u.doIo && OnlyCommitted(s, u)
            && (u.place.Exited? ==> Operations(u.log) == Operations(s.log) + Committed(s))
    decreases |steps|
  {
    assert Operations(states[0].log) + [] == Operations(states[0].log);
    if steps != [] {
      var k := |steps| - 1;
      assert Does(states[k], steps[k], states[k + 1]);
      OnlyCommittedAfterFlag(states[..k + 1], steps[..k]);
      hide Inv, Operations, Committed;
      StepKeepsInvariant(states[k], steps[k]);
      FlagStepKeeps(states[k], steps[k]);
      assert Operations(states[0].log) + [] == Operations(states[0].log);
    }
    assert states[|steps|].place.Exited? ==> Committed(states[|steps|]) == [];
  }

  /** A worker that finds the flag cleared where it would begin to wait, to work or to read leaves at once, and the
      destructor drops what is queued. */
  lemma FlagEndsWork(s: State)
    requires !s.doIo
    ensures Enabled(s, Work) && (s.place.Top? || s.place.Starting? || (s.place.Reading? && s.heldReads != [])) ==>
              Apply(s, Work).place.Exited? && Apply(s, Work).log == s.log
    ensures Enabled(s, Close) && s.closing.FlagCleared? ==>
              Apply(s, Close).readQueue == Apply(s, Close).writeQueue == [] && Apply(s, Close).log == s.log
  {
  }

  /** The worker on its way to the only read that was queued. */
  function Alone(op: Op, place: Place, log: seq<Event>): State
  {
    State(true, [], [], [op], [], place, 1, Open, [op], [], log)
  }

  lemma AloneStarts(op: Op) returns (states: seq<State>, steps: seq<Step>)
    ensures Run(states, steps) && |steps| == 4 && states[0] == INITIAL && states[4] == Alone(op, Writing, [])
  {
    var s1 := INITIAL.(readQueue := [op], notifies := 1, acceptedReads := [op]);
    var s2 := s1.(place := Looking);
    states := [INITIAL, s1, s2, Alone(op, Starting, []), Alone(op, Writing, [])];
    steps := [AsyncRead(op), Work, Work, Work];
    assert [] + [op] == [op];
  }

  lemma AloneCommits(op: Op) returns (states: seq<State>, steps: seq<Step>)
    ensures Run(states, steps) && |steps| == 4
    ensures states[0] == Alone(op, Writing, []) && states[4] == Alone(op, ReadCommitted, [Checked(true)])
  {
    hide ReadsOf, WritesOf;
    var log := [Checked(true)];
    assert [] + log == log;
    states := [Alone(op, Writing, []), Alone(op, Swapping, []), Alone(op, Deciding, log), Alone(op, Reading, log),
               Alone(op, ReadCommitted, log)];
    steps := [Work, Work, Work, Work];
  }

  lemma AloneReads(op: Op) returns (states: seq<State>, steps: seq<Step>)
    ensures Run(states, steps) && |steps| == 2 && states[0] == Alone(op, ReadCommitted, [Checked(true)])
    ensures !states[1].doIo && ReadsOf(states[1].log) == [] && ReadsOf(states[2].log) == [op]
  {
    hide ReadsOf, WritesOf;
    var s0 := Alone(op, ReadCommitted, [Checked(true)]);
    var s1 := Apply(s0, Close);
    states, steps := [s0, s1, Apply(s1, Work)], [Close, Work];
    EmptyLog();
    LogSnoc([], Checked(true));
    LogSnoc([Checked(true)], DidRead(op));
    assert [] + [Checked(true)] == [Checked(true)] && [] + [op] == [op];
  }

  lemma RunsJoin(a: seq<State>, s: seq<Step>, b: seq<State>, t: seq<Step>)
    requires Run(a, s) && Run(b, t) && a[|s|] == b[0]
    ensures Run(a + b[1..], s + t)
  {
    hide Enabled, Apply;
    var (c, u) := (a + b[1..], s + t);
    forall i | 0 <= i < |u| ensures Does(c[i], u[i], c[i + 1]) {
      if i < |s| {
        assert Does(a[i], s[i], a[i + 1]);
      } else {
        assert Does(b[i - |s|], t[i - |s|], b[i - |s| + 1]);
      }
    }
  }

  /** A read that began before the destructor is performed after it cleared the flag. */
  lemma ReadAfterFlag(op: Op)
    ensures exists states: seq<State>, steps: seq<Step> ::
              && Run(states, steps) && states[0] == INITIAL
              && (exists i :: 0 <= i < |steps| && !states[i].doIo && ReadsOf(states[i].log) == [])
              && ReadsOf(states[|steps|].log) == [op]
  {
    hide ReadsOf, Alone, Does;
    var a, s := AloneStarts(op);
    var b, t := AloneCommits(op);
    var c, u := AloneReads(op);
    RunsJoin(a, s, b, t);
    var ab := a + b[1..];
    assert ab[8] == b[4];
    RunsJoin(ab, s + t, c, u);
    var states := ab + c[1..];
    assert states[9] == c[1] && states[10] == c[2];
  }

  lemma EmptyLog()
    ensures WritesOf([]) == [] && ReadsOf([]) == []
  {
  }

  /** The worker's way to its end once the flag is cleared. */
  function Ahead(s: State): nat
  {
    match s.place
    case Exited => 0
    case Top => 1
    case Again => 2
    case Merging => 3
    case Reading => 4
    case Deciding => 5
    case Swapping => 6
    case Writing => 7 + |s.heldWrites|
    case WriteCommitted => 7 + |s.heldWrites|
    case ReadCommitted => 4
    case Starting => 1
    case Looking => 2
    case Waiting => 3
    case AboutToWait => 4
  }

  function ClosingAhead(c: Closing): nat
  {
    match c
    case Open => 3
    case FlagCleared => 2
    case QueuesCleared => 1
    case Notified => 0
  }

  /** After the flag is cleared every step but a new request brings the end nearer. */
  lemma ShutdownProgresses(s: State, step: Step)
    requires Inv(s) && !s.doIo && Enabled(s, step) && !step.AsyncRead? && !step.AsyncWrite?
    ensures var u := Apply(s, step);
            Ahead(u) + ClosingAhead(u.closing) + u.notifies < Ahead(s) + ClosingAhead(s.closing) + s.notifies
  {
    hide ReadsOf, WritesOf;
  }

  /** And until the worker has exited some step is possible without a spurious wake-up: the join returns. */
  lemma ShutdownNeverSticks(s: State) returns (step: Step)
    requires Inv(s) && !s.doIo && !s.place.Exited?
    ensures Enabled(s, step) && (step.Work? || step.Close?)
  {
    step := if s.place.Waiting? then Close else Work;
  }

  lemma {:induction false} ShutdownEnds(states: seq<State>, steps: seq<Step>)
    requires Run(states, steps) && Inv(states[0]) && !states[0].doIo
    requires forall step :: step in steps ==> !step.AsyncRead? && !step.AsyncWrite?
    ensures var (s, u) := (states[0], states[|steps|]);
            && Inv(u) && !u.doIo
            && |steps| + Ahead(u) + ClosingAhead(u.closing) + u.notifies <= Ahead(s) + ClosingAhead(s.closing) + s.notifies
    decreases |steps|
  {
    if steps != [] {
      var k := |steps| - 1;
      assert Does(states[k], steps[k], states[k + 1]);
      assert steps[k] in steps;
      ShutdownEnds(states[..k + 1], steps[..k]);
      hide Inv, Ahead, ClosingAhead;
      StepKeepsInvariant(states[k], steps[k]);
      FlagStepKeeps(states[k], steps[k]);
      ShutdownProgresses(states[k], steps[k]);
    }
  }
}
