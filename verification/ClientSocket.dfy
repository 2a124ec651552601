/** Who may close the client's socket: sends that nest under a recursive mutex, and stops from any thread.
    Each critical section under the socket mutex is one step. */
module ClientSocket {
  import opened Wrappers

  type Tid = nat

  /** Where a thread stands: in no call of `send`, or in one before `send_` opens, inside the request, after the
      request's result is known, after `send_` returned. */
  datatype Place = Idle | Opening | InRequest | Ending(ret: bool, closeConnection: bool) | Returned(ret: bool)

  /** `retried` says that this is the second call of `send_`. */
  datatype Frame = Frame(place: Place, retried: bool)

  datatype State = State(
    stacks: map<Tid, seq<Frame>>,
    requestOwner: Option<Tid>,
    requestDepth: nat,
    open: bool,
    inFlight: int,
    fromThread: Option<Tid>,
    closeWhenDone: bool)

  const INITIAL := State(map[], None, 0, false, 0, None, false)

  datatype Step =
    | Lock(t: Tid)
    | Open(t: Tid, alive: bool, connected: bool)
    | CloseInRequest(t: Tid)
    | Answer(t: Tid, ret: bool, closeConnection: bool)
    | Leave(t: Tid)
    | Retry(t: Tid)
    | Unlock(t: Tid)
    | Stop(t: Tid)

  function Stack(s: State, t: Tid): seq<Frame>
  {
    if t in s.stacks then s.stacks[t] else []
  }

  function Where(s: State, t: Tid): Place
  {
    var k := Stack(s, t);
    if k == [] then Idle else k[|k| - 1].place
  }

  function SetTop(s: State, t: Tid, p: Place): State
    requires Stack(s, t) != []
  {
    var k := Stack(s, t);
    s.(stacks := s.stacks[t := k[|k| - 1 := k[|k| - 1].(place := p)]])
  }

  function Push(s: State, t: Tid, f: Frame): State
  {
    s.(stacks := s.stacks[t := Stack(s, t) + [f]])
  }

  function Pop(s: State, t: Tid): State
    requires Stack(s, t) != []
  {
    var k := Stack(s, t);
    s.(stacks := s.stacks[t := k[..|k| - 1]])
  }

  predicate Enabled(s: State, step: Step)
  {
    match step
    case Lock(t) =>
      // a top-level call, or a nested one made while a request is being handled
      && (s.requestOwner == None || s.requestOwner == Some(t))
      && (Stack(s, t) == [] || Where(s, t).InRequest?)
    case Open(t, alive, connected) => Where(s, t).Opening? && (alive ==> s.open)
    case CloseInRequest(t) => Where(s, t).InRequest?
    case Answer(t, _, _) => Where(s, t).InRequest?
    case Leave(t) => Where(s, t).Ending?
    case Retry(t) =>
      Where(s, t).Returned? && !Where(s, t).ret && !s.stacks[t][|s.stacks[t]| - 1].retried
    case Unlock(t) => Where(s, t).Returned?
    case Stop(t) => true
  }

  /** The opening critical section of `send_`. */
  function DoOpen(s: State, t: Tid, alive: bool, connected: bool): State
    requires Enabled(s, Open(t, alive, connected))
  {
    var s1 := s.(closeWhenDone := false);
    var s2 := if s.open && !alive then s1.(open := false) else s1;
    if !alive && !connected then SetTop(s2, t, Returned(false))
    else SetTop(s2.(open := true, inFlight := s.inFlight + 1, fromThread := Some(t)), t, InRequest)
  }

  /** The closing critical section of `send_`. */
  function DoLeave(s: State, t: Tid): State
    requires Enabled(s, Leave(t))
  {
    var p := Where(s, t);
    var n := s.inFlight - 1;
    var s1 := s.(inFlight := n, fromThread := if n <= 0 then None else s.fromThread);
    var s2 := if s.closeWhenDone || p.closeConnection || !p.ret then s1.(open := false) else s1;
    SetTop(s2, t, Returned(p.ret))
  }

  function Apply(s: State, step: Step): State
    requires Enabled(s, step)
  {
    match step
    case Lock(t) =>
      Push(s.(requestOwner := Some(t), requestDepth := s.requestDepth + 1), t, Frame(Opening, false))
    case Open(t, alive, connected) => DoOpen(s, t, alive, connected)
    case CloseInRequest(t) => s.(open := false)
    case Answer(t, ret, closeConnection) => SetTop(s, t, Ending(ret, closeConnection))
    case Leave(t) => DoLeave(s, t)
    case Retry(t) =>
      var k := Stack(s, t);
      s.(stacks := s.stacks[t := k[|k| - 1 := Frame(Opening, true)]])
    case Unlock(t) =>
      var d := s.requestDepth - 1;
      Pop(s.(requestDepth := if d > 0 then d else 0, requestOwner := if d > 0 then s.requestOwner else None), t)
    case Stop(t) =>
      if s.inFlight > 0 then s.(closeWhenDone := true) else s.(open := false)
  }

  /** The assertion of shutdown_ssl and close_socket. */
  predicate MayClose(inFlight: int, fromThread: Option<Tid>, t: Tid)
  {
    inFlight == 0 || fromThread == Some(t)
  }

  /** Every assertion the step executes. */
  predicate AssertsHold(s: State, step: Step)
  {
    match step
    case Open(t, alive, connected) =>
      && (s.open && !alive ==> MayClose(s.inFlight, s.fromThread, t))
      && (s.inFlight > 1 ==> s.fromThread == Some(t))
    case CloseInRequest(t) => MayClose(s.inFlight, s.fromThread, t)
    case Leave(t) =>
      && s.inFlight - 1 >= 0
      && MayClose(s.inFlight - 1, if s.inFlight - 1 <= 0 then None else s.fromThread, t)
    case Stop(t) => s.inFlight > 0 || MayClose(s.inFlight, s.fromThread, t)
    case _ => true
  }

  function Counts(p: Place): nat
  {
    if p.InRequest? || p.Ending? then 1 else 0
  }

  /** The open `send_` frames of a stack. */
  function OpenFrames(k: seq<Frame>): nat
  {
    if k == [] then 0 else OpenFrames(k[..|k| - 1]) + Counts(k[|k| - 1].place)
  }

  /** Below the top every frame waits in its request for the nested one. */
  predicate Nested(k: seq<Frame>)
  {
    forall i :: 0 <= i < |k| - 1 ==> k[i].place.InRequest?
  }

  /** The protocol's invariant: only the holder of the request mutex has frames, and the count is the number of its
      open ones. */
  ghost predicate Inv(s: State)
  {
    && (forall t: Tid :: Stack(s, t) != [] ==> s.requestOwner == Some(t))
    && (forall t: Tid :: Nested(Stack(s, t)))
    && match s.requestOwner
       case None => s.requestDepth == 0 && s.inFlight == 0 && s.fromThread == None
       case Some(t) =>
         && s.requestDepth == |Stack(s, t)| > 0
         && s.inFlight == OpenFrames(Stack(s, t))
         && s.fromThread == if s.inFlight > 0 then Some(t) else None
  }

  lemma OpenFramesSnoc(k: seq<Frame>, f: Frame)
    ensures OpenFrames(k + [f]) == OpenFrames(k) + Counts(f.place)
  {
    assert (k + [f])[..|k|] == k;
  }

  lemma OpenFramesTop(k: seq<Frame>, f: Frame)
    requires k != []
    ensures OpenFrames(k[|k| - 1 := f]) == OpenFrames(k) - Counts(k[|k| - 1].place) + Counts(f.place)
  {
    assert k[|k| - 1 := f][..|k| - 1] == k[..|k| - 1];
  }

  /** The invariant for a state in which `t` holds the request mutex with stack `k`. */
  ghost predicate Holds(s: State, t: Tid, k: seq<Frame>)
  {
    && s.requestOwner == Some(t) && Stack(s, t) == k
    && (forall r: Tid :: r != t ==> Stack(s, r) == [])
    && Nested(k) && s.requestDepth == |k| > 0
    && s.inFlight == OpenFrames(k)
    && s.fromThread == if s.inFlight > 0 then Some(t) else None
  }

  lemma HoldsIsInv(s: State, t: Tid, k: seq<Frame>)
    ensures Holds(s, t, k) ==> Inv(s)
    ensures Inv(s) && s.requestOwner == Some(t) && Stack(s, t) == k ==> Holds(s, t, k)
  {
  }

  /** The top frame is counted, and only the owner counts. */
  lemma OpenIsCounted(s: State, t: Tid)
    requires Inv(s) && Stack(s, t) != []
    ensures s.requestOwner == Some(t) && s.inFlight >= Counts(Where(s, t))
    ensures s.fromThread == if s.inFlight > 0 then Some(t) else None
  {
  }

  lemma LockKeeps(s: State, t: Tid)
    requires Inv(s) && Enabled(s, Lock(t))
    ensures Inv(Apply(s, Lock(t)))
  {
    var (k, u, f) := (Stack(s, t), Apply(s, Lock(t)), Frame(Opening, false));
    OpenFramesSnoc(k, f);
    assert Stack(u, t) == k + [f];
    assert forall r: Tid :: r != t ==> Stack(u, r) == Stack(s, r);
    assert forall i :: 0 <= i < |k| ==> (k + [f])[i] == k[i];
    assert k != [] ==> k[|k| - 1].place == Where(s, t);
    HoldsIsInv(u, t, k + [f]);
  }

  lemma UnlockKeeps(s: State, t: Tid)
    requires Inv(s) && Enabled(s, Unlock(t))
    ensures Inv(Apply(s, Unlock(t)))
  {
    var (k, u) := (Stack(s, t), Apply(s, Unlock(t)));
    var below := k[..|k| - 1];
    HoldsIsInv(s, t, k);
    assert Stack(u, t) == below;
    assert forall r: Tid :: r != t ==> Stack(u, r) == Stack(s, r);
    assert forall i :: 0 <= i < |below| ==> below[i] == k[i];
    if below == [] {
      assert u.requestOwner == None && u.inFlight == 0;
    } else {
      HoldsIsInv(u, t, below);
    }
  }

  /** Replacing the top frame of the holder's stack, with the count following it. */
  lemma NewTopKeeps(s: State, u: State, t: Tid, f: Frame)
    requires Inv(s) && Stack(s, t) != []
    requires u.stacks == s.stacks[t := Stack(s, t)[|Stack(s, t)| - 1 := f]]
    requires u.requestOwner == s.requestOwner && u.requestDepth == s.requestDepth
    requires u.inFlight - s.inFlight == Counts(f.place) - Counts(Where(s, t))
    requires u.fromThread == if u.inFlight > 0 then Some(t) else None
    ensures Inv(u)
  {
    var k := Stack(s, t);
    var v := k[|k| - 1 := f];
    HoldsIsInv(s, t, k);
    OpenFramesTop(k, f);
    assert Stack(u, t) == v;
    assert forall r: Tid :: r != t ==> Stack(u, r) == Stack(s, r);
    assert forall i :: 0 <= i < |v| - 1 ==> v[i] == k[i];
    HoldsIsInv(u, t, v);
  }

  lemma TopStepKeeps(s: State, step: Step)
    requires Inv(s) && Enabled(s, step) && !step.Stop? && !step.Lock? && !step.Unlock?
    ensures AssertsHold(s, step) && Inv(Apply(s, step))
  {
    hide OpenFrames, Nested;
    var (t, u) := (step.t, Apply(s, step));
    var k := Stack(s, t);
    assert s.requestOwner == Some(t);
    match step
    case Open(_, _, _) => OpenIsCounted(s, t); NewTopKeeps(s, u, t, Stack(u, t)[|k| - 1]);
    case CloseInRequest(_) => OpenIsCounted(s, t); assert forall r: Tid :: Stack(u, r) == Stack(s, r);
    case Answer(_, _, _) => OpenIsCounted(s, t); NewTopKeeps(s, u, t, Stack(u, t)[|k| - 1]);
    case Leave(_) => OpenIsCounted(s, t); NewTopKeeps(s, u, t, Stack(u, t)[|k| - 1]);
    case Retry(_) => OpenIsCounted(s, t); NewTopKeeps(s, u, t, Stack(u, t)[|k| - 1]);
  }

  /** Every step keeps the invariant, and every assertion it executes holds. */
  lemma StepKeepsInvariant(s: State, step: Step)
    requires Inv(s) && Enabled(s, step)
    ensures AssertsHold(s, step) && Inv(Apply(s, step))
  {
    match step
    case Lock(t) => LockKeeps(s, t);
    case Unlock(t) => UnlockKeeps(s, t);
    case Stop(_) => assert Apply(s, step).stacks == s.stacks;
    case _ => TopStepKeeps(s, step);
  }

  /** While requests are in flight only the thread that makes them closes the socket. */
  lemma NoForeignClose(s: State, step: Step)
    requires Inv(s) && Enabled(s, step) && s.inFlight > 0 && s.open && !Apply(s, step).open
    ensures s.requestOwner == Some(step.t) && s.fromThread == Some(step.t)
  {
  }

  predicate Does(s: State, step: Step, u: State)
  {
    Enabled(s, step) && u == Apply(s, step)
  }

  /** The states of a run, one after each step. */
  ghost predicate Run(states: seq<State>, steps: seq<Step>)
  {
    && |states| == |steps| + 1
    && forall i :: 0 <= i < |steps| ==> Does(states[i], steps[i], states[i + 1])
  }

  /** In every run of any number of threads the invariant holds throughout and no assertion fails. */
  lemma {:induction false} RunsAreSafe(states: seq<State>, steps: seq<Step>)
    requires Run(states, steps) && states[0] == INITIAL
    ensures forall i :: 0 <= i < |states| ==> Inv(states[i])
    ensures forall i :: 0 <= i < |steps| ==> AssertsHold(states[i], steps[i])
    decreases |steps|
  {
    var n := |steps|;
    if n > 0 {
      RunsAreSafe(states[..n], steps[..n - 1]);
      assert Inv(states[..n][n - 1]);
      assert Does(states[n - 1], steps[n - 1], states[n]);
      StepKeepsInvariant(states[n - 1], steps[n - 1]);
      forall i | 0 <= i < |states| ensures Inv(states[i]) {
        if i < n { assert states[i] == states[..n][i]; }
      }
      forall i | 0 <= i < n ensures AssertsHold(states[i], steps[i]) {
        if i < n - 1 { assert steps[i] == steps[..n - 1][i] && states[i] == states[..n][i]; }
      }
    }
  }

  /** The last step that stopped a request or opened one, if any, was a stop. */
  predicate StopPending(states: seq<State>, steps: seq<Step>)
    requires |states| == |steps| + 1
    decreases |steps|
  {
    if steps == [] then false
    else
      var n := |steps| - 1;
      if steps[n].Open? then false
      else (steps[n].Stop? && states[n].inFlight > 0) || StopPending(states[..n + 1], steps[..n])
  }

  /** The flag says exactly that a request was stopped and no `send_` has begun since. */
  lemma {:induction false} FlagMeansStopPending(states: seq<State>, steps: seq<Step>)
    requires Run(states, steps) && states[0] == INITIAL
    ensures states[|steps|].closeWhenDone == StopPending(states, steps)
    decreases |steps|
  {
    if steps != [] {
      var n := |steps| - 1;
      FlagMeansStopPending(states[..n + 1], steps[..n]);
      assert states[..n + 1][n] == states[n];
      assert Does(states[n], steps[n], states[n + 1]);
    }
  }

  /** Leaving `send_` leaves the socket closed exactly when a stop is pending, the connection is not kept, the
      request failed, or it was closed already. */
  lemma LeaveCloses(states: seq<State>, steps: seq<Step>, t: Tid)
    requires Run(states, steps) && states[0] == INITIAL && Enabled(states[|steps|], Leave(t))
    ensures var s := states[|steps|];
            var p := Where(s, t);
            !Apply(s, Leave(t)).open <==> StopPending(states, steps) || p.closeConnection || !p.ret || !s.open
  {
    FlagMeansStopPending(states, steps);
  }

  /** From a stop during a request on, as long as no `send_` begins, the first `send_` to end closes the socket and it
      stays closed. */
  lemma {:induction false} StopClosesAtEnd(s: State, states: seq<State>, steps: seq<Step>, t: Tid)
    requires Inv(s) && s.inFlight > 0
    requires Run(states, steps) && states[0] == Apply(s, Stop(t))
    requires forall step :: step in steps ==> !step.Open?
    requires exists step :: step in steps && step.Leave?
    ensures !states[|steps|].open
    decreases |steps|
  {
    var n := |steps| - 1;
    FlagStays(states, steps, n);
    assert Does(states[n], steps[n], states[n + 1]);
    assert steps[n] in steps;
    if !steps[n].Leave? {
      assert forall step :: step in steps && step.Leave? ==> step in steps[..n];
      StopClosesAtEnd(s, states[..n + 1], steps[..n], t);
    }
  }

  lemma {:induction false} FlagStays(states: seq<State>, steps: seq<Step>, n: nat)
    requires Run(states, steps) && states[0].closeWhenDone && n <= |steps|
    requires forall step :: step in steps ==> !step.Open?
    ensures states[n].closeWhenDone
    decreases n
  {
    if n > 0 {
      FlagStays(states, steps, n - 1);
      assert Does(states[n - 1], steps[n - 1], states[n]);
      assert steps[n - 1] in steps;
    }
  }

  /** No later `send_` finds or makes a connection. */
  ghost predicate NeverConnects(steps: seq<Step>)
  {
    forall step :: step in steps && step.Open? ==> !step.alive && !step.connected
  }

  /** The socket is closed, or will be when the requests in flight have ended. */
  ghost predicate Stopped(s: State)
  {
    !s.open || (s.closeWhenDone && s.inFlight > 0)
  }

  lemma StepKeepsStopped(s: State, step: Step)
    requires Inv(s) && Stopped(s) && Enabled(s, step)
    requires step.Open? ==> !step.alive && !step.connected
    ensures Stopped(Apply(s, step)) && Inv(Apply(s, step))
  {
    hide Inv;
    StepKeepsInvariant(s, step);
  }

  lemma {:induction false} StaysStopped(states: seq<State>, steps: seq<Step>)
    requires Run(states, steps) && Inv(states[0]) && Stopped(states[0]) && NeverConnects(steps)
    ensures Inv(states[|steps|]) && Stopped(states[|steps|])
    decreases |steps|
  {
    hide Inv, Stopped, Does;
    if steps != [] {
      var n := |steps| - 1;
      assert Does(states[n], steps[n], states[n + 1]) && steps[n] in steps;
      StaysStopped(states[..n + 1], steps[..n]);
      StopStep(states[n], steps[n], states[n + 1]);
    }
  }

  lemma StopStep(s: State, step: Step, u: State)
    requires Inv(s) && Stopped(s) && Does(s, step, u)
    requires step.Open? ==> !step.alive && !step.connected
    ensures Inv(u) && Stopped(u)
  {
    StepKeepsStopped(s, step);
  }

  /** A stop of an idle client closes the socket at once, one during a request when no request is in flight any more;
      and it stays closed until a `send_` finds or makes a connection. */
  lemma StopCloses(states: seq<State>, steps: seq<Step>, i: nat)
    requires Run(states, steps) && states[0] == INITIAL && i < |steps| && steps[i].Stop?
    requires NeverConnects(steps[i + 1..])
    ensures states[|steps|].inFlight <= 0 ==> !states[|steps|].open
    ensures states[i].inFlight <= 0 ==> !states[i + 1].open && !states[|steps|].open
  {
    hide Inv;
    RunsAreSafe(states, steps);
    assert Does(states[i], steps[i], states[i + 1]);
    var (later, more) := (states[i + 1..], steps[i + 1..]);
    RunAfter(states, steps, i + 1);
    StaysStopped(later, more);
    if states[i].inFlight <= 0 { StaysClosed(later, more); }
  }

  lemma RunAfter(states: seq<State>, steps: seq<Step>, n: nat)
    requires Run(states, steps) && n <= |steps|
    ensures Run(states[n..], steps[n..])
  {
    hide Does;
    forall k | 0 <= k < |steps[n..]| ensures Does(states[n..][k], steps[n..][k], states[n..][k + 1]) {
      assert Does(states[n + k], steps[n + k], states[n + k + 1]);
    }
  }

  lemma {:induction false} StaysClosed(states: seq<State>, steps: seq<Step>)
    requires Run(states, steps) && !states[0].open && NeverConnects(steps)
    ensures !states[|steps|].open
    decreases |steps|
  {
    if steps != [] {
      var n := |steps| - 1;
      assert Does(states[n], steps[n], states[n + 1]) && steps[n] in steps;
      StaysClosed(states[..n + 1], steps[..n]);
    }
  }

  /** The state in which only thread 1 is inside `send`, with stack `k`. */
  function Alone(k: seq<Frame>, open: bool, inFlight: nat, closeWhenDone: bool): State
  {
    State(map[1 := k], Some(1), |k|, open, inFlight, if inFlight > 0 then Some(1) else None, closeWhenDone)
  }

  lemma AloneLock(k: seq<Frame>, n: nat, c: bool)
    requires k != [] && k[|k| - 1].place.InRequest?
    ensures Does(Alone(k, true, n, c), Lock(1), Alone(k + [Frame(Opening, false)], true, n, c))
  {
  }

  lemma AloneOpen(k: seq<Frame>, open: bool, n: nat, c: bool)
    ensures Does(Alone(k + [Frame(Opening, false)], open, n, c), Open(1, false, true),
                 Alone(k + [Frame(InRequest, false)], true, n + 1, false))
  {
    var top := k + [Frame(Opening, false)];
    assert top[|top| - 1 := Frame(InRequest, false)] == k + [Frame(InRequest, false)];
    assert map[1 := top][1 := k + [Frame(InRequest, false)]] == map[1 := k + [Frame(InRequest, false)]];
  }

  /** The request of the top frame ends well, with no stop pending. */
  lemma AloneEnds(k: seq<Frame>, n: nat, states: seq<State>, steps: seq<Step>)
    requires n > 0
    requires states == [Alone(k + [Frame(InRequest, false)], true, n, false),
                        Alone(k + [Frame(Ending(true, false), false)], true, n, false),
                        Alone(k + [Frame(Returned(true), false)], true, n - 1, false)]
    requires steps == [Answer(1, true, false), Leave(1)]
    ensures Run(states, steps)
  {
    var (a, b) := (k + [Frame(InRequest, false)], k + [Frame(Ending(true, false), false)]);
    var c := k + [Frame(Returned(true), false)];
    assert a[|k| := b[|k|]] == b && b[|k| := c[|k|]] == c;
    assert map[1 := a][1 := b] == map[1 := b] && map[1 := b][1 := c] == map[1 := c];
    assert Does(states[0], steps[0], states[1]);
    assert Does(states[1], steps[1], states[2]);
  }

  lemma AloneUnlock(k: seq<Frame>, n: nat)
    requires k != []
    ensures Does(Alone(k + [Frame(Returned(true), false)], true, n, false), Unlock(1), Alone(k, true, n, false))
  {
    var top := k + [Frame(Returned(true), false)];
    assert top[..|top| - 1] == k;
    assert map[1 := top][1 := k] == map[1 := k];
  }

  /** A nested send forgets the stop: thread 1 is stopped by thread 2, follows a redirect, and when its request has
      ended the socket is open. */
  lemma NestedSendForgetsStop()
    ensures exists states: seq<State>, steps: seq<Step> ::
              && Run(states, steps) && states[0] == INITIAL
              && (exists i :: 0 <= i < |steps| && steps[i] == Stop(2) && states[i].inFlight > 0)
              && states[|steps|].requestOwner == None && states[|steps|].inFlight == 0 && states[|steps|].open
  {
    hide Enabled, Apply;
    var (opening, inRequest, ending, returned) :=
      (Frame(Opening, false), Frame(InRequest, false), Frame(Ending(true, false), false), Frame(Returned(true), false));
    var steps := [Lock(1), Open(1, false, true), Stop(2), Lock(1), Open(1, false, true), Answer(1, true, false),
                  Leave(1), Unlock(1), Answer(1, true, false), Leave(1), Unlock(1)];
    var (one, two) := ([inRequest], [inRequest] + [inRequest]);
    var last := State(map[1 := []], None, 0, true, 0, None, false);
    var states := [
      INITIAL, Alone([] + [opening], false, 0, false), Alone([] + [inRequest], true, 1, false), Alone(one, true, 1, true),
      Alone(one + [opening], true, 1, true), Alone(two, true, 2, false),
      Alone(one + [ending], true, 2, false), Alone(one + [returned], true, 1, false),
      Alone([] + [inRequest], true, 1, false),
      Alone([] + [ending], true, 1, false), Alone([] + [returned], true, 0, false), last];
    assert [] + [inRequest] == one;
    FirstAndLast(last);
    AloneOpen([], false, 0, false);
    AloneLock(one, 1, true);
    AloneOpen(one, true, 1, true);
    AloneEnds(one, 2, states[5..8], steps[5..7]);
    AloneUnlock(one, 1);
    AloneEnds([], 1, states[8..11], steps[8..10]);
    assert Does(states[5..8][0], steps[5..7][0], states[5..8][1]) && Does(states[5..8][1], steps[5..7][1], states[5..8][2]);
    assert Does(states[8..11][0], steps[8..10][0], states[8..11][1])
        && Does(states[8..11][1], steps[8..10][1], states[8..11][2]);
    assert Run(states, steps);
    assert steps[2] == Stop(2) && states[2].inFlight == 1;
  }

  lemma FirstAndLast(last: State)
    requires last == State(map[1 := []], None, 0, true, 0, None, false)
    ensures Does(INITIAL, Lock(1), Alone([] + [Frame(Opening, false)], false, 0, false))
    ensures Does(Alone([] + [Frame(InRequest, false)], true, 1, false), Stop(2),
                 Alone([Frame(InRequest, false)], true, 1, true))
    ensures Does(Alone([] + [Frame(Returned(true), false)], true, 0, false), Unlock(1), last)
  {
    assert [] + [Frame(InRequest, false)] == [Frame(InRequest, false)];
  }
}
