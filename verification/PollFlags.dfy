/** The stop flags of several listeners in one process. Each reads its own flag, then the shared one, and reading a
    flag sets it again. */
module PollFlags {
  datatype State = State(keep: seq<bool>, shared: bool, running: seq<bool>)

  datatype Step = Guard(i: nat) | Stop(i: nat) | StopAll

  predicate Enabled(s: State, step: Step)
  {
    && |s.keep| == |s.running|
    && match step
       case Guard(i) => i < |s.running| && s.running[i]
       case Stop(i) => i < |s.keep|
       case StopAll => true
  }

  /** Listener `i` evaluates the condition of its loop. */
  function Apply(s: State, step: Step): State
    requires Enabled(s, step)
  {
    match step
    case Guard(i) =>
      if !s.keep[i] then s.(keep := s.keep[i := true], running := s.running[i := false])
      else if !s.shared then s.(shared := true, running := s.running[i := false])
      else s
    case Stop(i) => s.(keep := s.keep[i := false])
    case StopAll => s.(shared := false)
  }

  predicate Does(s: State, step: Step, u: State)
  {
    Enabled(s, step) && u == Apply(s, step)
  }

  ghost predicate Run(states: seq<State>, steps: seq<Step>)
  {
    && |states| == |steps| + 1
    && forall i :: 0 <= i < |steps| ==> Does(states[i], steps[i], states[i + 1])
  }

  function Trues(bs: seq<bool>): nat
  {
    if bs == [] then 0 else Trues(bs[1..]) + if bs[0] then 1 else 0
  }

  lemma {:induction false} TruesUpdate(bs: seq<bool>, i: nat, b: bool)
    requires i < |bs|
    ensures Trues(bs[i := b]) + (if bs[i] then 1 else 0) == Trues(bs) + if b then 1 else 0
  {
    if i == 0 {
      assert bs[i := b][1..] == bs[1..];
    } else {
      assert bs[i := b][1..] == bs[1..][i - 1 := b];
      TruesUpdate(bs[1..], i - 1, b);
    }
  }

  /** Ending a listener uses up one cleared flag: their sum. */
  function Sum(s: State): nat
  {
    Trues(s.running) + Trues(s.keep) + if s.shared then 1 else 0
  }

  /** The calls of stop and stop_all in a run. */
  function Calls(steps: seq<Step>): nat
  {
    if steps == [] then 0 else Calls(steps[..|steps| - 1]) + if steps[|steps| - 1].Guard? then 0 else 1
  }

  /** A loop condition keeps the sum, and a call lowers it by at most one. */
  lemma StepSpends(s: State, step: Step)
    requires Enabled(s, step)
    ensures var d := Sum(s) - Sum(Apply(s, step)); if step.Guard? then d == 0 else 0 <= d <= 1
  {
    hide Trues;
    if step.Guard? {
      TruesUpdate(s.keep, step.i, true);
      TruesUpdate(s.running, step.i, false);
    } else if step.Stop? {
      TruesUpdate(s.keep, step.i, false);
    }
  }

  lemma {:induction false} TruesBound(bs: seq<bool>)
    ensures Trues(bs) <= |bs|
    ensures (forall i :: 0 <= i < |bs| ==> bs[i]) ==> Trues(bs) == |bs|
  {
    if bs != [] {
      assert forall i :: 0 <= i < |bs| - 1 ==> bs[1..][i] == bs[i + 1];
      TruesBound(bs[1..]);
    }
  }

  lemma {:induction false} SumFalls(states: seq<State>, steps: seq<Step>)
    requires Run(states, steps)
    ensures Sum(states[|steps|]) >= Sum(states[0]) - Calls(steps)
    ensures |states[|steps|].keep| == |states[0].keep|
    decreases |steps|
  {
    if steps != [] {
      var n := |steps| - 1;
      assert Does(states[n], steps[n], states[n + 1]);
      SumFalls(states[..n + 1], steps[..n]);
      StepSpends(states[n], steps[n]);
    }
  }

  predicate AllSet(s: State, n: nat)
  {
    && |s.keep| == |s.running| == n && s.shared
    && (forall i :: 0 <= i < n ==> s.keep[i] && s.running[i])
  }

  /** No call ends more than one listener. */
  lemma EachCallEndsOne(states: seq<State>, steps: seq<Step>, n: nat)
    requires Run(states, steps) && AllSet(states[0], n)
    ensures Trues(states[|steps|].running) >= n - Calls(steps)
  {
    SumFalls(states, steps);
    TruesBound(states[0].running);
    TruesBound(states[0].keep);
    TruesBound(states[|steps|].keep);
  }

  /** So one stop_all, however often the listeners then evaluate their conditions, ends exactly one of them: all of
      them only when there is one. */
  lemma {:induction false} StopAllEndsOne(states: seq<State>, steps: seq<Step>, n: nat)
    requires Run(states, steps) && AllSet(states[0], n)
    requires |steps| >= 2 && steps[0].StopAll? && forall i :: 1 <= i < |steps| ==> steps[i].Guard?
    ensures var s := states[|steps|];
            && |s.keep| == |s.running| == n && s.shared && (forall i :: 0 <= i < n ==> s.keep[i])
            && Trues(s.running) == n - 1
    ensures true !in states[|steps|].running <==> n == 1
    decreases |steps|
  {
    var k := |steps| - 1;
    assert Does(states[0], steps[0], states[1]);
    assert Does(states[k], steps[k], states[k + 1]);
    TruesBound(states[0].running);
    if k > 1 { StopAllEndsOne(states[..k + 1], steps[..k], n); }
    TruesUpdate(states[k].running, steps[k].i, false);
    NoneTrue(states[|steps|].running);
  }

  lemma {:induction false} NoneTrue(bs: seq<bool>)
    ensures Trues(bs) == 0 <==> true !in bs
  {
    if bs != [] {
      assert bs == [bs[0]] + bs[1..];
      NoneTrue(bs[1..]);
    }
  }
}
