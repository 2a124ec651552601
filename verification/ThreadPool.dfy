/** The worker pool: a job list under a mutex, a condition variable, and workers that check, wait, run and exit. Each
    critical section is one step; what was notified and not yet delivered is part of the state. */
module ThreadPool {
  import opened Wrappers

  type Job = nat

  datatype Place = Checking | Waiting | Running(job: Job) | Exited

  /** The last four fields only record the run: the jobs given, taken and done, and how many were given before the
      shutdown. */
  datatype State = State(
    jobs: seq<Job>,
    shutdown: bool,
    workers: seq<Place>,
    notifyOnes: nat,
    notifyAll: bool,
    enqueued: seq<Job>,
    started: seq<Job>,
    finished: seq<Job>,
    mark: nat)

  function Initial(workers: nat): State
  {
    State([], false, seq(workers, i => Checking), 0, false, [], [], [], 0)
  }

  datatype Step =
    | Enqueue(job: Job)
    | NotifyOne(woken: Option<nat>)
    | Check(w: nat)
    | Spurious(w: nat)
    | Finish(w: nat)
    | Shutdown
    | NotifyAll

  predicate At(s: State, w: nat, p: Place)
  {
    w < |s.workers| && s.workers[w] == p
  }

  predicate SomeAt(ws: seq<Place>, p: Place)
  {
    exists w :: 0 <= w < |ws| && ws[w] == p
  }

  predicate Enabled(s: State, step: Step)
  {
    match step
    case Enqueue(_) => true
    case NotifyOne(Some(w)) => s.notifyOnes > 0 && At(s, w, Waiting)
    case NotifyOne(None) => s.notifyOnes > 0 && !SomeAt(s.workers, Waiting)
    case Check(w) => At(s, w, Checking)
    case Spurious(w) => At(s, w, Waiting)
    case Finish(w) => w < |s.workers| && s.workers[w].Running?
    case Shutdown => !s.shutdown
    case NotifyAll => s.notifyAll
  }

  function WakeAll(ws: seq<Place>): (r: seq<Place>)
    ensures |r| == |ws| && !SomeAt(r, Waiting)
    ensures forall w :: 0 <= w < |ws| ==> r[w] == if ws[w].Waiting? then Checking else ws[w]
  {
    seq(|ws|, w requires 0 <= w < |ws| => if ws[w].Waiting? then Checking else ws[w])
  }

  /** The worker's turn under the mutex. */
  function DoCheck(s: State, w: nat): State
    requires Enabled(s, Check(w))
  {
    if s.jobs == [] && !s.shutdown then s.(workers := s.workers[w := Waiting])
    else if s.jobs == [] then s.(workers := s.workers[w := Exited])
    else s.(workers := s.workers[w := Running(s.jobs[0])], jobs := s.jobs[1..], started := s.started + [s.jobs[0]])
  }

  function Apply(s: State, step: Step): State
    requires Enabled(s, step)
  {
    match step
    case Enqueue(job) => s.(jobs := s.jobs + [job], notifyOnes := s.notifyOnes + 1, enqueued := s.enqueued + [job])
    case NotifyOne(Some(w)) => s.(notifyOnes := s.notifyOnes - 1, workers := s.workers[w := Checking])
    case NotifyOne(None) => s.(notifyOnes := s.notifyOnes - 1)
    case Check(w) => DoCheck(s, w)
    case Spurious(w) => s.(workers := s.workers[w := Checking])
    case Finish(w) => s.(workers := s.workers[w := Checking], finished := s.finished + [s.workers[w].job])
    case Shutdown => s.(shutdown := true, notifyAll := true, mark := |s.enqueued|)
    case NotifyAll => s.(notifyAll := false, workers := WakeAll(s.workers))
  }

  predicate Does(s: State, step: Step, u: State)
  {
    Enabled(s, step) && u == Apply(s, step)
  }

  ghost predicate Run(states: seq<State>, steps: seq<Step>)
  {
    && |states| == |steps| + 1
    && forall i :: 0 <= i < |steps| ==> Does(states[i], steps[i], states[i + 1])
  }

  function RunningJobs(ws: seq<Place>): multiset<Job>
  {
    if ws == [] then multiset{}
    else RunningJobs(ws[1..]) + Held(ws[0])
  }

  function Held(p: Place): multiset<Job>
  {
    if p.Running? then multiset{p.job} else multiset{}
  }

  /** The workers about to look at the job list. */
  function CheckingCount(ws: seq<Place>): nat
  {
    if ws == [] then 0 else CheckingCount(ws[1..]) + if ws[0].Checking? then 1 else 0
  }

  /** How far the workers are from their exit. */
  function Distance(ws: seq<Place>): nat
  {
    if ws == [] then 0 else Distance(ws[1..]) + Weight(ws[0])
  }

  function Weight(p: Place): nat
  {
    match p
    case Exited => 0
    case Checking => 2
    case Running(_) => 3
    case Waiting => 3
  }

  /** Jobs are taken in order; each is queued, held by a worker or done; no queued job lacks a wake-up while a worker
      sleeps; and nobody sleeps through the shutdown or exits while jobs given before it are left. */
  ghost predicate Inv(s: State)
  {
    && s.enqueued == s.started + s.jobs
    && multiset(s.started) == RunningJobs(s.workers) + multiset(s.finished)
    && (SomeAt(s.workers, Waiting) ==> |s.jobs| <= s.notifyOnes + CheckingCount(s.workers))
    && (SomeAt(s.workers, Waiting) && s.shutdown ==> s.notifyAll)
    && (SomeAt(s.workers, Exited) ==> s.shutdown && s.mark <= |s.started|)
    && s.mark <= |s.enqueued|
  }

  lemma Exchange(rest: multiset<Job>, a: multiset<Job>, b: multiset<Job>, c: multiset<Job>)
    requires b <= rest
    ensures rest - b + c + a == rest + a - b + c
  {
  }

  lemma ExchangeSame(rest: multiset<Job>, a: multiset<Job>, c: multiset<Job>)
    ensures rest + c == rest + a - a + c
  {
  }

  lemma {:induction false} UpdateRunning(ws: seq<Place>, w: nat, p: Place)
    requires w < |ws|
    ensures Held(ws[w]) <= RunningJobs(ws)
    ensures RunningJobs(ws[w := p]) == RunningJobs(ws) - Held(ws[w]) + Held(p)
  {
    hide Held;
    var v := ws[w := p];
    var rest := RunningJobs(ws[1..]);
    if w == 0 {
      assert v[1..] == ws[1..];
      ExchangeSame(rest, Held(ws[0]), Held(p));
    } else {
      assert v[1..] == ws[1..][w - 1 := p];
      UpdateRunning(ws[1..], w - 1, p);
      Exchange(rest, Held(ws[0]), Held(ws[w]), Held(p));
    }
  }

  lemma {:induction false} UpdateSums(ws: seq<Place>, w: nat, p: Place)
    requires w < |ws|
    ensures CheckingCount(ws[w := p]) + (if ws[w].Checking? then 1 else 0)
         == CheckingCount(ws) + if p.Checking? then 1 else 0
    ensures Distance(ws[w := p]) + Weight(ws[w]) == Distance(ws) + Weight(p)
  {
    hide Weight;
    var v := ws[w := p];
    if w == 0 {
      assert v[1..] == ws[1..];
    } else {
      assert v[1..] == ws[1..][w - 1 := p];
      UpdateSums(ws[1..], w - 1, p);
    }
  }

  /** A worker that held no job holds none afterwards. */
  lemma KeepsRunning(ws: seq<Place>, w: nat, p: Place)
    requires w < |ws| && !ws[w].Running? && !p.Running?
    ensures RunningJobs(ws[w := p]) == RunningJobs(ws)
  {
    UpdateRunning(ws, w, p);
    assert RunningJobs(ws) - multiset{} + multiset{} == RunningJobs(ws);
  }

  lemma {:induction false} WakeAllSums(ws: seq<Place>)
    ensures RunningJobs(WakeAll(ws)) == RunningJobs(ws)
    ensures Distance(WakeAll(ws)) <= Distance(ws)
  {
    if ws != [] {
      assert WakeAll(ws)[1..] == WakeAll(ws[1..]);
      WakeAllSums(ws[1..]);
    }
  }

  lemma {:induction false} InitialKeeps(n: nat)
    ensures Inv(Initial(n))
  {
    NoneRunning(Initial(n).workers);
  }

  lemma {:induction false} NoneRunning(ws: seq<Place>)
    requires forall w :: 0 <= w < |ws| ==> !ws[w].Running?
    ensures RunningJobs(ws) == multiset{}
  {
    if ws != [] { NoneRunning(ws[1..]); }
  }

  lemma CheckKeeps(s: State, w: nat)
    requires Inv(s) && Enabled(s, Check(w))
    ensures Inv(Apply(s, Check(w)))
  {
    hide RunningJobs, CheckingCount, Distance;
    var u := Apply(s, Check(w));
    UpdateSums(s.workers, w, u.workers[w]);
    if s.jobs == [] {
      KeepsRunning(s.workers, w, u.workers[w]);
      assert s.enqueued == s.started;
      assert forall v :: 0 <= v < |s.workers| && v != w ==> u.workers[v] == s.workers[v];
    } else {
      TakeKeeps(s, w);
      Elsewhere(s.workers, u.workers, w, Running(s.jobs[0]));
    }
  }

  lemma TakeKeeps(s: State, w: nat)
    requires Inv(s) && Enabled(s, Check(w)) && s.jobs != []
    ensures var u := Apply(s, Check(w));
            && u.enqueued == u.started + u.jobs
            && multiset(u.started) == RunningJobs(u.workers) + multiset(u.finished)
  {
    hide RunningJobs, CheckingCount, Distance;
    var j := s.jobs[0];
    assert s.jobs == [j] + s.jobs[1..];
    assert s.started + ([j] + s.jobs[1..]) == (s.started + [j]) + s.jobs[1..];
    UpdateRunning(s.workers, w, Running(j));
    var (r, f) := (RunningJobs(s.workers), multiset(s.finished));
    assert multiset(s.started + [j]) == multiset(s.started) + multiset{j};
    assert (r + f) + multiset{j} == (r - multiset{} + multiset{j}) + f;
  }

  lemma Moved(r: multiset<Job>, f: multiset<Job>, j: multiset<Job>)
    requires j <= r
    ensures (r - j + multiset{}) + (f + j) == r + f
  {
  }

  lemma FinishKeeps(s: State, w: nat)
    requires Inv(s) && Enabled(s, Finish(w))
    ensures var u := Apply(s, Finish(w));
            multiset(u.started) == RunningJobs(u.workers) + multiset(u.finished)
  {
    hide RunningJobs, CheckingCount, Distance;
    var j := s.workers[w].job;
    UpdateRunning(s.workers, w, Checking);
    var (r, f) := (RunningJobs(s.workers), multiset(s.finished));
    assert multiset(s.finished + [j]) == f + multiset{j};
    Moved(r, f, multiset{j});
  }

  lemma OtherStepKeeps(s: State, step: Step)
    requires Inv(s) && Enabled(s, step) && !step.Check?
    ensures Inv(Apply(s, step))
  {
    hide RunningJobs, CheckingCount, Distance;
    var u := Apply(s, step);
    match step
    case Enqueue(job) => assert (s.started + s.jobs) + [job] == s.started + (s.jobs + [job]);
    case NotifyOne(Some(w)) => WokenKeeps(s, u, w);
    case NotifyOne(None) =>
    case Spurious(w) => WokenKeeps(s, u, w);
    case Finish(w) =>
      FinishKeeps(s, w);
      UpdateSums(s.workers, w, Checking);
      Elsewhere(s.workers, u.workers, w, Checking);
    case Shutdown =>
    case NotifyAll => WakeAllSums(s.workers); assert SomeAt(u.workers, Exited) ==> SomeAt(s.workers, Exited);
  }

  lemma WokenKeeps(s: State, u: State, w: nat)
    requires Inv(s) && At(s, w, Waiting) && u.notifyOnes + 1 >= s.notifyOnes
    requires u == s.(workers := s.workers[w := Checking], notifyOnes := u.notifyOnes)
    ensures Inv(u)
  {
    hide RunningJobs, CheckingCount, Distance;
    KeepsRunning(s.workers, w, Checking);
    UpdateSums(s.workers, w, Checking);
    Elsewhere(s.workers, u.workers, w, Checking);
  }

  lemma Elsewhere(ws: seq<Place>, vs: seq<Place>, w: nat, p: Place)
    requires w < |ws| && vs == ws[w := p] && !p.Waiting? && !p.Exited?
    ensures SomeAt(vs, Waiting) ==> SomeAt(ws, Waiting)
    ensures SomeAt(vs, Exited) ==> SomeAt(ws, Exited)
  {
    assert forall v :: 0 <= v < |ws| && v != w ==> vs[v] == ws[v];
  }

  /** Every step of every interleaving keeps the invariant. */
  lemma StepKeepsInvariant(s: State, step: Step)
    requires Inv(s) && Enabled(s, step)
    ensures Inv(Apply(s, step))
  {
    if step.Check? { CheckKeeps(s, step.w); } else { OtherStepKeeps(s, step); }
  }

  lemma {:induction false} RunsKeepInvariant(states: seq<State>, steps: seq<Step>, n: nat)
    requires Run(states, steps) && states[0] == Initial(n)
    ensures Inv(states[|steps|]) && |states[|steps|].workers| == n
    decreases |steps|
  {
    if steps == [] {
      InitialKeeps(n);
    } else {
      var k := |steps| - 1;
      assert Does(states[k], steps[k], states[k + 1]);
      RunsKeepInvariant(states[..k + 1], steps[..k], n);
      hide Inv;
      StepKeepsInvariant(states[k], steps[k]);
    }
  }

  /** When all workers have exited the jobs done are the first ones given, at least all those from before the
      shutdown; so all jobs, unless some were given later. */
  lemma ExitedMeansDone(states: seq<State>, steps: seq<Step>, n: nat)
    requires Run(states, steps) && states[0] == Initial(n) && n > 0
    requires forall w :: 0 <= w < n && w < |states[|steps|].workers| ==> states[|steps|].workers[w] == Exited
    ensures var s := states[|steps|];
            && s.mark <= |s.started| <= |s.enqueued|
            && multiset(s.finished) == multiset(s.enqueued[..|s.started|])
            && (s.mark == |s.enqueued| ==> multiset(s.finished) == multiset(s.enqueued))
  {
    var s := states[|steps|];
    RunsKeepInvariant(states, steps, n);
    NoneRunning(s.workers);
    assert s.workers[0] == Exited;
    assert s.enqueued[..|s.started|] == s.started;
  }

  /** A shutdown is remembered with the jobs given before it. */
  lemma {:induction false} MarkStays(states: seq<State>, steps: seq<Step>, i: nat)
    requires Run(states, steps) && i < |steps| && steps[i].Shutdown?
    ensures var (s, u) := (states[i], states[|steps|]);
            u.shutdown && u.mark == |s.enqueued| && s.enqueued <= u.enqueued
    decreases |steps|
  {
    var k := |steps| - 1;
    assert Does(states[k], steps[k], states[k + 1]);
    if i < k { MarkStays(states[..k + 1], steps[..k], i); }
  }

  /** Once all workers have exited, every job given before the shutdown has run. */
  lemma GivenBeforeIsDone(states: seq<State>, steps: seq<Step>, n: nat, i: nat)
    requires Run(states, steps) && states[0] == Initial(n) && n > 0 && i < |steps| && steps[i].Shutdown?
    requires forall w :: 0 <= w < n && w < |states[|steps|].workers| ==> states[|steps|].workers[w] == Exited
    ensures multiset(states[i].enqueued) <= multiset(states[|steps|].finished)
  {
    var (given, u) := (states[i].enqueued, states[|steps|]);
    ExitedMeansDone(states, steps, n);
    MarkStays(states, steps, i);
    var done := u.enqueued[..|u.started|];
    assert done == given + done[|given|..];
  }

  /** No wake-up is lost: when nothing is left to happen by itself, no job is queued. */
  lemma QuietMeansEmpty(s: State)
    requires Inv(s) && s.workers != [] && s.notifyOnes == 0 && !SomeAt(s.workers, Checking)
    requires forall w :: 0 <= w < |s.workers| ==> !s.workers[w].Running?
    requires !s.shutdown
    ensures s.jobs == [] && multiset(s.finished) == multiset(s.enqueued)
  {
    NoneChecking(s.workers);
    NoneRunning(s.workers);
    assert s.workers[0] != Exited && s.workers[0] != Checking;
    assert s.workers[0] == Waiting;
  }

  lemma {:induction false} NoneChecking(ws: seq<Place>)
    requires !SomeAt(ws, Checking)
    ensures CheckingCount(ws) == 0
  {
    if ws != [] {
      assert ws[0] != Checking;
      assert forall w :: 0 <= w < |ws[1..]| ==> ws[1..][w] == ws[w + 1];
      NoneChecking(ws[1..]);
    }
  }

  /** What is left to do once the shutdown began. */
  function Remaining(s: State): nat
  {
    2 * |s.jobs| + Distance(s.workers) + s.notifyOnes + if s.notifyAll then 1 else 0
  }

  /** After the shutdown every step that gives no new job brings its end nearer. */
  lemma ShutdownProgresses(s: State, step: Step)
    requires Inv(s) && s.shutdown && Enabled(s, step) && !step.Enqueue?
    ensures Apply(s, step).shutdown && Remaining(Apply(s, step)) < Remaining(s)
  {
    hide RunningJobs, CheckingCount, Distance;
    var u := Apply(s, step);
    match step
    case NotifyOne(Some(w)) => UpdateSums(s.workers, w, Checking);
    case NotifyOne(None) =>
    case Check(w) => UpdateSums(s.workers, w, u.workers[w]);
    case Spurious(w) => UpdateSums(s.workers, w, Checking);
    case Finish(w) => UpdateSums(s.workers, w, Checking);
    case NotifyAll => WakeAllSums(s.workers);
  }

  /** And some step is possible, other than a spurious wake-up, until all workers have exited. */
  lemma ShutdownNeverSticks(s: State) returns (step: Step)
    requires Inv(s) && s.shutdown
    requires exists w :: 0 <= w < |s.workers| && s.workers[w] != Exited
    ensures Enabled(s, step) && !step.Enqueue? && !step.Shutdown? && !step.Spurious?
  {
    var w :| 0 <= w < |s.workers| && s.workers[w] != Exited;
    match s.workers[w]
    case Waiting => assert SomeAt(s.workers, Waiting); step := NotifyAll;
    case Checking => step := Check(w);
    case Running(_) => step := Finish(w);
  }

  /** Hence the joins return: a run without new jobs has at most `Remaining` steps after the shutdown. */
  lemma {:induction false} ShutdownEnds(states: seq<State>, steps: seq<Step>)
    requires Run(states, steps) && Inv(states[0]) && states[0].shutdown
    requires forall step :: step in steps ==> !step.Enqueue?
    ensures |steps| + Remaining(states[|steps|]) <= Remaining(states[0])
    ensures Inv(states[|steps|]) && states[|steps|].shutdown
    decreases |steps|
  {
    if steps != [] {
      var k := |steps| - 1;
      assert Does(states[k], steps[k], states[k + 1]);
      assert steps[k] in steps;
      ShutdownEnds(states[..k + 1], steps[..k]);
      StepKeepsInvariant(states[k], steps[k]);
      ShutdownProgresses(states[k], steps[k]);
    }
  }

  /** A job given after the shutdown may be lost. */
  lemma LateJobIsLost(job: Job)
    ensures exists states: seq<State>, steps: seq<Step> ::
              && Run(states, steps) && states[0] == Initial(1)
              && states[|steps|].workers == [Exited] && states[|steps|].jobs == [job] && states[|steps|].finished == []
  {
    var s0 := Initial(1);
    var s1 := Apply(s0, Shutdown);
    var s2 := Apply(s1, Check(0));
    var s3 := Apply(s2, Enqueue(job));
    var (states, steps) := ([s0, s1, s2, s3], [Shutdown, Check(0), Enqueue(job)]);
    assert Run(states, steps);
    assert s3.workers == [Exited] && s3.jobs == [job];
  }
}
