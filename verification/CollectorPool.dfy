/**
 * One collection cycle: the interleavings of collectCycle's main loop with its worker goroutines in
 * server/controllers/channels.go. A channel or wait-group operation is one step.
 */
module CollectorPool {
  const WORKERS: nat := 8

  /** Where the main goroutine is; `job` indexes the loop over jobs. */
  datatype Main = Adding(job: nat) | Acquiring(job: nat) | Spawning(job: nat) | Waiting | Returned

  /**
   * A worker goroutine: not yet started, about to try its host's gate, collecting, returned from
   * collectHost, semaphore slot released, wait group told.
   */
  datatype Worker = Unborn | Ready | Collecting | Leaving | Released | Done

  /** `gates` are the hosts whose one-slot channel is full; `attempts` the jobs that got through one. */
  datatype State = State(main: Main, workers: seq<Worker>, sem: nat, wg: nat, gates: set<nat>, attempts: set<nat>)

  datatype Step = Add | Acquire | Spawn | EndLoop | WaitReturns
    | Enter(k: nat) | Skip(k: nat) | Finish(k: nat) | ReleaseSlot(k: nat) | TellDone(k: nat)

  function Start(n: nat): State {
    State(if n == 0 then Returned else Adding(0), seq(n, _ => Unborn), 0, 0, {}, {})
  }

  function Move(s: State, k: nat, w: Worker): State
    requires k < |s.workers|
  {
    s.(workers := s.workers[k := w])
  }

  /** `hosts[k]` is the host of job `k`. */
  ghost predicate Enabled(hosts: seq<nat>, s: State, e: Step)
    requires |s.workers| == |hosts|
  {
    match e
    case Add => s.main.Adding? && s.main.job < |hosts|
    case Acquire => s.main.Acquiring? && s.sem < WORKERS
    case Spawn => s.main.Spawning? && s.main.job < |hosts|
    case EndLoop => s.main.Adding? && s.main.job >= |hosts|
    case WaitReturns => s.main.Waiting? && s.wg == 0
    case Enter(k) => k < |hosts| && s.workers[k].Ready? && hosts[k] !in s.gates
    case Skip(k) => k < |hosts| && s.workers[k].Ready? && hosts[k] in s.gates
    case Finish(k) => k < |hosts| && s.workers[k].Collecting?
    case ReleaseSlot(k) => k < |hosts| && s.workers[k].Leaving? && s.sem > 0
    case TellDone(k) => k < |hosts| && s.workers[k].Released? && s.wg > 0
  }

  ghost function Apply(hosts: seq<nat>, s: State, e: Step): State
    requires |s.workers| == |hosts| && Enabled(hosts, s, e)
  {
    match e
    case Add => s.(main := Acquiring(s.main.job), wg := s.wg + 1)
    case Acquire => s.(main := Spawning(s.main.job), sem := s.sem + 1)
    case Spawn => Move(s, s.main.job, Ready).(main := Adding(s.main.job + 1))
    case EndLoop => s.(main := Waiting)
    case WaitReturns => s.(main := Returned)
    case Enter(k) => Move(s, k, Collecting).(gates := s.gates + {hosts[k]}, attempts := s.attempts + {k})
    case Skip(k) => Move(s, k, Leaving)
    case Finish(k) => Move(s, k, Leaving).(gates := s.gates - {hosts[k]})
    case ReleaseSlot(k) => Move(s, k, Released).(sem := s.sem - 1)
    case TellDone(k) => Move(s, k, Done).(wg := s.wg - 1)
  }

  ghost predicate Run(hosts: seq<nat>, states: seq<State>, steps: seq<Step>) {
    && |states| == |steps| + 1
    && states[0] == Start(|hosts|)
    && forall i {:trigger steps[i]} :: 0 <= i < |steps| ==>
         |states[i].workers| == |hosts| && Enabled(hosts, states[i], steps[i])
         && states[i + 1] == Apply(hosts, states[i], steps[i])
  }

  // ---------------------------------------------------------------- counting workers

  /** Between acquiring its slot and releasing it. */
  predicate HoldsSlot(w: Worker) {
    w.Ready? || w.Collecting? || w.Leaving?
  }

  predicate Alive(w: Worker) {
    HoldsSlot(w) || w.Released?
  }

  function Count(ws: seq<Worker>, p: Worker -> bool): nat {
    if ws == [] then 0 else Count(ws[..|ws| - 1], p) + if p(ws[|ws| - 1]) then 1 else 0
  }

  lemma {:induction false} CountUpdate(ws: seq<Worker>, k: nat, w: Worker, p: Worker -> bool)
    requires k < |ws|
    ensures Count(ws[k := w], p) + (if p(ws[k]) then 1 else 0) == Count(ws, p) + if p(w) then 1 else 0
  {
    var vs := ws[k := w];
    if k == |ws| - 1 {
      assert vs[..k] == ws[..k];
    } else {
      CountUpdate(ws[..|ws| - 1], k, w, p);
      assert vs[..|ws| - 1] == ws[..|ws| - 1][k := w];
    }
  }

  lemma {:induction false} CountPositive(ws: seq<Worker>, p: Worker -> bool) returns (k: nat)
    requires Count(ws, p) > 0
    ensures k < |ws| && p(ws[k])
  {
    if p(ws[|ws| - 1]) {
      k := |ws| - 1;
    } else {
      k := CountPositive(ws[..|ws| - 1], p);
    }
  }

  lemma {:induction false} CountZero(ws: seq<Worker>, p: Worker -> bool)
    ensures Count(ws, p) == 0 <==> forall k :: 0 <= k < |ws| ==> !p(ws[k])
  {
    if ws != [] {
      CountZero(ws[..|ws| - 1], p);
      assert ws == ws[..|ws| - 1] + [ws[|ws| - 1]];
    }
  }

  lemma {:induction false} CountMonotone(ws: seq<Worker>, p: Worker -> bool, q: Worker -> bool)
    requires forall w :: p(w) ==> q(w)
    ensures Count(ws, p) <= Count(ws, q)
  {
    if ws != [] { CountMonotone(ws[..|ws| - 1], p, q); }
  }

  // ---------------------------------------------------------------- the invariant

  /** The number of jobs whose goroutine has been started. */
  function Started(s: State): nat {
    match s.main
    case Adding(i) => i
    case Acquiring(i) => i
    case Spawning(i) => i
    case Waiting => |s.workers|
    case Returned => |s.workers|
  }

  ghost predicate Attempted(hosts: seq<nat>, s: State, h: nat) {
    exists a :: a in s.attempts && a < |hosts| && hosts[a] == h
  }

  /** The semaphore and the wait group count what they are for. */
  ghost predicate Counted(s: State) {
    && s.sem == Count(s.workers, HoldsSlot) + (if s.main.Spawning? then 1 else 0)
    && s.sem <= WORKERS
    && s.wg == Count(s.workers, Alive) + (if s.main.Acquiring? || s.main.Spawning? then 1 else 0)
  }

  /** A host's gate is full exactly while one worker collects from it. */
  ghost predicate Gated(hosts: seq<nat>, s: State)
    requires |s.workers| == |hosts|
  {
    && (forall h :: h in s.gates <==> exists k :: 0 <= k < |hosts| && s.workers[k].Collecting? && hosts[k] == h)
    && (forall j, k :: 0 <= j < k < |hosts| && s.workers[j].Collecting? && s.workers[k].Collecting? ==> hosts[j] != hosts[k])
  }

  ghost predicate Inv(hosts: seq<nat>, s: State) {
    && |s.workers| == |hosts|
    && Started(s) <= |hosts|
    && (s.main.Acquiring? || s.main.Spawning? ==> s.main.job < |hosts|)
    && (forall k :: 0 <= k < |hosts| ==> (s.workers[k].Unborn? <==> k >= Started(s)))
    && Counted(s) && Gated(hosts, s)
    && (forall k :: 0 <= k < |hosts| && !s.workers[k].Unborn? && !s.workers[k].Ready? ==> Attempted(hosts, s, hosts[k]))
    && (s.main.Returned? ==> s.wg == 0)
  }

  lemma StartInv(hosts: seq<nat>)
    ensures Inv(hosts, Start(|hosts|))
  {
    var s := Start(|hosts|);
    CountZero(s.workers, HoldsSlot);
    CountZero(s.workers, Alive);
  }

  lemma StepKeepsCounted(hosts: seq<nat>, s: State, e: Step)
    requires Inv(hosts, s) && Enabled(hosts, s, e)
    ensures Counted(Apply(hosts, s, e))
  {
    var s' := Apply(hosts, s, e);
    match e
    case Spawn => BothCounts(s.workers, s.main.job, Ready);
    case Enter(k) => BothCounts(s.workers, k, Collecting);
    case Skip(k) => BothCounts(s.workers, k, Leaving);
    case Finish(k) => BothCounts(s.workers, k, Leaving);
    case ReleaseSlot(k) => BothCounts(s.workers, k, Released);
    case TellDone(k) => BothCounts(s.workers, k, Done);
    case _ =>
  }

  lemma BothCounts(ws: seq<Worker>, k: nat, w: Worker)
    requires k < |ws|
    ensures Count(ws[k := w], HoldsSlot) + (if HoldsSlot(ws[k]) then 1 else 0)
         == Count(ws, HoldsSlot) + if HoldsSlot(w) then 1 else 0
    ensures Count(ws[k := w], Alive) + (if Alive(ws[k]) then 1 else 0)
         == Count(ws, Alive) + if Alive(w) then 1 else 0
  {
    CountUpdate(ws, k, w, HoldsSlot);
    CountUpdate(ws, k, w, Alive);
  }

  lemma StepKeepsGated(hosts: seq<nat>, s: State, e: Step)
    requires Inv(hosts, s) && Enabled(hosts, s, e)
    ensures |Apply(hosts, s, e).workers| == |hosts| && Gated(hosts, Apply(hosts, s, e))
  {
    var s' := Apply(hosts, s, e);
    forall h
      ensures h in s'.gates <==> exists k :: 0 <= k < |hosts| && s'.workers[k].Collecting? && hosts[k] == h
    {
      if k :| 0 <= k < |hosts| && s.workers[k].Collecting? && hosts[k] == h {
        if !(e.Finish? && e.k == k) { assert s'.workers[k].Collecting?; }
      }
      if e.Enter? && hosts[e.k] == h { assert s'.workers[e.k].Collecting?; }
      if k :| 0 <= k < |hosts| && s'.workers[k].Collecting? && hosts[k] == h {
        assert s.workers[k].Collecting? || (e.Enter? && k == e.k);
      }
    }
  }

  lemma StepKeepsInv(hosts: seq<nat>, s: State, e: Step)
    requires Inv(hosts, s) && Enabled(hosts, s, e)
    ensures Inv(hosts, Apply(hosts, s, e))
  {
    StepKeepsCounted(hosts, s, e);
    StepKeepsGated(hosts, s, e);
    var s' := Apply(hosts, s, e);
    forall k | 0 <= k < |hosts| && !s'.workers[k].Unborn? && !s'.workers[k].Ready?
      ensures Attempted(hosts, s', hosts[k])
    {
      if e == Enter(k) {
        assert k in s'.attempts;
      } else if e == Skip(k) {
        var j :| 0 <= j < |hosts| && s.workers[j].Collecting? && hosts[j] == hosts[k];
        assert Attempted(hosts, s, hosts[j]);
      } else {
        assert Attempted(hosts, s, hosts[k]);
      }
    }
  }

  lemma {:induction false} ReachableInv(hosts: seq<nat>, states: seq<State>, steps: seq<Step>, i: nat)
    requires Run(hosts, states, steps) && i < |states|
    ensures Inv(hosts, states[i])
  {
    if i == 0 {
      StartInv(hosts);
    } else {
      ReachableInv(hosts, states, steps, i - 1);
      StepKeepsInv(hosts, states[i - 1], steps[i - 1]);
    }
  }

  // ---------------------------------------------------------------- the properties

  predicate IsCollecting(w: Worker) {
    w.Collecting?
  }

  /** In every interleaving at most eight collections run at once, and at most one per host. */
  lemma BoundedAndExclusive(hosts: seq<nat>, states: seq<State>, steps: seq<Step>, i: nat)
    requires Run(hosts, states, steps) && i < |states|
    ensures Count(states[i].workers, IsCollecting) <= 8
    ensures |states[i].workers| == |hosts|
    ensures forall j, k :: 0 <= j < k < |hosts| && hosts[j] == hosts[k] ==>
              !(states[i].workers[j].Collecting? && states[i].workers[k].Collecting?)
  {
    ReachableInv(hosts, states, steps, i);
    CountMonotone(states[i].workers, IsCollecting, HoldsSlot);
  }

  /** No deadlock: in every reachable state some step is enabled, until the main goroutine has returned. */
  lemma NoDeadlock(hosts: seq<nat>, states: seq<State>, steps: seq<Step>, i: nat) returns (e: Step)
    requires Run(hosts, states, steps) && i < |states| && !states[i].main.Returned?
    ensures |states[i].workers| == |hosts| && Enabled(hosts, states[i], e)
  {
    ReachableInv(hosts, states, steps, i);
    var s := states[i];
    match s.main
    case Adding(j) => e := if j < |hosts| then Add else EndLoop;
    case Spawning(_) => e := Spawn;
    case Acquiring(_) =>
      if s.sem < WORKERS {
        e := Acquire;
      } else {
        var k := CountPositive(s.workers, HoldsSlot);
        e := WorkerStep(hosts, s, k);
      }
    case Waiting =>
      if s.wg == 0 {
        e := WaitReturns;
      } else {
        var k := CountPositive(s.workers, Alive);
        e := WorkerStep(hosts, s, k);
      }
  }

  lemma WorkerStep(hosts: seq<nat>, s: State, k: nat) returns (e: Step)
    requires Inv(hosts, s) && k < |hosts| && Alive(s.workers[k])
    ensures Enabled(hosts, s, e)
  {
    CountZero(s.workers, HoldsSlot);
    CountZero(s.workers, Alive);
    match s.workers[k]
    case Ready => e := if hosts[k] in s.gates then Skip(k) else Enter(k);
    case Collecting => e := Finish(k);
    case Leaving => e := ReleaseSlot(k);
    case Released => e := TellDone(k);
  }

  function WorkerRank(w: Worker): nat {
    match w
    case Unborn => 5 case Ready => 4 case Collecting => 3 case Leaving => 2 case Released => 1 case Done => 0
  }

  function Ranks(ws: seq<Worker>): nat {
    if ws == [] then 0 else Ranks(ws[..|ws| - 1]) + WorkerRank(ws[|ws| - 1])
  }

  /** What is left to do. */
  function Rank(s: State): int {
    Ranks(s.workers) + match s.main
                       case Adding(i) => 3 * (|s.workers| - i) + 2
                       case Acquiring(i) => 3 * (|s.workers| - i) + 1
                       case Spawning(i) => 3 * (|s.workers| - i)
                       case Waiting => 1
                       case Returned => 0
  }

  lemma {:induction false} RanksUpdate(ws: seq<Worker>, k: nat, w: Worker)
    requires k < |ws|
    ensures Ranks(ws[k := w]) + WorkerRank(ws[k]) == Ranks(ws) + WorkerRank(w)
  {
    var vs := ws[k := w];
    if k == |ws| - 1 {
      assert vs[..k] == ws[..k];
    } else {
      RanksUpdate(ws[..|ws| - 1], k, w);
      assert vs[..|ws| - 1] == ws[..|ws| - 1][k := w];
    }
  }

  lemma StepDecreasesRank(hosts: seq<nat>, s: State, e: Step)
    requires Inv(hosts, s) && Enabled(hosts, s, e)
    ensures Rank(Apply(hosts, s, e)) < Rank(s)
  {
    match e
    case Spawn => RanksUpdate(s.workers, s.main.job, Ready);
    case Enter(k) => RanksUpdate(s.workers, k, Collecting);
    case Skip(k) => RanksUpdate(s.workers, k, Leaving);
    case Finish(k) => RanksUpdate(s.workers, k, Leaving);
    case ReleaseSlot(k) => RanksUpdate(s.workers, k, Released);
    case TellDone(k) => RanksUpdate(s.workers, k, Done);
    case _ =>
  }

  lemma {:induction false} StartRank(n: nat)
    ensures Ranks(seq(n, _ => Unborn)) == 5 * n
  {
    if n > 0 {
      StartRank(n - 1);
      assert seq(n, _ => Unborn)[..n - 1] == seq(n - 1, _ => Unborn);
    }
  }

  /** Every interleaving is finite: a cycle of `n` jobs takes at most 8n + 2 steps. */
  lemma {:induction false} CycleTerminates(hosts: seq<nat>, states: seq<State>, steps: seq<Step>, i: nat)
    requires Run(hosts, states, steps) && i < |states|
    ensures Rank(states[i]) + i <= 8 * |hosts| + 2
    ensures i <= 8 * |hosts| + 2
  {
    ReachableInv(hosts, states, steps, i);
    if i == 0 {
      StartRank(|hosts|);
    } else {
      CycleTerminates(hosts, states, steps, i - 1);
      ReachableInv(hosts, states, steps, i - 1);
      StepDecreasesRank(hosts, states[i - 1], steps[i - 1]);
    }
  }

  /**
   * When the cycle returns, every slot and gate is free, every worker has finished, and every host
   * with a job has had at least one collection attempt.
   */
  lemma ReturnedIsClean(hosts: seq<nat>, states: seq<State>, steps: seq<Step>, i: nat)
    requires Run(hosts, states, steps) && i < |states| && states[i].main.Returned?
    ensures states[i].sem == 0 && states[i].wg == 0 && states[i].gates == {}
    ensures |states[i].workers| == |hosts| && forall k :: 0 <= k < |hosts| ==> states[i].workers[k].Done?
    ensures forall k :: 0 <= k < |hosts| ==> Attempted(hosts, states[i], hosts[k])
  {
    ReachableInv(hosts, states, steps, i);
    CountZero(states[i].workers, Alive);
    CountZero(states[i].workers, HoldsSlot);
  }
}
