/**
 * Agents that poll for tasks, composed with the handlers of TaskServer (agent/common/agent.go). Replies and
 * reports can be lost, agents can restart, and users can cancel and delete tasks at any time.
 */
module TaskProtocol {
  import opened Options
  import opened TaskServer

  /** Where an agent is in its loop; `Ran` still has to send its report. */
  datatype Phase = Idle | Waiting | Holding(id: nat, kind: string) | Ran(id: nat, status: string)

  datatype Agent = Agent(host: nat, tenant: nat, phase: Phase)

  /** An answer to `next` on its way to an agent. */
  datatype Reply = Reply(agent: nat, id: nat, kind: string)

  datatype Report = Report(tenant: nat, status: string)

  /** `ran` lists the commands executed, `served` the dispatched tasks with their hosts, both in order. */
  datatype State = State(tasks: Tasks, nextId: nat, now: int, agents: map<nat, Agent>, replies: set<Reply>,
                         reports: map<nat, Report>, ran: seq<nat>, served: seq<(nat, nat)>)

  datatype Step =
    | Create(host: Host, kind: string, command: string)
    | Cancel(tenant: nat, id: nat)
    | Delete(tenant: nat, id: nat)
    | Fetch(agent: nat, id: nat)
    | FetchNothing(agent: nat)
    | Receive(reply: Reply)
    | LoseReply(reply: Reply)
    | Execute(agent: nat, status: string)
    | SendReport(agent: nat)
    | DeliverReport(id: nat, result: string)
    | LoseReport(id: nat)
    | Restart(agent: nat)
    | Wait(until: int)

  function WithPhase(s: State, a: nat, p: Phase): State
    requires a in s.agents
  {
    s.(agents := s.agents[a := s.agents[a].(phase := p)])
  }

  /** Task types the agent executes; it reports the others as failed without running them. */
  predicate Executable(kind: string) {
    kind == "shell" || kind == "flush_caches"
  }

  ghost predicate Enabled(s: State, e: Step) {
    match e
    case Fetch(a, id) => a in s.agents && s.agents[a].phase == Idle && IsNext(s.tasks, s.agents[a].host, id)
    case FetchNothing(a) => a in s.agents && s.agents[a].phase == Idle && NothingPending(s.tasks, s.agents[a].host)
    case Receive(r) => r in s.replies && r.agent in s.agents && s.agents[r.agent].phase == Waiting
    case LoseReply(r) => r in s.replies && r.agent in s.agents
    case Execute(a, _) => a in s.agents && s.agents[a].phase.Holding?
    case SendReport(a) => a in s.agents && s.agents[a].phase.Ran?
    case DeliverReport(id, _) => id in s.reports
    case LoseReport(id) => id in s.reports
    case Restart(a) => a in s.agents
    case Wait(t) => s.now <= t
    case _ => true
  }

  ghost function Apply(s: State, e: Step): State
    requires Enabled(s, e)
  {
    match e
    case Create(h, kind, command) =>
      s.(tasks := s.tasks[s.nextId := NewTask(h, kind, command, s.now)], nextId := s.nextId + 1)
    case Cancel(tenant, id) => s.(tasks := CanceledTask(s.tasks, tenant, id, "canceled"))
    case Delete(tenant, id) => s.(tasks := Deleted(s.tasks, tenant, id))
    case Fetch(a, id) =>
      WithPhase(s, a, Waiting).(tasks := Dispatched(s.tasks, id, s.now), replies := s.replies + {Reply(a, id, s.tasks[id].kind)},
                                served := s.served + [(s.agents[a].host, id)])
    case FetchNothing(a) => s
    case Receive(r) => WithPhase(s, r.agent, Holding(r.id, r.kind)).(replies := s.replies - {r})
    case LoseReply(r) =>
      (if s.agents[r.agent].phase == Waiting then WithPhase(s, r.agent, Idle) else s).(replies := s.replies - {r})
    case Execute(a, status) =>
      var id := s.agents[a].phase.id;
      if Executable(s.agents[a].phase.kind) then WithPhase(s, a, Ran(id, status)).(ran := s.ran + [id])
      else WithPhase(s, a, Ran(id, "failed"))
    case SendReport(a) =>
      WithPhase(s, a, Idle).(reports := s.reports[s.agents[a].phase.id := Report(s.agents[a].tenant, s.agents[a].phase.status)])
    case DeliverReport(id, result) =>
      s.(tasks := Reported(s.tasks, s.reports[id].tenant, id, s.reports[id].status, result, s.now), reports := s.reports - {id})
    case LoseReport(id) => s.(reports := s.reports - {id})
    case Restart(a) => WithPhase(s, a, Idle)
    case Wait(t) => s.(now := t)
  }

  ghost predicate Init(s: State) {
    && s.tasks == map[] && s.replies == {} && s.reports == map[] && s.ran == [] && s.served == []
    && forall a :: a in s.agents ==> s.agents[a].phase == Idle
  }

  ghost predicate Run(states: seq<State>, steps: seq<Step>) {
    && |states| == |steps| + 1 && Init(states[0])
    && forall i {:trigger steps[i]} :: 0 <= i < |steps| ==>
         Enabled(states[i], steps[i]) && states[i + 1] == Apply(states[i], steps[i])
  }

  // ---------------------------------------------------------------- the invariant

  predicate Carries(p: Phase, id: nat) {
    (p.Holding? && p.id == id) || (p.Ran? && p.id == id)
  }

  /** A dispatched task that nobody has reported yet is held in one place at most. */
  ghost predicate HeldOnce(s: State) {
    && (forall r, q :: r in s.replies && q in s.replies && r.id == q.id ==> r == q)
    && (forall a, b :: a in s.agents && b in s.agents && a != b ==>
         forall id :: !(Carries(s.agents[a].phase, id) && Carries(s.agents[b].phase, id)))
    && (forall r, a :: r in s.replies && a in s.agents ==> !Carries(s.agents[a].phase, r.id))
    && (forall r :: r in s.replies ==> r.id !in s.reports)
    && (forall a, id :: a in s.agents && id in s.reports ==> !Carries(s.agents[a].phase, id))
  }

  ghost predicate InHand(s: State, id: nat) {
    || (exists r :: r in s.replies && r.id == id)
    || (exists a :: a in s.agents && Carries(s.agents[a].phase, id))
    || id in s.reports
  }

  ghost predicate RunningIfPresent(s: State, id: nat) {
    id < s.nextId && (id in s.tasks ==> s.tasks[id].status == Running)
  }

  /** Tasks in hand are running, and a command runs only after its reply has been received. */
  ghost predicate RepliesRunning(s: State) {
    forall r :: r in s.replies ==> RunningIfPresent(s, r.id) && r.id !in s.ran
  }

  ghost predicate AgentsRunning(s: State) {
    && (forall a :: a in s.agents && s.agents[a].phase.Holding? ==>
         RunningIfPresent(s, s.agents[a].phase.id) && s.agents[a].phase.id !in s.ran)
    && (forall a :: a in s.agents && s.agents[a].phase.Ran? ==> RunningIfPresent(s, s.agents[a].phase.id))
  }

  ghost predicate ReportsRunning(s: State) {
    forall id :: id in s.reports ==> RunningIfPresent(s, id)
  }

  ghost predicate RanOnce(s: State) {
    && (forall i, j :: 0 <= i < j < |s.ran| ==> s.ran[i] != s.ran[j])
    && (forall id :: id in s.ran ==> id < s.nextId)
    && (forall id :: id in s.ran && id in s.tasks ==> s.tasks[id].status != Pending && s.tasks[id].status != Canceled)
  }

  /** Ids grow with creation time. */
  ghost predicate TasksOrdered(s: State) {
    && (forall id :: id in s.tasks ==> id < s.nextId && s.tasks[id].createdAt <= s.now)
    && (forall i, j :: i in s.tasks && j in s.tasks && i < j ==> s.tasks[i].createdAt <= s.tasks[j].createdAt)
  }

  /** What a host was served is in order, and precedes what is still pending for it. */
  ghost predicate ServedOrdered(s: State) {
    && (forall i, j :: 0 <= i < j < |s.served| && s.served[i].0 == s.served[j].0 ==> s.served[i].1 < s.served[j].1)
    && (forall i :: 0 <= i < |s.served| ==> s.served[i].1 < s.nextId)
    && (forall i, id :: 0 <= i < |s.served| && id in s.tasks && PendingFor(s.tasks[id], s.served[i].0) ==> s.served[i].1 < id)
  }

  ghost predicate Inv(s: State) {
    && HeldOnce(s) && RepliesRunning(s) && AgentsRunning(s) && ReportsRunning(s)
    && RanOnce(s) && TasksOrdered(s) && ServedOrdered(s)
  }

  lemma InHandNotPending(s: State, id: nat)
    requires RepliesRunning(s) && AgentsRunning(s) && ReportsRunning(s) && RanOnce(s)
    requires id in s.tasks && s.tasks[id].status == Pending
    ensures !InHand(s, id) && id !in s.ran
  {
  }

  lemma FetchKeepsHeldOnce(s: State, a: nat, id: nat)
    requires HeldOnce(s) && !InHand(s, id) && Enabled(s, Fetch(a, id))
    ensures HeldOnce(Apply(s, Fetch(a, id)))
  {
    assert forall p :: p == s.agents[a].phase ==> !Carries(p, id);
  }

  lemma ReceiveKeepsHeldOnce(s: State, r: Reply)
    requires HeldOnce(s) && Enabled(s, Receive(r))
    ensures HeldOnce(Apply(s, Receive(r)))
  {
  }

  lemma SendKeepsHeldOnce(s: State, a: nat)
    requires HeldOnce(s) && Enabled(s, SendReport(a))
    ensures HeldOnce(Apply(s, SendReport(a)))
  {
    assert Carries(s.agents[a].phase, s.agents[a].phase.id);
  }

  /** The steps that only let go of tasks, or move one along within its agent. */
  lemma OthersKeepHeldOnce(s: State, e: Step)
    requires HeldOnce(s) && Enabled(s, e) && !e.Fetch? && !e.Receive? && !e.SendReport?
    ensures HeldOnce(Apply(s, e))
  {
    OthersHoldNoMore(s, e);
    HoldingLess(s, Apply(s, e));
  }

  lemma OthersHoldNoMore(s: State, e: Step)
    requires Enabled(s, e) && !e.Fetch? && !e.Receive? && !e.SendReport?
    ensures HoldsNoMore(s, Apply(s, e))
  {
  }

  ghost predicate HoldsNoMore(s: State, s': State) {
    && s'.replies <= s.replies && s'.reports.Keys <= s.reports.Keys && s'.agents.Keys == s.agents.Keys
    && forall a, id :: a in s'.agents && Carries(s'.agents[a].phase, id) ==> Carries(s.agents[a].phase, id)
  }

  lemma HoldingLess(s: State, s': State)
    requires HeldOnce(s) && HoldsNoMore(s, s')
    ensures HeldOnce(s')
  {
  }

  lemma StepKeepsHeldOnce(s: State, e: Step)
    requires Inv(s) && Enabled(s, e)
    ensures HeldOnce(Apply(s, e))
  {
    match e
    case Fetch(a, id) =>
      InHandNotPending(s, id);
      FetchKeepsHeldOnce(s, a, id);
    case Receive(r) => ReceiveKeepsHeldOnce(s, r);
    case SendReport(a) => SendKeepsHeldOnce(s, a);
    case _ => OthersKeepHeldOnce(s, e);
  }

  /** No step takes a task in hand out of running, except the delivery of its own report. */
  lemma RunningStays(s: State, e: Step, id: nat)
    requires Enabled(s, e) && RunningIfPresent(s, id)
    requires e.DeliverReport? ==> e.id != id
    ensures RunningIfPresent(Apply(s, e), id)
  {
  }

  lemma StepKeepsRepliesRunning(s: State, e: Step)
    requires Inv(s) && Enabled(s, e)
    ensures RepliesRunning(Apply(s, e))
  {
    var s' := Apply(s, e);
    forall r | r in s'.replies
      ensures RunningIfPresent(s', r.id) && r.id !in s'.ran
    {
      if r in s.replies {
        RunningStays(s, e, r.id);
        if e.Execute? { assert Carries(s.agents[e.agent].phase, s.agents[e.agent].phase.id); }
      } else {
        InHandNotPending(s, r.id);
      }
    }
  }

  lemma StepKeepsAgentsRunning(s: State, e: Step)
    requires Inv(s) && Enabled(s, e)
    ensures AgentsRunning(Apply(s, e))
  {
    var s' := Apply(s, e);
    forall a | a in s'.agents && (s'.agents[a].phase.Holding? || s'.agents[a].phase.Ran?)
      ensures RunningIfPresent(s', s'.agents[a].phase.id)
      ensures s'.agents[a].phase.Holding? ==> s'.agents[a].phase.id !in s'.ran
    {
      var id := s'.agents[a].phase.id;
      assert Carries(s'.agents[a].phase, id);
      RunningStays(s, e, id);
      if e.Execute? && e.agent != a { assert Carries(s.agents[e.agent].phase, s.agents[e.agent].phase.id); }
    }
  }

  lemma StepKeepsReportsRunning(s: State, e: Step)
    requires Inv(s) && Enabled(s, e)
    ensures ReportsRunning(Apply(s, e))
  {
    var s' := Apply(s, e);
    forall id | id in s'.reports
      ensures RunningIfPresent(s', id)
    {
      RunningStays(s, e, id);
    }
  }

  lemma StepKeepsRanOnce(s: State, e: Step)
    requires AgentsRunning(s) && ReportsRunning(s) && RanOnce(s) && Enabled(s, e)
    ensures RanOnce(Apply(s, e))
  {
  }

  /** `next` picks the smallest pending id of the host, because ids grow with creation time. */
  lemma NextIsSmallest(s: State, host: nat, id: nat)
    requires TasksOrdered(s) && IsNext(s.tasks, host, id)
    ensures forall j :: j in s.tasks && PendingFor(s.tasks[j], host) ==> id <= j
  {
  }

  lemma StepKeepsTasksOrdered(s: State, e: Step)
    requires TasksOrdered(s) && Enabled(s, e)
    ensures TasksOrdered(Apply(s, e))
  {
  }

  lemma FetchKeepsServedOrdered(s: State, a: nat, id: nat)
    requires TasksOrdered(s) && ServedOrdered(s) && Enabled(s, Fetch(a, id))
    ensures ServedOrdered(Apply(s, Fetch(a, id)))
  {
    NextIsSmallest(s, s.agents[a].host, id);
    assert forall i :: 0 <= i < |s.served| && s.served[i].0 == s.agents[a].host ==> s.served[i].1 < id;
  }

  /** The other steps serve nobody, and make nothing pending but a new task. */
  lemma OthersServeNobody(s: State, e: Step)
    requires Enabled(s, e) && !e.Fetch?
    ensures Apply(s, e).served == s.served && Apply(s, e).nextId >= s.nextId
    ensures forall id, h :: id in Apply(s, e).tasks && PendingFor(Apply(s, e).tasks[id], h) ==>
              id == s.nextId || (id in s.tasks && PendingFor(s.tasks[id], h))
  {
  }

  lemma StepKeepsServedOrdered(s: State, e: Step)
    requires TasksOrdered(s) && ServedOrdered(s) && Enabled(s, e)
    ensures ServedOrdered(Apply(s, e))
  {
    if e.Fetch? {
      FetchKeepsServedOrdered(s, e.agent, e.id);
    } else {
      OthersServeNobody(s, e);
    }
  }

  lemma StepKeepsInv(s: State, e: Step)
    requires Inv(s) && Enabled(s, e)
    ensures Inv(Apply(s, e))
  {
    StepKeepsHeldOnce(s, e);
    StepKeepsRepliesRunning(s, e);
    StepKeepsAgentsRunning(s, e);
    StepKeepsReportsRunning(s, e);
    StepKeepsRanOnce(s, e);
    StepKeepsTasksOrdered(s, e);
    StepKeepsServedOrdered(s, e);
  }

  lemma {:induction false} ReachableInv(states: seq<State>, steps: seq<Step>, i: nat)
    requires Run(states, steps) && i < |states|
    ensures Inv(states[i])
  {
    if i > 0 {
      ReachableInv(states, steps, i - 1);
      StepKeepsInv(states[i - 1], steps[i - 1]);
    }
  }

  // ---------------------------------------------------------------- the properties

  /** At most once: in every run no command is executed twice. */
  lemma NoCommandRunsTwice(states: seq<State>, steps: seq<Step>, n: nat, i: nat, j: nat)
    requires Run(states, steps) && n < |states| && i < j < |states[n].ran|
    ensures states[n].ran[i] != states[n].ran[j]
  {
    ReachableInv(states, steps, n);
  }

  /** Statuses only move pending to running to success or failed, or pending to canceled. */
  lemma StatusMovesLegally(states: seq<State>, steps: seq<Step>, n: nat, id: nat)
    requires Run(states, steps) && n + 1 < |states|
    requires id in states[n].tasks && id in states[n + 1].tasks
    ensures LegalMove(states[n].tasks[id].status, states[n + 1].tasks[id].status)
  {
    ReachableInv(states, steps, n);
    var e := steps[n];
    assert Enabled(states[n], e) && states[n + 1] == Apply(states[n], e);
  }

  /** Once canceled a task stays canceled while it exists, and its command is never among those run. */
  lemma {:induction false} CanceledNeverRuns(states: seq<State>, steps: seq<Step>, n: nat, m: nat, id: nat)
    requires Run(states, steps) && n <= m < |states|
    requires id in states[n].tasks && states[n].tasks[id].status == Canceled
    ensures id in states[m].tasks ==> states[m].tasks[id].status == Canceled
    ensures id !in states[m].ran && !InHand(states[m], id) && id < states[m].nextId
  {
    if m == n {
      ReachableInv(states, steps, n);
    } else {
      CanceledNeverRuns(states, steps, n, m - 1, id);
      ReachableInv(states, steps, m - 1);
      CanceledStep(states[m - 1], steps[m - 1], id);
    }
  }

  /** Only a fetch puts a task in hand. */
  lemma OnlyFetchTakes(s: State, e: Step, id: nat)
    requires Enabled(s, e) && !InHand(s, id) && (e.Fetch? ==> e.id != id)
    ensures !InHand(Apply(s, e), id)
  {
    var s' := Apply(s, e);
    forall a | a in s'.agents
      ensures !Carries(s'.agents[a].phase, id)
    {
      assert !Carries(s.agents[a].phase, id);
    }
  }

  lemma CanceledStep(s: State, e: Step, id: nat)
    requires Inv(s) && Enabled(s, e) && id < s.nextId
    requires id in s.tasks ==> s.tasks[id].status == Canceled
    requires id !in s.ran && !InHand(s, id)
    ensures var s' := Apply(s, e);
            && (id in s'.tasks ==> s'.tasks[id].status == Canceled)
            && id !in s'.ran && !InHand(s', id) && id < s'.nextId
  {
    OnlyFetchTakes(s, e, id);
    if e.Execute? { assert Carries(s.agents[e.agent].phase, s.agents[e.agent].phase.id); }
  }

  /** Each host is served in creation order. */
  lemma ServedInCreationOrder(states: seq<State>, steps: seq<Step>, n: nat, i: nat, j: nat)
    requires Run(states, steps) && n < |states| && i < j < |states[n].served|
    requires states[n].served[i].0 == states[n].served[j].0
    ensures states[n].served[i].1 < states[n].served[j].1
    ensures forall x, y :: x in states[n].tasks && y in states[n].tasks && x < y ==>
              states[n].tasks[x].createdAt <= states[n].tasks[y].createdAt
  {
    ReachableInv(states, steps, n);
  }

  // ---------------------------------------------------------------- a cancel cancels

  /** Nothing that has been served is pending. */
  ghost predicate ServedNotPending(s: State) {
    forall i :: 0 <= i < |s.served| ==> s.served[i].1 < s.nextId && (s.served[i].1 in s.tasks ==> s.tasks[s.served[i].1].status != Pending)
  }

  lemma StepKeepsServedNotPending(s: State, e: Step)
    requires ServedNotPending(s) && TasksOrdered(s) && Enabled(s, e)
    ensures ServedNotPending(Apply(s, e))
  {
  }

  lemma {:induction false} ReachableServed(states: seq<State>, steps: seq<Step>, i: nat)
    requires Run(states, steps) && i < |states|
    ensures ServedNotPending(states[i])
  {
    if i > 0 {
      ReachableServed(states, steps, i - 1);
      ReachableInv(states, steps, i - 1);
      StepKeepsServedNotPending(states[i - 1], steps[i - 1]);
    }
  }

  ghost predicate NeverServed(s: State, id: nat) {
    forall i :: 0 <= i < |s.served| ==> s.served[i].1 != id
  }

  lemma CanceledNotServed(s: State, e: Step, id: nat)
    requires Enabled(s, e) && NeverServed(s, id) && (id in s.tasks ==> s.tasks[id].status == Canceled)
    ensures e.Fetch? ==> e.id != id
    ensures NeverServed(Apply(s, e), id)
  {
  }

  lemma {:induction false} CanceledStaysUnserved(states: seq<State>, steps: seq<Step>, n: nat, m: nat, id: nat)
    requires Run(states, steps) && n <= m < |states|
    requires id in states[n].tasks && states[n].tasks[id].status == Canceled && NeverServed(states[n], id)
    ensures NeverServed(states[m], id)
  {
    if n < m {
      CanceledStaysUnserved(states, steps, n, m - 1, id);
      CanceledNeverRuns(states, steps, n, m - 1, id);
      assert id in states[m - 1].tasks ==> states[m - 1].tasks[id].status == Canceled;
      UnservedStep(states, steps, m - 1, id);
    }
  }

  lemma UnservedStep(states: seq<State>, steps: seq<Step>, k: nat, id: nat)
    requires Run(states, steps) && k < |steps| && NeverServed(states[k], id)
    requires id in states[k].tasks ==> states[k].tasks[id].status == Canceled
    ensures NeverServed(states[k + 1], id)
  {
    CanceledNotServed(states[k], steps[k], id);
  }

  /**
   * A cancel by the task's own tenant while it is pending takes effect: from then on, in every continuation, the
   * task is canceled while it exists, and it is never served to an agent and its command never runs.
   */
  lemma CancelTakesEffect(states: seq<State>, steps: seq<Step>, n: nat, m: nat, tenant: nat, id: nat)
    requires Run(states, steps) && n < m < |states| && steps[n] == Cancel(tenant, id)
    requires id in states[n].tasks && states[n].tasks[id].tenant == tenant && states[n].tasks[id].status == Pending
    ensures states[n + 1].tasks == states[n].tasks[id := states[n].tasks[id].(status := Canceled)]
    ensures id in states[m].tasks ==> states[m].tasks[id].status == Canceled
    ensures NeverServed(states[m], id) && id !in states[m].ran
  {
    assert Enabled(states[n], steps[n]) && states[n + 1] == Apply(states[n], steps[n]);
    ReachableServed(states, steps, n);
    CanceledNeverRuns(states, steps, n + 1, m, id);
    CanceledStaysUnserved(states, steps, n + 1, m, id);
  }

  /** Of what an agent holds, exactly shell commands and cache flushes are run; anything else is reported as failed unrun. */
  lemma ExecutedIff(s: State, a: nat, status: string)
    requires Enabled(s, Execute(a, status))
    ensures var id, kind := s.agents[a].phase.id, s.agents[a].phase.kind;
            var s' := Apply(s, Execute(a, status));
            if kind == "shell" || kind == "flush_caches"
            then s'.ran == s.ran + [id] && s'.agents[a].phase == Ran(id, status)
            else s'.ran == s.ran && s'.agents[a].phase == Ran(id, "failed")
  {
  }

  /** A reply carries the id and type of the task that was served, and a report the status it ran with. */
  lemma RepliesAndReports(s: State, a: nat, id: nat)
    ensures Enabled(s, Fetch(a, id)) ==>
              Apply(s, Fetch(a, id)).replies == s.replies + {Reply(a, id, s.tasks[id].kind)}
              && Apply(s, Fetch(a, id)).served == s.served + [(s.tasks[id].host, id)]
              && Apply(s, Fetch(a, id)).tasks == s.tasks[id := s.tasks[id].(status := Running, startedAt := Some(s.now))]
    ensures Enabled(s, SendReport(a)) ==>
              Apply(s, SendReport(a)).reports == s.reports[s.agents[a].phase.id := Report(s.agents[a].tenant, s.agents[a].phase.status)]
  {
  }
}
