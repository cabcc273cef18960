/**
 * The approval store for tool calls: server/services/mcp_service.go. A section under the mutex is one step, and
 * so is each write that an executing goroutine makes, without the mutex, through its pointer to the stored approval.
 */
module Approvals {
  import opened Options

  datatype Status = Pending | Approved | Rejected | Failed

  datatype Approval = Approval(
    tenant: nat, user: nat, tool: string, arguments: string, message: string,
    status: Status, result: string, createdAt: int, executedAt: Option<int>)

  type Table = map<nat, Approval>

  datatype Answer = Granted | Missing | Forbidden

  /** The first checks of both Approve and Reject. */
  predicate Decidable(t: Table, id: nat, tenant: nat) {
    id in t && t[id].status == Pending && t[id].tenant == tenant
  }

  function AnswerTo(t: Table, id: nat, tenant: nat, isAdmin: bool): Answer {
    if !Decidable(t, id, tenant) then Missing else if !isAdmin then Forbidden else Granted
  }

  function Fresh(tenant: nat, user: nat, tool: string, arguments: string, message: string, now: int): Approval {
    Approval(tenant, user, tool, arguments, message, Pending, "", now, None)
  }

  function AfterApprove(t: Table, id: nat, tenant: nat, user: nat, isAdmin: bool): Table {
    if AnswerTo(t, id, tenant, isAdmin) == Granted then t[id := t[id].(status := Approved, user := user)] else t
  }

  function AfterReject(t: Table, id: nat, tenant: nat, isAdmin: bool): Table {
    if AnswerTo(t, id, tenant, isAdmin) == Granted then t[id := t[id].(status := Rejected)] else t
  }

  /** The goroutine's own writes: they reach the table while its approval is still in it. */
  function AfterFailure(t: Table, id: nat): Table {
    if id in t then t[id := t[id].(status := Failed)] else t
  }

  function AfterResult(t: Table, id: nat, result: string): Table {
    if id in t then t[id := t[id].(result := result)] else t
  }

  function AfterStamp(t: Table, id: nat, now: int): Table {
    if id in t then t[id := t[id].(executedAt := Some(now))] else t
  }

  /** The write-back under the mutex of what the goroutine holds, which leaves a removed approval removed. */
  function AfterWriteBack(t: Table, id: nat, held: Approval): Table {
    if id in t then t[id := t[id].(status := held.status, result := held.result, executedAt := held.executedAt)] else t
  }

  /** All of an execution's writes, with nothing in between. */
  function AfterExecution(t: Table, id: nat, failed: bool, result: string, now: int): Table {
    if id !in t then t
    else t[id := t[id].(status := if failed then Failed else t[id].status, result := result, executedAt := Some(now))]
  }

  /** What the goroutine holds is the stored approval itself, so the write-back changes nothing. */
  lemma WriteBackIsIdle(t: Table, id: nat)
    ensures id in t ==> AfterWriteBack(t, id, t[id]) == t
  {
    if id in t { assert t[id := t[id]] == t; }
  }

  lemma WritesMakeExecution(t: Table, id: nat, failed: bool, result: string, now: int)
    ensures AfterStamp(AfterResult(if failed then AfterFailure(t, id) else t, id, result), id, now)
         == AfterExecution(t, id, failed, result, now)
  {
  }

  predicate Removable(a: Approval, threshold: int) {
    a.status != Pending && a.executedAt.Some? && a.executedAt.value < threshold
  }

  function AfterCleanup(t: Table, threshold: int): Table {
    map id | id in t && !Removable(t[id], threshold) :: t[id]
  }

  class Service {
    var approvals: Table
    var nextApprovalID: nat

    constructor ()
      ensures approvals == map[] && nextApprovalID == 0
    {
      approvals, nextApprovalID := map[], 0;
    }

    method CreateApproval(tenant: nat, user: nat, tool: string, arguments: Option<string>, message: string, now: int)
        returns (id: Option<nat>)
      modifies this
      ensures arguments.None? ==> id.None? && approvals == old(approvals) && nextApprovalID == old(nextApprovalID)
      ensures arguments.Some? ==> id == Some(old(nextApprovalID)) && nextApprovalID == old(nextApprovalID) + 1
      ensures arguments.Some? ==>
                approvals == old(approvals)[old(nextApprovalID) := Fresh(tenant, user, tool, arguments.value, message, now)]
      ensures arguments.Some? ==>
                approvals == old(approvals)[old(nextApprovalID) :=
                  Approval(tenant, user, tool, arguments.value, message, Pending, "", now, None)]
    {
      if arguments.None? {
        return None;
      }
      var n := nextApprovalID;
      nextApprovalID := nextApprovalID + 1;
      approvals := approvals[n := Approval(tenant, user, tool, arguments.value, message, Pending, "", now, None)];
      id := Some(n);
    }

    method Approve(id: nat, tenant: nat, user: nat, isAdmin: bool) returns (answer: Answer)
      modifies this
      ensures answer == AnswerTo(old(approvals), id, tenant, isAdmin) && nextApprovalID == old(nextApprovalID)
      ensures approvals == AfterApprove(old(approvals), id, tenant, user, isAdmin)
      ensures id !in old(approvals) || old(approvals)[id].status != Pending || old(approvals)[id].tenant != tenant ==>
                answer == Missing && approvals == old(approvals)
      ensures id in old(approvals) && old(approvals)[id].status == Pending && old(approvals)[id].tenant == tenant ==>
                if isAdmin then answer == Granted && approvals == old(approvals)[id := old(approvals)[id].(status := Approved, user := user)]
                else answer == Forbidden && approvals == old(approvals)
    {
      if id !in approvals || approvals[id].status != Pending || approvals[id].tenant != tenant {
        return Missing;
      }
      if !isAdmin {
        return Forbidden;
      }
      approvals := approvals[id := approvals[id].(status := Approved)];
      approvals := approvals[id := approvals[id].(user := user)];
      answer := Granted;
    }

    method Reject(id: nat, tenant: nat, isAdmin: bool) returns (answer: Answer)
      modifies this
      ensures answer == AnswerTo(old(approvals), id, tenant, isAdmin) && nextApprovalID == old(nextApprovalID)
      ensures approvals == AfterReject(old(approvals), id, tenant, isAdmin)
      ensures id !in old(approvals) || old(approvals)[id].status != Pending || old(approvals)[id].tenant != tenant ==>
                answer == Missing && approvals == old(approvals)
      ensures id in old(approvals) && old(approvals)[id].status == Pending && old(approvals)[id].tenant == tenant ==>
                if isAdmin then answer == Granted && approvals == old(approvals)[id := old(approvals)[id].(status := Rejected)]
                else answer == Forbidden && approvals == old(approvals)
    {
      if id !in approvals || approvals[id].status != Pending || approvals[id].tenant != tenant {
        return Missing;
      }
      if !isAdmin {
        return Forbidden;
      }
      approvals := approvals[id := approvals[id].(status := Rejected)];
      answer := Granted;
    }

    method WriteFailure(id: nat)
      modifies this
      ensures approvals == AfterFailure(old(approvals), id) && nextApprovalID == old(nextApprovalID)
      ensures approvals == if id in old(approvals) then old(approvals)[id := old(approvals)[id].(status := Failed)] else old(approvals)
    {
      if id in approvals {
        approvals := approvals[id := approvals[id].(status := Failed)];
      }
    }

    method WriteResult(id: nat, result: string)
      modifies this
      ensures approvals == AfterResult(old(approvals), id, result) && nextApprovalID == old(nextApprovalID)
      ensures approvals == if id in old(approvals) then old(approvals)[id := old(approvals)[id].(result := result)] else old(approvals)
    {
      if id in approvals {
        approvals := approvals[id := approvals[id].(result := result)];
      }
    }

    method WriteStamp(id: nat, now: int)
      modifies this
      ensures approvals == AfterStamp(old(approvals), id, now) && nextApprovalID == old(nextApprovalID)
      ensures approvals == if id in old(approvals) then old(approvals)[id := old(approvals)[id].(executedAt := Some(now))] else old(approvals)
    {
      if id in approvals {
        approvals := approvals[id := approvals[id].(executedAt := Some(now))];
      }
    }

    method WriteBack(id: nat, held: Approval)
      modifies this
      ensures approvals == AfterWriteBack(old(approvals), id, held) && nextApprovalID == old(nextApprovalID)
    {
      if id in approvals {
        approvals := approvals[id := approvals[id].(status := held.status, result := held.result, executedAt := held.executedAt)];
      }
    }

    /** An execution that nothing interleaves with. */
    method FinishExecution(id: nat, failed: bool, result: string, now: int)
      modifies this
      ensures approvals == AfterExecution(old(approvals), id, failed, result, now) && nextApprovalID == old(nextApprovalID)
      ensures approvals.Keys == old(approvals).Keys && forall j :: j in approvals && j != id ==> approvals[j] == old(approvals)[j]
      ensures id in approvals ==>
                approvals[id].result == result && approvals[id].executedAt == Some(now)
                && approvals[id].status == if failed then Failed else old(approvals)[id].status
    {
      WritesMakeExecution(approvals, id, failed, result, now);
      if failed {
        WriteFailure(id);
      }
      WriteResult(id, result);
      WriteStamp(id, now);
      WriteBackIsIdle(approvals, id);
      if id in approvals {
        WriteBack(id, approvals[id]);
      }
    }

    /** The map is visited in no particular order while entries are deleted from it. */
    method RemoveCompletedApprovals(age: int, now: int)
      modifies this
      ensures approvals == AfterCleanup(old(approvals), now - age) && nextApprovalID == old(nextApprovalID)
      ensures forall id :: id in approvals <==> (id in old(approvals) &&
                !(old(approvals)[id].status != Pending && old(approvals)[id].executedAt.Some? && old(approvals)[id].executedAt.value < now - age))
      ensures forall id :: id in approvals ==> approvals[id] == old(approvals)[id]
    {
      var threshold := now - age;
      var todo := approvals.Keys;
      while todo != {}
        invariant todo <= approvals.Keys <= old(approvals).Keys && nextApprovalID == old(nextApprovalID)
        invariant forall id :: id in approvals ==> approvals[id] == old(approvals)[id]
        invariant forall id :: id in old(approvals) && id !in todo ==>
                    (id in approvals <==> !Removable(old(approvals)[id], threshold))
        decreases |todo|
      {
        var id :| id in todo;
        var a := approvals[id];
        if a.status != Pending && a.executedAt.Some? && a.executedAt.value < threshold {
          approvals := approvals - {id};
        }
        todo := todo - {id};
      }
      assert approvals == AfterCleanup(old(approvals), threshold);
    }
  }

  // ---------------------------------------------------------------- interleavings

  /** An executing goroutine: started by Approve, past its tool call, past its own failure, past its time stamp. */
  datatype Execution = Started | ToolCalled | Failing | Stamped

  /**
   * `executing` are the goroutines that have not finished. The histories: `owners` gives every id
   * ever handed out its tenant, `granted` the approvals as (id, approving tenant), `refused` the
   * rejections, `called` the tool calls in order.
   */
  datatype State = State(table: Table, nextId: nat, now: int, executing: map<nat, Execution>,
                         owners: map<nat, nat>, granted: seq<(nat, nat)>, refused: set<nat>, called: seq<nat>)

  datatype Step =
    | Create(tenant: nat, user: nat, tool: string, arguments: string, message: string)
    | Approve(id: nat, tenant: nat, user: nat, isAdmin: bool)
    | Reject(id: nat, tenant: nat, isAdmin: bool)
    | CallTool(id: nat)
    | Fail(id: nat)
    | SetResult(id: nat, result: string)
    | Stamp(id: nat)
    | Finish(id: nat)
    | Cleanup(age: int)
    | Wait(until: int)

  ghost predicate Enabled(s: State, e: Step) {
    match e
    case CallTool(id) => id in s.executing && s.executing[id] == Started
    case Fail(id) => id in s.executing && (s.executing[id] == Started || s.executing[id] == ToolCalled)
    case SetResult(id, _) => id in s.executing && (s.executing[id] == ToolCalled || s.executing[id] == Failing)
    case Stamp(id) => id in s.executing && (s.executing[id] == ToolCalled || s.executing[id] == Failing)
    case Finish(id) => id in s.executing && s.executing[id] == Stamped
    case Wait(t) => s.now <= t
    case _ => true
  }

  function Apply(s: State, e: Step): State {
    match e
    case Create(tenant, user, tool, arguments, message) =>
      s.(table := s.table[s.nextId := Fresh(tenant, user, tool, arguments, message, s.now)],
         nextId := s.nextId + 1, owners := s.owners[s.nextId := tenant])
    case Approve(id, tenant, user, isAdmin) =>
      var t := s.(table := AfterApprove(s.table, id, tenant, user, isAdmin));
      if AnswerTo(s.table, id, tenant, isAdmin) == Granted
      then t.(executing := s.executing[id := Started], granted := s.granted + [(id, tenant)]) else t
    case Reject(id, tenant, isAdmin) =>
      var t := s.(table := AfterReject(s.table, id, tenant, isAdmin));
      if AnswerTo(s.table, id, tenant, isAdmin) == Granted then t.(refused := s.refused + {id}) else t
    case CallTool(id) => s.(executing := s.executing[id := ToolCalled], called := s.called + [id])
    case Fail(id) => s.(table := AfterFailure(s.table, id), executing := s.executing[id := Failing])
    case SetResult(id, result) => s.(table := AfterResult(s.table, id, result))
    case Stamp(id) => s.(table := AfterStamp(s.table, id, s.now), executing := s.executing[id := Stamped])
    case Finish(id) => s.(executing := s.executing - {id})
    case Cleanup(age) => s.(table := AfterCleanup(s.table, s.now - age))
    case Wait(t) => s.(now := t)
  }

  ghost predicate Init(s: State) {
    && s.table == map[] && s.nextId == 0 && s.executing == map[] && s.owners == map[]
    && s.granted == [] && s.refused == {} && s.called == []
  }

  ghost predicate Run(states: seq<State>, steps: seq<Step>) {
    && |states| == |steps| + 1 && Init(states[0])
    && forall i {:trigger steps[i]} :: 0 <= i < |steps| ==>
         Enabled(states[i], steps[i]) && states[i + 1] == Apply(states[i], steps[i])
  }

  ghost predicate WasGranted(s: State, id: nat) {
    exists k :: 0 <= k < |s.granted| && s.granted[k].0 == id
  }

  ghost predicate Ids(s: State) {
    && (forall id: nat :: id in s.owners <==> id < s.nextId)
    && (forall id :: id in s.table ==> id in s.owners && s.table[id].tenant == s.owners[id])
    && (forall id :: id in s.refused || id in s.executing ==> id in s.owners)
    && (forall k :: 0 <= k < |s.granted| ==> s.granted[k].0 in s.owners && s.owners[s.granted[k].0] == s.granted[k].1)
  }

  /** A decision is taken once: what was granted or refused is no longer pending. */
  ghost predicate Decisions(s: State) {
    && (forall j, k :: 0 <= j < k < |s.granted| ==> s.granted[j].0 != s.granted[k].0)
    && (forall k :: 0 <= k < |s.granted| ==> s.granted[k].0 !in s.refused)
    && (forall k :: 0 <= k < |s.granted| && s.granted[k].0 in s.table ==>
         s.table[s.granted[k].0].status == Approved || s.table[s.granted[k].0].status == Failed)
    && (forall id :: id in s.refused && id in s.table ==> s.table[id].status == Rejected && s.table[id].executedAt.None?)
    && (forall id :: id in s.refused ==> id in s.table)
  }

  /** What is executing and not yet stamped is still in the table; it has failed only by its own account. */
  ghost predicate Executions(s: State) {
    && (forall id :: id in s.executing && s.executing[id] != Stamped ==>
         id in s.table && s.table[id].executedAt.None? && s.table[id].status == if s.executing[id] == Failing then Failed else Approved)
    && (forall id :: id in s.executing && id in s.table ==> s.table[id].status == Approved || s.table[id].status == Failed)
    && (forall id :: id in s.executing && s.executing[id] == Started ==> id !in s.called)
    && (forall i, j :: 0 <= i < j < |s.called| ==> s.called[i] != s.called[j])
  }

  /** Only granted approvals execute, call their tool or finish. */
  ghost predicate OnlyGranted(s: State) {
    && (forall id :: id in s.executing ==> WasGranted(s, id))
    && (forall id :: id in s.called ==> WasGranted(s, id))
    && (forall id :: id in s.table && s.table[id].executedAt.Some? ==> WasGranted(s, id))
  }

  ghost predicate Inv(s: State) {
    Ids(s) && Decisions(s) && Executions(s) && OnlyGranted(s)
  }

  lemma GrantedGrows(s: State, e: Step)
    ensures forall id :: WasGranted(s, id) ==> WasGranted(Apply(s, e), id)
    ensures e.Approve? && AnswerTo(s.table, e.id, e.tenant, e.isAdmin) == Granted ==> WasGranted(Apply(s, e), e.id)
  {
    var s' := Apply(s, e);
    assert s.granted <= s'.granted;
    forall id | WasGranted(s, id)
      ensures WasGranted(s', id)
    {
      var k :| 0 <= k < |s.granted| && s.granted[k].0 == id;
      assert s'.granted[k] == s.granted[k];
    }
    if e.Approve? && AnswerTo(s.table, e.id, e.tenant, e.isAdmin) == Granted {
      assert s'.granted[|s.granted|].0 == e.id;
    }
  }

  lemma PendingUngranted(s: State, id: nat)
    requires Decisions(s) && id in s.table && s.table[id].status == Pending
    ensures !WasGranted(s, id)
  {
  }

  lemma StepKeepsIds(s: State, e: Step)
    requires Ids(s) && Enabled(s, e)
    ensures Ids(Apply(s, e))
  {
  }

  /** A decision is only taken on a pending approval, which nobody has granted or refused before. */
  lemma DecidingKeepsDecisions(s: State, e: Step)
    requires Ids(s) && Decisions(s) && Enabled(s, e) && (e.Approve? || e.Reject?)
    requires Decidable(s.table, e.id, e.tenant) ==> s.table[e.id].executedAt.None?
    ensures Decisions(Apply(s, e))
  {
    if Decidable(s.table, e.id, e.tenant) { PendingUngranted(s, e.id); }
  }

  lemma StepKeepsDecisions(s: State, e: Step)
    requires Inv(s) && Enabled(s, e)
    ensures Decisions(Apply(s, e))
  {
    if e.Approve? || e.Reject? {
      if Decidable(s.table, e.id, e.tenant) { PendingUngranted(s, e.id); }
      DecidingKeepsDecisions(s, e);
    } else {
      OthersKeepDecisions(s, e);
    }
  }

  /** The goroutine writes only to what was granted, and cleanup keeps what was refused. */
  lemma OthersKeepDecisions(s: State, e: Step)
    requires Ids(s) && Decisions(s) && Executions(s) && Enabled(s, e) && !e.Approve? && !e.Reject?
    ensures Decisions(Apply(s, e))
  {
  }

  lemma DecidingKeepsExecutions(s: State, e: Step)
    requires Ids(s) && Executions(s) && Enabled(s, e) && (e.Approve? || e.Reject?)
    requires e.Approve? && Decidable(s.table, e.id, e.tenant) ==> e.id !in s.called && s.table[e.id].executedAt.None?
    ensures Executions(Apply(s, e))
  {
  }

  predicate IsWrite(e: Step) {
    e.Fail? || e.SetResult? || e.Stamp?
  }

  lemma WritesKeepExecutions(s: State, e: Step)
    requires Ids(s) && Executions(s) && Enabled(s, e) && IsWrite(e)
    ensures Executions(Apply(s, e))
  {
  }

  lemma OthersKeepExecutions(s: State, e: Step)
    requires Ids(s) && Executions(s) && Enabled(s, e) && !e.Approve? && !e.Reject? && !IsWrite(e)
    ensures Executions(Apply(s, e))
  {
  }

  lemma StepKeepsExecutions(s: State, e: Step)
    requires Ids(s) && Executions(s) && Enabled(s, e)
    requires e.Approve? && Decidable(s.table, e.id, e.tenant) ==> e.id !in s.called && s.table[e.id].executedAt.None?
    ensures Executions(Apply(s, e))
  {
    if e.Approve? || e.Reject? {
      DecidingKeepsExecutions(s, e);
    } else if IsWrite(e) {
      WritesKeepExecutions(s, e);
    } else {
      OthersKeepExecutions(s, e);
    }
  }

  lemma StepKeepsOnlyGranted(s: State, e: Step)
    requires OnlyGranted(s) && Enabled(s, e)
    ensures OnlyGranted(Apply(s, e))
  {
    GrantedGrows(s, e);
    var s' := Apply(s, e);
    assert forall id :: id in s'.executing ==>
        id in s.executing || (e.Approve? && e.id == id && AnswerTo(s.table, e.id, e.tenant, e.isAdmin) == Granted);
    assert forall id :: id in s'.called ==> id in s.called || (e.CallTool? && id == e.id);
  }

  lemma StepKeepsInv(s: State, e: Step)
    requires Inv(s) && Enabled(s, e)
    ensures Inv(Apply(s, e))
  {
    StepKeepsIds(s, e);
    StepKeepsDecisions(s, e);
    if e.Approve? && Decidable(s.table, e.id, e.tenant) { PendingUngranted(s, e.id); }
    StepKeepsExecutions(s, e);
    StepKeepsOnlyGranted(s, e);
  }

  lemma {:induction false} ReachableInv(states: seq<State>, steps: seq<Step>, i: nat)
    requires Run(states, steps) && i < |states|
    ensures Inv(states[i])
  {
    if i > 0 {
      ReachableInv(states, steps, i - 1);
      StepKeepsInv(states[i - 1], steps[i - 1]);
    }
  }

  /** Ids are never reused: a new approval's id has never been handed out before. */
  lemma IdsNeverReused(states: seq<State>, steps: seq<Step>, i: nat, j: nat)
    requires Run(states, steps) && i < j < |steps| && steps[i].Create? && steps[j].Create?
    ensures states[i].nextId < states[j].nextId
  {
    NextIdGrows(states, steps, i + 1, j);
    assert states[i + 1] == Apply(states[i], steps[i]);
  }

  lemma {:induction false} NextIdGrows(states: seq<State>, steps: seq<Step>, i: nat, j: nat)
    requires Run(states, steps) && i <= j < |states|
    ensures states[i].nextId <= states[j].nextId
  {
    if i < j {
      NextIdGrows(states, steps, i, j - 1);
      assert states[j] == Apply(states[j - 1], steps[j - 1]);
    }
  }

  /**
   * Each approval's tool is called at most once, only after a granted approval by its own tenant,
   * and never when it was rejected.
   */
  lemma CalledOnceAfterApproval(states: seq<State>, steps: seq<Step>, n: nat, i: nat)
    requires Run(states, steps) && n < |states| && i < |states[n].called|
    ensures forall j :: 0 <= j < |states[n].called| && j != i ==> states[n].called[j] != states[n].called[i]
    ensures exists k :: 0 <= k < |states[n].granted| && states[n].granted[k].0 == states[n].called[i]
              && states[n].called[i] in states[n].owners && states[n].granted[k].1 == states[n].owners[states[n].called[i]]
    ensures states[n].called[i] !in states[n].refused
  {
    ReachableInv(states, steps, n);
    assert WasGranted(states[n], states[n].called[i]);
  }

  /** A grant is only ever recorded by an admin's Approve of a pending approval of the same tenant. */
  lemma GrantedOnlyFromPending(s: State, e: Step)
    requires Apply(s, e).granted != s.granted
    ensures e.Approve? && e.isAdmin && e.id in s.table && s.table[e.id].status == Pending && s.table[e.id].tenant == e.tenant
  {
  }

  /**
   * Cleanup removes exactly the approvals stamped before the threshold: never a pending one, never a
   * rejected one, which therefore stays for good, and one still executing only when it is past its stamp.
   */
  lemma CleanupRemovesOnlyFinished(states: seq<State>, steps: seq<Step>, n: nat, id: nat)
    requires Run(states, steps) && n < |steps| && steps[n].Cleanup? && id in states[n].table
    ensures id !in states[n + 1].table <==>
            states[n].table[id].executedAt.Some? && states[n].table[id].executedAt.value < states[n].now - steps[n].age
    ensures states[n].table[id].status == Pending || id in states[n].refused ==> id in states[n + 1].table
    ensures id in states[n].executing && states[n].executing[id] != Stamped ==> id in states[n + 1].table
  {
    ReachableInv(states, steps, n);
    assert states[n + 1] == Apply(states[n], steps[n]);
  }

  /** One approval, created and granted at time 0. */
  function OnlyOne(status: Status, executedAt: Option<int>): Table {
    map[0 := Approval(1, 1, "", "", "", status, "", 0, executedAt)]
  }

  function OnlyOneState(table: Table, now: int, executing: map<nat, Execution>, granted: seq<(nat, nat)>, called: seq<nat>): State {
    State(table, 1, now, executing, map[0 := 1], granted, {}, called)
  }

  lemma OnlyOneSteps(age: nat)
    ensures var s0 := State(map[], 0, 0, map[], map[], [], {}, []);
            Apply(s0, Create(1, 1, "", "", "")) == OnlyOneState(OnlyOne(Pending, None), 0, map[], [], [])
    ensures Apply(OnlyOneState(OnlyOne(Pending, None), 0, map[], [], []), Approve(0, 1, 1, true))
         == OnlyOneState(OnlyOne(Approved, None), 0, map[0 := Started], [(0, 1)], [])
    ensures Apply(OnlyOneState(OnlyOne(Approved, None), 0, map[0 := Started], [(0, 1)], []), CallTool(0))
         == OnlyOneState(OnlyOne(Approved, None), 0, map[0 := ToolCalled], [(0, 1)], [0])
    ensures Apply(OnlyOneState(OnlyOne(Approved, None), 0, map[0 := ToolCalled], [(0, 1)], [0]), Stamp(0))
         == OnlyOneState(OnlyOne(Approved, Some(0)), 0, map[0 := Stamped], [(0, 1)], [0])
    ensures Apply(OnlyOneState(OnlyOne(Approved, Some(0)), age + 1, map[0 := Stamped], [(0, 1)], [0]), Cleanup(age))
         == OnlyOneState(map[], age + 1, map[0 := Stamped], [(0, 1)], [0])
  {
    var t := OnlyOne(Pending, None);
    assert AfterApprove(t, 0, 1, 1, true) == OnlyOne(Approved, None);
    assert AfterStamp(OnlyOne(Approved, None), 0, 0) == OnlyOne(Approved, Some(0));
    assert AfterCleanup(OnlyOne(Approved, Some(0)), 1) == map[];
  }

  /** An execution that waits to write back for longer than the age is cleaned away under it: such runs exist for every age. */
  lemma ExecutingCanBeRemoved(age: nat) returns (states: seq<State>, steps: seq<Step>)
    ensures Run(states, steps) && |steps| >= 1 && steps[|steps| - 1] == Cleanup(age)
    ensures var n := |steps| - 1;
            0 in states[n].executing && states[n].executing[0] == Stamped && 0 in states[n].table
            && 0 in states[n + 1].executing && 0 !in states[n + 1].table
  {
    OnlyOneSteps(age);
    var stamped := OnlyOne(Approved, Some(0));
    states := [State(map[], 0, 0, map[], map[], [], {}, []),
               OnlyOneState(OnlyOne(Pending, None), 0, map[], [], []),
               OnlyOneState(OnlyOne(Approved, None), 0, map[0 := Started], [(0, 1)], []),
               OnlyOneState(OnlyOne(Approved, None), 0, map[0 := ToolCalled], [(0, 1)], [0]),
               OnlyOneState(stamped, 0, map[0 := Stamped], [(0, 1)], [0]),
               OnlyOneState(stamped, age + 1, map[0 := Stamped], [(0, 1)], [0]),
               OnlyOneState(map[], age + 1, map[0 := Stamped], [(0, 1)], [0])];
    steps := [Create(1, 1, "", "", ""), Approve(0, 1, 1, true), CallTool(0), Stamp(0), Wait(age + 1), Cleanup(age)];
  }
}
