/** The tasks table and its handlers: server/controllers/tasks.go. One handler call is one atomic step. */
module TaskServer {
  import opened Options

  datatype Status = Pending | Running | Success | Failed | Canceled

  datatype Host = Host(id: nat, tenant: nat)

  datatype Task = Task(
    tenant: nat, host: nat, kind: string, command: string, status: Status, createdAt: int,
    startedAt: Option<int>, finishedAt: Option<int>, result: string)

  /** HTTP status codes the handlers answer with. */
  datatype Code = OK | Created | BadRequest | NotFound

  type Tasks = map<nat, Task>

  predicate PendingFor(t: Task, host: nat) {
    t.host == host && t.status == Pending
  }

  /** ORDER BY created_at ASC, id ASC */
  predicate Before(a: Task, i: nat, b: Task, j: nat) {
    a.createdAt < b.createdAt || (a.createdAt == b.createdAt && i <= j)
  }

  /** `id` is the pending task of the host that `next` picks. */
  ghost predicate IsNext(tasks: Tasks, host: nat, id: nat) {
    && id in tasks && PendingFor(tasks[id], host)
    && forall j :: j in tasks && PendingFor(tasks[j], host) ==> Before(tasks[id], id, tasks[j], j)
  }

  ghost predicate NothingPending(tasks: Tasks, host: nat) {
    forall j :: j in tasks ==> !PendingFor(tasks[j], host)
  }

  function Dispatched(tasks: Tasks, id: nat, now: int): Tasks
    requires id in tasks
  {
    tasks[id := tasks[id].(status := Running, startedAt := Some(now))]
  }

  predicate Visible(tasks: Tasks, tenant: nat, id: nat) {
    id in tasks && tasks[id].tenant == tenant
  }

  /** Any reported status other than "success" counts as failed, whatever a task's current status. */
  function Reported(tasks: Tasks, tenant: nat, id: nat, status: string, result: string, now: int): Tasks {
    if !Visible(tasks, tenant, id) then tasks
    else tasks[id := tasks[id].(status := if status == "success" then Success else Failed, result := result, finishedAt := Some(now))]
  }

  function CanceledTask(tasks: Tasks, tenant: nat, id: nat, requested: string): Tasks {
    if Visible(tasks, tenant, id) && requested == "canceled" && tasks[id].status == Pending
    then tasks[id := tasks[id].(status := Canceled)] else tasks
  }

  function Deleted(tasks: Tasks, tenant: nat, id: nat): Tasks {
    if Visible(tasks, tenant, id) then tasks - {id} else tasks
  }

  function NewTask(host: Host, kind: string, command: string, now: int): Task {
    Task(host.tenant, host.id, if kind == "" then "shell" else kind, command, Pending, now, None, None, "")
  }

  /** The hosts that get a task: known ones of the tenant whose insert succeeds, in request order. */
  function Targets(hosts: map<string, Host>, tenant: nat, uuids: seq<string>, insertOk: nat -> bool): seq<Host> {
    if uuids == [] then []
    else
      var n := |uuids| - 1;
      var rest := Targets(hosts, tenant, uuids[..n], insertOk);
      if uuids[n] in hosts && hosts[uuids[n]].tenant == tenant && insertOk(n) then rest + [hosts[uuids[n]]] else rest
  }

  lemma TargetsOneMore(hosts: map<string, Host>, tenant: nat, uuids: seq<string>, i: nat, insertOk: nat -> bool)
    requires i < |uuids|
    ensures var before, u := Targets(hosts, tenant, uuids[..i], insertOk), uuids[i];
            Targets(hosts, tenant, uuids[..i + 1], insertOk)
            == if u in hosts && hosts[u].tenant == tenant && insertOk(i) then before + [hosts[u]] else before
  {
    assert uuids[..i + 1][..i] == uuids[..i];
  }

  function AddTasks(tasks: Tasks, from: nat, targets: seq<Host>, kind: string, command: string, now: int): Tasks {
    if targets == [] then tasks
    else
      AddTasks(tasks, from, targets[..|targets| - 1], kind, command, now)
      [from + |targets| - 1 := NewTask(targets[|targets| - 1], kind, command, now)]
  }

  /** Some requested uuid whose insert succeeds is a host of the tenant with this id. */
  ghost predicate IsTarget(hosts: map<string, Host>, tenant: nat, uuids: seq<string>, insertOk: nat -> bool, host: nat) {
    exists i: nat :: i < |uuids| && insertOk(i) && uuids[i] in hosts && hosts[uuids[i]] == Host(host, tenant)
  }

  /** The position of the request gets a task. */
  ghost predicate Gets(hosts: map<string, Host>, tenant: nat, uuids: seq<string>, insertOk: nat -> bool, i: nat)
    requires i < |uuids|
  {
    insertOk(i) && uuids[i] in hosts && hosts[uuids[i]].tenant == tenant
  }

  /** The positions among the first `n` that do. */
  ghost function Granted(hosts: map<string, Host>, tenant: nat, uuids: seq<string>, insertOk: nat -> bool, n: nat): set<nat>
    requires n <= |uuids|
  {
    set i: nat | i < n && Gets(hosts, tenant, uuids, insertOk, i)
  }

  lemma GrantedOneMore(hosts: map<string, Host>, tenant: nat, uuids: seq<string>, insertOk: nat -> bool, n: nat)
    requires n < |uuids|
    ensures |Granted(hosts, tenant, uuids, insertOk, n + 1)| == |Granted(hosts, tenant, uuids, insertOk, n)|
              + if Gets(hosts, tenant, uuids, insertOk, n) then 1 else 0
  {
    var before, after := Granted(hosts, tenant, uuids, insertOk, n), Granted(hosts, tenant, uuids, insertOk, n + 1);
    if Gets(hosts, tenant, uuids, insertOk, n) {
      assert after == before + {n};
    } else {
      assert after == before;
    }
  }

  /** There is one target for each such position. */
  lemma {:induction false} TargetsAre(hosts: map<string, Host>, tenant: nat, uuids: seq<string>, insertOk: nat -> bool, n: nat)
    requires n <= |uuids|
    ensures var targets := Targets(hosts, tenant, uuids[..n], insertOk);
            && |targets| == |Granted(hosts, tenant, uuids, insertOk, n)|
            && forall k :: 0 <= k < |targets| ==>
                 targets[k].tenant == tenant && IsTarget(hosts, tenant, uuids, insertOk, targets[k].id)
  {
    if n > 0 {
      TargetsAre(hosts, tenant, uuids, insertOk, n - 1);
      TargetsOneMore(hosts, tenant, uuids, n - 1, insertOk);
      GrantedOneMore(hosts, tenant, uuids, insertOk, n - 1);
      if uuids[n - 1] in hosts && hosts[uuids[n - 1]].tenant == tenant && insertOk(n - 1) {
        var h := hosts[uuids[n - 1]];
        assert h == Host(h.id, tenant);
        assert IsTarget(hosts, tenant, uuids, insertOk, h.id);
      }
    }
  }

  /** Under this id there is a new pending task for the host. */
  ghost predicate HasNewTask(tasks: Tasks, id: nat, host: Host, kind: string, command: string, now: int) {
    id in tasks
    && tasks[id] == Task(host.tenant, host.id, if kind == "" then "shell" else kind, command, Pending, now, None, None, "")
  }

  ghost predicate NewTaskAt(tasks: Tasks, from: nat, targets: seq<Host>, k: nat, kind: string, command: string, now: int)
    requires k < |targets|
  {
    HasNewTask(tasks, from + k, targets[k], kind, command, now)
  }

  /** Old tasks stay, and the new ones are pending tasks of the targets, one id after another. */
  lemma {:induction false} AddedInFields(tasks: Tasks, from: nat, targets: seq<Host>, kind: string, command: string, now: int)
    ensures forall id :: id in tasks && id < from ==>
              id in AddTasks(tasks, from, targets, kind, command, now) && AddTasks(tasks, from, targets, kind, command, now)[id] == tasks[id]
    ensures forall k: nat :: k < |targets| ==>
              NewTaskAt(AddTasks(tasks, from, targets, kind, command, now), from, targets, k, kind, command, now)
  {
    if targets != [] {
      var n := |targets| - 1;
      var init := targets[..n];
      AddedInFields(tasks, from, init, kind, command, now);
      var before, after := AddTasks(tasks, from, init, kind, command, now), AddTasks(tasks, from, targets, kind, command, now);
      assert after == before[from + n := NewTask(targets[n], kind, command, now)];
      forall k: nat | k < |targets|
        ensures NewTaskAt(after, from, targets, k, kind, command, now)
      {
        if k < n { assert NewTaskAt(before, from, init, k, kind, command, now) && init[k] == targets[k]; }
      }
    }
  }

  /** What a creation leaves: the old tasks, and a pending task of this command for each position that gets one. */
  ghost predicate CreatedFor(before: Tasks, from: nat, after: Tasks, to: nat, hosts: map<string, Host>, tenant: nat,
                             uuids: seq<string>, insertOk: nat -> bool, kind: string, command: string, now: int) {
    && (forall id :: id in before && id < from ==> id in after && after[id] == before[id])
    && to == from + |Granted(hosts, tenant, uuids, insertOk, |uuids|)|
    && forall id: nat :: from <= id < to ==>
         && id in after && HasNewTask(after, id, Host(after[id].host, tenant), kind, command, now)
         && IsTarget(hosts, tenant, uuids, insertOk, after[id].host)
  }

  lemma AddedAreCreated(before: Tasks, from: nat, hosts: map<string, Host>, tenant: nat, uuids: seq<string>,
                        insertOk: nat -> bool, kind: string, command: string, now: int)
    ensures var targets := Targets(hosts, tenant, uuids, insertOk);
            CreatedFor(before, from, AddTasks(before, from, targets, kind, command, now), from + |targets|,
                       hosts, tenant, uuids, insertOk, kind, command, now)
  {
    assert uuids[..|uuids|] == uuids;
    var targets := Targets(hosts, tenant, uuids, insertOk);
    var after := AddTasks(before, from, targets, kind, command, now);
    TargetsAre(hosts, tenant, uuids, insertOk, |uuids|);
    AddedInFields(before, from, targets, kind, command, now);
    forall id: nat | from <= id < from + |targets|
      ensures id in after && HasNewTask(after, id, Host(after[id].host, tenant), kind, command, now)
      ensures IsTarget(hosts, tenant, uuids, insertOk, after[id].host)
    {
      var h := targets[id - from];
      assert NewTaskAt(after, from, targets, id - from, kind, command, now) && h == Host(h.id, tenant);
    }
  }

  lemma AddOneMore(tasks: Tasks, from: nat, targets: seq<Host>, host: Host, kind: string, command: string, now: int)
    ensures AddTasks(tasks, from, targets + [host], kind, command, now)
         == AddTasks(tasks, from, targets, kind, command, now)[from + |targets| := NewTask(host, kind, command, now)]
  {
    assert (targets + [host])[..|targets|] == targets;
  }

  /** An empty type stands for "shell". */
  lemma {:induction false} AddedKinds(tasks: Tasks, from: nat, targets: seq<Host>, kind: string, command: string, now: int)
    ensures AddTasks(tasks, from, targets, if kind == "" then "shell" else kind, command, now)
         == AddTasks(tasks, from, targets, kind, command, now)
  {
    if targets != [] { AddedKinds(tasks, from, targets[..|targets| - 1], kind, command, now); }
  }

  class Server {
    var tasks: Tasks
    var nextId: nat

    constructor ()
      ensures tasks == map[] && nextId == 1
    {
      tasks, nextId := map[], 1;
    }

    method CreateTasks(tenant: nat, hosts: map<string, Host>, hostUUIDs: seq<string>, hostUUID: string,
                       kind: string, command: string, now: int, insertOk: nat -> bool) returns (code: Code)
      modifies this
      ensures var uuids := if hostUUIDs == [] && hostUUID != "" then [hostUUID] else hostUUIDs;
              var targets := Targets(hosts, tenant, uuids, insertOk);
              if uuids == [] || command == "" then code == BadRequest && tasks == old(tasks) && nextId == old(nextId)
              else
                && tasks == AddTasks(old(tasks), old(nextId), targets, kind, command, now)
                && nextId == old(nextId) + |targets|
                && code == if targets == [] then NotFound else Created
      ensures (hostUUIDs != [] || hostUUID != "") && command != "" ==>
                CreatedFor(old(tasks), old(nextId), tasks, nextId, hosts, tenant,
                           if hostUUIDs == [] then [hostUUID] else hostUUIDs, insertOk, kind, command, now)
    {
      var uuids := hostUUIDs;
      if |uuids| == 0 && hostUUID != "" {
        uuids := [hostUUID];
      }
      if |uuids| == 0 || command == "" {
        return BadRequest;
      }
      var created := InsertTasks(tenant, hosts, uuids, if kind == "" then "shell" else kind, command, now, insertOk);
      ghost var targets := Targets(hosts, tenant, uuids, insertOk);
      AddedKinds(old(tasks), old(nextId), targets, kind, command, now);
      AddedAreCreated(old(tasks), old(nextId), hosts, tenant, uuids, insertOk, kind, command, now);
      code := if created == 0 then NotFound else Created;
    }

    /** The loop over the requested hosts; an unknown host or a failing insert is passed over. */
    method InsertTasks(tenant: nat, hosts: map<string, Host>, uuids: seq<string>, kind: string, command: string,
                       now: int, insertOk: nat -> bool) returns (created: nat)
      requires kind != ""
      modifies this
      ensures var targets := Targets(hosts, tenant, uuids, insertOk);
              && created == |targets| && nextId == old(nextId) + |targets|
              && tasks == AddTasks(old(tasks), old(nextId), targets, kind, command, now)
    {
      ghost var targets: seq<Host> := [];
      created := 0;
      for i := 0 to |uuids|
        invariant targets == Targets(hosts, tenant, uuids[..i], insertOk) && created == |targets|
        invariant nextId == old(nextId) + |targets|
        invariant tasks == AddTasks(old(tasks), old(nextId), targets, kind, command, now)
      {
        TargetsOneMore(hosts, tenant, uuids, i, insertOk);
        var u := uuids[i];
        if u in hosts && hosts[u].tenant == tenant && insertOk(i) {
          AddOneMore(old(tasks), old(nextId), targets, hosts[u], kind, command, now);
          var t := Task(tenant, hosts[u].id, kind, command, Pending, now, None, None, "");
          tasks := tasks[nextId := t];
          nextId := nextId + 1;
          targets := targets + [hosts[u]];
          created := created + 1;
        }
      }
      assert uuids[..|uuids|] == uuids;
    }

    /** GET /api/agents/tasks/next */
    method NextTask(hosts: map<string, Host>, tenant: nat, hostUUID: string, now: int) returns (code: Code, id: nat)
      modifies this
      ensures nextId == old(nextId)
      ensures code == OK <==> hostUUID in hosts && hostUUID != "" && hosts[hostUUID].tenant == tenant
                              && !NothingPending(old(tasks), hosts[hostUUID].id)
      ensures code == OK ==> IsNext(old(tasks), hosts[hostUUID].id, id) && tasks == Dispatched(old(tasks), id, now)
      ensures code == OK ==>
                && id in old(tasks) && old(tasks)[id].host == hosts[hostUUID].id && old(tasks)[id].status == Pending
                && tasks == old(tasks)[id := old(tasks)[id].(status := Running, startedAt := Some(now))]
                && forall j :: j in old(tasks) && old(tasks)[j].host == hosts[hostUUID].id && old(tasks)[j].status == Pending ==>
                     old(tasks)[id].createdAt <= old(tasks)[j].createdAt
      ensures code != OK ==> tasks == old(tasks)
      ensures code == BadRequest <==> hostUUID == ""
    {
      id := 0;
      if hostUUID == "" {
        return BadRequest, 0;
      }
      if hostUUID !in hosts || hosts[hostUUID].tenant != tenant {
        return NotFound, 0;
      }
      var host := hosts[hostUUID].id;
      var found := false;
      var todo := tasks.Keys;
      while todo != {}
        invariant todo <= tasks.Keys && tasks == old(tasks)
        invariant !found ==> forall j :: j in tasks && j !in todo ==> !PendingFor(tasks[j], host)
        invariant found ==> id in tasks && PendingFor(tasks[id], host)
        invariant found ==> forall j :: j in tasks && j !in todo && PendingFor(tasks[j], host) ==> Before(tasks[id], id, tasks[j], j)
        decreases |todo|
      {
        var j :| j in todo;
        if PendingFor(tasks[j], host) && (!found || !Before(tasks[id], id, tasks[j], j)) {
          found, id := true, j;
        }
        todo := todo - {j};
      }
      if !found {
        return NotFound, 0;
      }
      tasks := tasks[id := tasks[id].(status := Running, startedAt := Some(now))];
      code := OK;
    }

    /** POST /api/agents/tasks/{id}/result */
    method ReportResult(tenant: nat, id: nat, reported: string, result: string, now: int) returns (code: Code)
      modifies this
      ensures tasks == Reported(old(tasks), tenant, id, reported, result, now) && nextId == old(nextId)
      ensures id in old(tasks) && old(tasks)[id].tenant == tenant ==>
                tasks == old(tasks)[id := old(tasks)[id].(status := if reported == "success" then Success else Failed,
                                                          result := result, finishedAt := Some(now))]
      ensures id !in old(tasks) || old(tasks)[id].tenant != tenant ==> tasks == old(tasks)
      ensures code == if Visible(old(tasks), tenant, id) then OK else NotFound
    {
      if id !in tasks || tasks[id].tenant != tenant {
        return NotFound;
      }
      var status := reported;
      if status != "success" && status != "failed" {
        status := "failed";
      }
      tasks := tasks[id := tasks[id].(status := if status == "success" then Success else Failed,
                                      result := result, finishedAt := Some(now))];
      code := OK;
    }

    /** PUT /api/tasks/{id} */
    method UpdateTask(tenant: nat, id: nat, requested: string) returns (code: Code)
      modifies this
      ensures tasks == CanceledTask(old(tasks), tenant, id, requested) && nextId == old(nextId)
      // A cancel of a pending task of the tenant cancels it and touches nothing else; any other request changes nothing.
      ensures id in old(tasks) && old(tasks)[id].tenant == tenant && old(tasks)[id].status == Pending && requested == "canceled" ==>
                tasks == old(tasks)[id := old(tasks)[id].(status := Canceled)]
      ensures id !in old(tasks) || old(tasks)[id].tenant != tenant || old(tasks)[id].status != Pending || requested != "canceled" ==>
                tasks == old(tasks)
      ensures code == if Visible(old(tasks), tenant, id) then OK else NotFound
    {
      if id !in tasks || tasks[id].tenant != tenant {
        return NotFound;
      }
      if requested == "canceled" && tasks[id].status == Pending {
        tasks := tasks[id := tasks[id].(status := Canceled)];
      }
      code := OK;
    }

    /** DELETE /api/tasks/{id}: the row disappears from every later query. */
    method DeleteTask(tenant: nat, id: nat) returns (code: Code)
      modifies this
      ensures tasks == Deleted(old(tasks), tenant, id) && nextId == old(nextId)
      ensures forall j :: j in tasks <==> j in old(tasks) && !(j == id && old(tasks)[id].tenant == tenant)
      ensures forall j :: j in tasks ==> tasks[j] == old(tasks)[j]
      ensures code == if Visible(old(tasks), tenant, id) then OK else NotFound
    {
      if id !in tasks || tasks[id].tenant != tenant {
        return NotFound;
      }
      tasks := tasks - {id};
      code := OK;
    }
  }

  /** Pending moves to running or canceled, running to success or failed; nothing else moves. */
  predicate LegalMove(a: Status, b: Status) {
    a == b || (a == Pending && (b == Running || b == Canceled)) || (a == Running && (b == Success || b == Failed))
  }

  /** The result handler accepts a report for any task, so it keeps the order only for a running one. */
  lemma ReportLegalIff(tasks: Tasks, tenant: nat, id: nat, status: string, result: string, now: int)
    requires Visible(tasks, tenant, id)
    ensures LegalMove(tasks[id].status, Reported(tasks, tenant, id, status, result, now)[id].status) <==>
            tasks[id].status == Running || tasks[id].status == if status == "success" then Success else Failed
  {
  }
}
