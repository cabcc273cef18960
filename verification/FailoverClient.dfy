/** The frontend's failover client: ClusterClient in frontend/src/api/client.js, one request at a time. */
module FailoverClient {
  const MAX_FAILURES: nat := 3
  const DISABLE_TIME: int := 60_000

  class ClientNode {
    const url: string
    var failures: nat
    var disabledUntil: int
    var successCount: nat

    constructor (url: string)
      ensures this.url == url && failures == 0 && disabledUntil == 0 && successCount == 0
    {
      this.url := url;
      failures, disabledUntil, successCount := 0, 0, 0;
    }

    ghost function State(): NodeState
      reads this
    {
      NodeState(failures, disabledUntil, successCount)
    }

    method Record(ok: bool, at: int)
      modifies this
      ensures State() == AfterAttempt(old(State()), ok, at)
      ensures ok ==> failures == 0 && successCount == old(successCount) + 1 && disabledUntil == old(disabledUntil)
      ensures !ok ==> failures == old(failures) + 1 && successCount == old(successCount)
                      && disabledUntil == if failures >= 3 then at + 60_000 else old(disabledUntil)
    {
      if ok {
        failures := 0;
        successCount := successCount + 1;
      } else {
        failures := failures + 1;
        if failures >= MAX_FAILURES {
          disabledUntil := at + DISABLE_TIME;
        }
      }
    }

    predicate Active(now: int)
      reads this
    {
      disabledUntil == 0 || disabledUntil < now
    }
  }

  /** The filter of getActiveNodes: the active nodes in their configured order. */
  ghost function ActiveNodes(nodes: seq<ClientNode>, now: int): seq<ClientNode>
    reads nodes
  {
    if nodes == [] then []
    else
      var rest := ActiveNodes(nodes[..|nodes| - 1], now);
      if nodes[|nodes| - 1].Active(now) then rest + [nodes[|nodes| - 1]] else rest
  }

  ghost predicate Distinct(nodes: seq<ClientNode>) {
    forall i, j :: 0 <= i < j < |nodes| ==> nodes[i] != nodes[j]
  }

  lemma {:induction false} ActiveNodesMembers(nodes: seq<ClientNode>, now: int)
    ensures forall n :: n in ActiveNodes(nodes, now) <==> n in nodes && n.Active(now)
    ensures Distinct(nodes) ==> Distinct(ActiveNodes(nodes, now))
  {
    if nodes != [] {
      var init := nodes[..|nodes| - 1];
      ActiveNodesMembers(init, now);
      assert nodes == init + [nodes[|nodes| - 1]];
      if Distinct(nodes) {
        assert nodes[|nodes| - 1] !in init;
        assert nodes[|nodes| - 1] !in ActiveNodes(init, now);
      }
    }
  }

  /** One node stands before another in the list only if it does in the other list. */
  ghost predicate InOrder(active: seq<ClientNode>, nodes: seq<ClientNode>) {
    forall i, j :: 0 <= i < j < |active| ==> StandsBefore(active[i], active[j], nodes)
  }

  ghost predicate StandsBefore(a: ClientNode, b: ClientNode, nodes: seq<ClientNode>) {
    exists p, q :: 0 <= p < q < |nodes| && nodes[p] == a && nodes[q] == b
  }

  lemma Stands(n: ClientNode, nodes: seq<ClientNode>, now: int)
    requires n in ActiveNodes(nodes, now)
    ensures n in nodes
  {
    ActiveNodesMembers(nodes, now);
  }

  lemma {:induction false} ActiveNodesInOrder(nodes: seq<ClientNode>, now: int)
    ensures InOrder(ActiveNodes(nodes, now), nodes)
  {
    if nodes != [] {
      var init := nodes[..|nodes| - 1];
      ActiveNodesInOrder(init, now);
      ActiveNodesMembers(init, now);
      var earlier, all := ActiveNodes(init, now), ActiveNodes(nodes, now);
      forall i, j | 0 <= i < j < |all|
        ensures StandsBefore(all[i], all[j], nodes)
      {
        assert all[i] == earlier[i];
        if j < |earlier| {
          assert StandsBefore(earlier[i], earlier[j], init);
          var p, q :| 0 <= p < q < |init| && init[p] == earlier[i] && init[q] == earlier[j];
          assert nodes[p] == all[i] && nodes[q] == all[j];
        } else {
          Stands(earlier[i], init, now);
          var p :| 0 <= p < |init| && init[p] == earlier[i];
          assert nodes[p] == all[i] && nodes[|nodes| - 1] == all[j];
        }
      }
    }
  }

  /** The `k`-th position tried when starting at `start` among `m`. */
  function Turn(start: nat, k: nat, m: nat): nat
    requires start < m && k <= m
  {
    if start + k < m then start + k else start + k - m
  }

  /** The nodes of the first `count` attempts. */
  ghost function Tried(active: seq<ClientNode>, start: nat, count: nat): seq<ClientNode>
    requires start < |active| && count <= |active|
  {
    seq(count, k requires 0 <= k < count => active[Turn(start, k, |active|)])
  }

  /** A full round tries every active node, and no round tries a node twice. */
  lemma RoundVisitsEachOnce(active: seq<ClientNode>, start: nat, count: nat)
    requires start < |active| && count <= |active| && Distinct(active)
    ensures Distinct(Tried(active, start, count))
    ensures count == |active| ==> forall n :: n in active ==> n in Tried(active, start, count)
  {
    var m := |active|;
    if count == m {
      forall n | n in active
        ensures n in Tried(active, start, count)
      {
        var i :| 0 <= i < m && active[i] == n;
        var k := if i >= start then i - start else i + m - start;
        assert Tried(active, start, count)[k] == n;
      }
    }
  }

  /**
   * One request's attempts: from `start` in cyclic order, up to and including the first success, or
   * all the way round.
   */
  ghost predicate Round(active: seq<ClientNode>, start: nat, reply: nat -> bool, tried: seq<ClientNode>, ok: bool)
    requires start < |active|
  {
    && 0 < |tried| <= |active| && tried == Tried(active, start, |tried|)
    && (forall k :: 0 <= k < |tried| - 1 ==> !reply(k))
    && ok == reply(|tried| - 1)
    && (!ok ==> |tried| == |active|)
  }

  /** A request never tries a node twice, and is rejected exactly when every active node has failed. */
  lemma RejectedIffAllFail(active: seq<ClientNode>, start: nat, reply: nat -> bool, tried: seq<ClientNode>, ok: bool)
    requires Distinct(active) && start < |active| && Round(active, start, reply, tried, ok)
    ensures Distinct(tried)
    ensures !ok <==> forall k :: 0 <= k < |active| ==> !reply(k)
    ensures !ok ==> forall n :: n in active ==> n in tried
  {
    RoundVisitsEachOnce(active, start, |tried|);
    if ok { assert reply(|tried| - 1); }
  }

  datatype NodeState = NodeState(failures: nat, disabledUntil: int, successCount: nat)

  /** A node after an attempt that succeeded, or whose failure was seen at time `at`. */
  function AfterAttempt(s: NodeState, ok: bool, at: int): NodeState {
    if ok then s.(failures := 0, successCount := s.successCount + 1)
    else
      s.(failures := s.failures + 1,
         disabledUntil := if s.failures + 1 >= MAX_FAILURES then at + DISABLE_TIME else s.disabledUntil)
  }

  // One trailing slash goes, and no more.
  function WithoutSlash(url: string): string {
    if url != "" && url[|url| - 1] == '/' then url[..|url| - 1] else url
  }

  class ClusterClient {
    const nodes: seq<ClientNode>
    var currentIndex: nat

    ghost predicate Valid() {
      Distinct(nodes)
    }

    constructor (urls: seq<string>)
      ensures Valid() && currentIndex == 0 && |nodes| == |urls|
      ensures forall i :: 0 <= i < |urls| ==> nodes[i].url == WithoutSlash(urls[i]) && nodes[i].State() == NodeState(0, 0, 0)
      ensures forall i :: 0 <= i < |urls| ==> nodes[i].url == urls[i] || nodes[i].url + "/" == urls[i]
    {
      var made: seq<ClientNode> := [];
      for i := 0 to |urls|
        invariant |made| == i && Distinct(made)
        invariant forall j :: 0 <= j < i ==>
                    fresh(made[j]) && made[j].url == WithoutSlash(urls[j]) && made[j].State() == NodeState(0, 0, 0)
      {
        var n := new ClientNode(WithoutSlash(urls[i]));
        made := made + [n];
      }
      nodes := made;
      currentIndex := 0;
    }

    method GetActiveNodes(now: int) returns (active: seq<ClientNode>)
      ensures active == ActiveNodes(nodes, now)
      ensures forall n :: n in active <==> n in nodes && (n.disabledUntil == 0 || n.disabledUntil < now)
      ensures InOrder(active, nodes)
    {
      active := [];
      for i := 0 to |nodes|
        invariant active == ActiveNodes(nodes[..i], now)
      {
        assert nodes[..i + 1][..i] == nodes[..i];
        if nodes[i].Active(now) {
          active := active + [nodes[i]];
        }
      }
      assert nodes[..|nodes|] == nodes;
      ActiveNodesMembers(nodes, now);
      ActiveNodesInOrder(nodes, now);
    }

    /**
     * `reply(k)` says whether attempt `k` succeeds and `clock(k)` is the time its failure is seen.
     * The attempts go round the active nodes from the current index, stop at the first success, and
     * reject only after every active node has been tried.
     */
    method Request(now: int, reply: nat -> bool, clock: nat -> int) returns (ok: bool, tried: seq<ClientNode>)
      requires Valid()
      modifies this, nodes
      ensures var active := old(ActiveNodes(nodes, now));
              if active == [] then !ok && tried == [] && currentIndex == old(currentIndex)
              else
                && Round(active, old(currentIndex) % |active|, reply, tried, ok)
                && currentIndex == Turn(old(currentIndex) % |active|, |tried|, |active|)
      ensures forall n, k :: n in nodes && 0 <= k < |tried| && tried[k] == n ==>
                n.State() == AfterAttempt(old(n.State()), reply(k), clock(k))
      ensures forall n :: n in nodes && n !in tried ==> unchanged(n)
    {
      var active := GetActiveNodes(now);
      ActiveNodesMembers(nodes, now);
      if |active| == 0 {
        return false, [];
      }
      assert forall i :: 0 <= i < |active| ==> active[i] in active && active[i] in nodes;
      ok, tried := TryInTurn(active, reply, clock);
    }

    /** The loop of `request` over its list of active nodes. */
    method TryInTurn(active: seq<ClientNode>, reply: nat -> bool, clock: nat -> int)
        returns (ok: bool, tried: seq<ClientNode>)
      requires active != [] && Distinct(active)
      modifies this, active
      ensures Round(active, old(currentIndex) % |active|, reply, tried, ok)
      ensures currentIndex == Turn(old(currentIndex) % |active|, |tried|, |active|)
      ensures forall n, k :: n in active && 0 <= k < |tried| && tried[k] == n ==>
                n.State() == AfterAttempt(old(n.State()), reply(k), clock(k))
      ensures forall n :: n in active && n !in tried ==> unchanged(n)
    {
      ghost var start := currentIndex % |active|;
      ModStart(start, |active|);
      tried := [];
      var i := 0;
      while i < |active|
        invariant 0 <= i <= |active|
        invariant tried == Tried(active, start, i)
        invariant i > 0 ==> currentIndex == Turn(start, i, |active|)
        invariant currentIndex % |active| == Turn(start, i, |active|) % |active|
        invariant forall k :: 0 <= k < i ==> !reply(k)
        invariant forall n, k :: n in active && 0 <= k < i && tried[k] == n ==>
                    n.State() == AfterAttempt(old(n.State()), reply(k), clock(k))
        invariant forall n :: n in active && n !in tried ==> unchanged(n)
      {
        NextTurn(active, start, i, currentIndex);
        var node := active[currentIndex % |active|];
        currentIndex := (currentIndex + 1) % |active|;
        tried := tried + [node];
        node.Record(reply(i), clock(i));
        if reply(i) {
          return true, tried;
        }
        i := i + 1;
      }
      ok := false;
    }
  }

  lemma ModStart(c: nat, m: nat)
    requires c < m
    ensures c % m == c
  {
  }

  /** The node at the index is the next turn's, has not been tried, and the index then moves one turn on. */
  lemma NextTurn(active: seq<ClientNode>, start: nat, i: nat, index: nat)
    requires Distinct(active) && start < |active| && i < |active|
    requires index % |active| == Turn(start, i, |active|) % |active|
    ensures var node := active[index % |active|];
            Tried(active, start, i + 1) == Tried(active, start, i) + [node] && node !in Tried(active, start, i)
    ensures (index + 1) % |active| == Turn(start, i + 1, |active|)
    ensures (index + 1) % |active| % |active| == (index + 1) % |active|
  {
    var m := |active|;
    ModStart(Turn(start, i, m), m);
    ModNext(index, m);
    ModStart((index + 1) % m, m);
    RoundVisitsEachOnce(active, start, i + 1);
    var longer := Tried(active, start, i + 1);
    assert longer == Tried(active, start, i) + [active[index % m]];
    assert longer[i] == active[index % m];
    assert forall k :: 0 <= k < i ==> longer[k] == Tried(active, start, i)[k];
  }

  lemma ModNext(c: nat, m: nat)
    requires m > 0
    ensures (c + 1) % m == if c % m + 1 < m then c % m + 1 else 0
  {
    var q, r := c / m, c % m;
    assert c == q * m + r;
    if r + 1 < m {
      assert c + 1 == q * m + (r + 1);
      ModUnique(c + 1, q, r + 1, m);
    } else {
      assert c + 1 == (q + 1) * m;
      ModUnique(c + 1, q + 1, 0, m);
    }
  }

  lemma ModUnique(x: nat, q: nat, r: nat, m: nat)
    requires r < m && x == q * m + r
    ensures x % m == r
  {
    assert x == (x / m) * m + x % m;
    LessFromProducts(x / m, q + 1, m);
    LessFromProducts(q, x / m + 1, m);
  }

  lemma LessFromProducts(a: int, b: int, n: int)
    requires n > 0 && a * n < b * n
    ensures a < b
  {
  }
}
