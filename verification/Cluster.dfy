/** One server node's view of the cluster: server/clustering/cluster.go. Times are in milliseconds. */
module Cluster {
  import opened Addresses

  const HEARTBEAT_INTERVAL: int := 10_000
  const DEAD_THRESHOLD: int := 30_000

  datatype NodeInfo = NodeInfo(address: string, nodeID: string, alive: bool, lastPingAt: int, failCount: nat)

  /** The value of a ClusterState: what one node believes. */
  datatype View = View(myAddress: string, nodes: map<string, NodeInfo>, knownNodes: seq<string>)

  datatype Ping = Ping(from: string, nodeID: string, target: string, sentAt: int)

  /** Table keys are trimmed addresses, and each entry carries its key. */
  ghost predicate WellFormed(v: View) {
    && (forall a :: a in v.nodes ==> SlashFree(a) && v.nodes[a].address == a)
    && Contains(v.knownNodes, v.myAddress)
  }

  function WithSelf(nodes: seq<string>, my: string): seq<string> {
    if Contains(nodes, my) then nodes else nodes + [my]
  }

  function Fresh(my: string, configured: seq<string>): View {
    View(my, map[], WithSelf(configured, my))
  }

  /** A ping revives a known entry in place and creates a missing one. */
  function Registered(v: View, address: string, nodeID: string, now: int): View {
    var addr := TrimSlash(address);
    v.(nodes := v.nodes[addr := NodeInfo(addr, nodeID, true, now, 0)])
  }

  predicate Expired(v: View, a: string, now: int)
    requires a in v.nodes
  {
    now - v.nodes[a].lastPingAt > DEAD_THRESHOLD && a != v.myAddress
  }

  /** The sweep only ever clears `alive`; entries are never removed. */
  function Swept(v: View, now: int): View {
    v.(nodes := map a | a in v.nodes ::
         if Expired(v, a, now) then v.nodes[a].(alive := false) else v.nodes[a])
  }

  ghost function Live(v: View): set<string> {
    set a | a in v.nodes && v.nodes[a].alive
  }

  ghost predicate SelfListed(v: View) {
    exists a :: a in Live(v) && TrimSlash(a) == TrimSlash(v.myAddress)
  }

  /** The live entries, plus this node's raw address unless some live entry already stands for it. */
  ghost function Healthy(v: View): set<string> {
    if SelfListed(v) then Live(v) else Live(v) + {v.myAddress}
  }

  /** The election rule: this node leads when no live entry is smaller. */
  ghost predicate Leads(v: View) {
    forall a :: a in Live(v) ==> LexLeq(v.myAddress, a)
  }

  /** The pings one heartbeat round sends: to every known node that is not this node. */
  function Heartbeats(v: View, known: seq<string>, nodeID: string, now: int): seq<Ping> {
    if known == [] then []
    else
      var rest := Heartbeats(v, known[..|known| - 1], nodeID, now);
      var n := known[|known| - 1];
      if TrimSlash(n) == TrimSlash(v.myAddress) then rest
      else rest + [Ping(v.myAddress, nodeID, TrimSlash(n), now)]
  }

  /**
   * The minimum of the healthy list is this node exactly when it leads, whatever the shape of its
   * own address: a non-slash-free address is larger than its own trimmed form.
   */
  lemma LeastIsSelfIffLeads(v: View, least: string)
    requires WellFormed(v) && IsLeast(least, Healthy(v))
    ensures least == v.myAddress <==> Leads(v)
  {
    LexReflexive(v.myAddress);
    if Leads(v) {
      if SelfListed(v) {
        var a :| a in Live(v) && TrimSlash(a) == TrimSlash(v.myAddress);
        TrimIsSlashFree(a);
        TrimLeq(v.myAddress);
        LexAntisymmetric(v.myAddress, a);
      }
      LexAntisymmetric(v.myAddress, least);
    }
  }

  lemma RegisteredWellFormed(v: View, address: string, nodeID: string, now: int)
    requires WellFormed(v)
    ensures WellFormed(Registered(v, address, nodeID, now))
  {
    TrimIsSlashFree(address);
  }

  lemma WithSelfContains(nodes: seq<string>, my: string)
    ensures Contains(WithSelf(nodes, my), my)
    ensures forall q :: Contains(nodes, q) ==> Contains(WithSelf(nodes, my), q)
  {
    var r := WithSelf(nodes, my);
    if !Contains(nodes, my) {
      assert r[|nodes|] == my;
      forall q | Contains(nodes, q)
        ensures Contains(r, q)
      {
        var i :| 0 <= i < |nodes| && TrimSlash(nodes[i]) == TrimSlash(q);
        assert r[i] == nodes[i];
      }
    }
  }

  /** A heartbeat round pings exactly the known nodes other than the sender. */
  lemma {:induction false} HeartbeatsReach(v: View, known: seq<string>, nodeID: string, now: int)
    ensures forall m :: m in Heartbeats(v, known, nodeID, now) ==>
              m.from == v.myAddress && m.sentAt == now && m.nodeID == nodeID
              && m.target != TrimSlash(v.myAddress)
    ensures forall t :: Ping(v.myAddress, nodeID, t, now) in Heartbeats(v, known, nodeID, now) <==>
              t != TrimSlash(v.myAddress) && exists i :: 0 <= i < |known| && TrimSlash(known[i]) == t
  {
    if known != [] {
      var init := known[..|known| - 1];
      var n := known[|known| - 1];
      HeartbeatsReach(v, init, nodeID, now);
      var rest := Heartbeats(v, init, nodeID, now);
      var all := Heartbeats(v, known, nodeID, now);
      forall t
        ensures Ping(v.myAddress, nodeID, t, now) in all <==>
                  t != TrimSlash(v.myAddress) && exists i :: 0 <= i < |known| && TrimSlash(known[i]) == t
      {
        if i :| 0 <= i < |known| && TrimSlash(known[i]) == t {
          if i < |init| { assert TrimSlash(init[i]) == t; }
        }
        if Ping(v.myAddress, nodeID, t, now) in rest {
          var i :| 0 <= i < |init| && TrimSlash(init[i]) == t;
          assert TrimSlash(known[i]) == t;
        } else if Ping(v.myAddress, nodeID, t, now) in all {
          assert TrimSlash(known[|known| - 1]) == t;
        }
      }
    }
  }

  ghost predicate SortedAscending(s: seq<string>) {
    forall i, j :: 0 <= i <= j < |s| ==> LexLeq(s[i], s[j])
  }

  /** sort.Strings, as an insertion sort. */
  method SortStrings(xs: seq<string>) returns (ys: seq<string>)
    ensures SortedAscending(ys) && multiset(ys) == multiset(xs)
  {
    ys := [];
    for i := 0 to |xs|
      invariant SortedAscending(ys) && multiset(ys) == multiset(xs[..i])
    {
      var k := 0;
      while k < |ys| && LexLeq(ys[k], xs[i])
        invariant 0 <= k <= |ys|
        invariant forall j :: 0 <= j < k ==> LexLeq(ys[j], xs[i])
      {
        k := k + 1;
      }
      InsertionSorted(ys, k, xs[i]);
      InsertionKeepsElements(ys, k, xs[i]);
      assert xs[..i + 1] == xs[..i] + [xs[i]];
      ys := ys[..k] + [xs[i]] + ys[k..];
    }
    assert xs[..|xs|] == xs;
  }

  lemma InsertionKeepsElements(ys: seq<string>, k: nat, x: string)
    requires k <= |ys|
    ensures multiset(ys[..k] + [x] + ys[k..]) == multiset(ys) + multiset{x}
  {
    assert ys == ys[..k] + ys[k..];
  }

  lemma InsertionSorted(ys: seq<string>, k: nat, x: string)
    requires SortedAscending(ys) && k <= |ys|
    requires forall j :: 0 <= j < k ==> LexLeq(ys[j], x)
    requires k < |ys| ==> !LexLeq(ys[k], x)
    ensures SortedAscending(ys[..k] + [x] + ys[k..])
  {
    var r := ys[..k] + [x] + ys[k..];
    LexReflexive(x);
    forall j | k <= j < |ys|
      ensures LexLeq(x, ys[j])
    {
      LexTotal(x, ys[k]);
      LexTransitive(x, ys[k], ys[j]);
    }
    forall i, j | 0 <= i <= j < |r|
      ensures LexLeq(r[i], r[j])
    {
      var a := if i < k then i else i - 1;
      var b := if j < k then j else j - 1;
      if i != k && j != k { assert r[i] == ys[a] && r[j] == ys[b]; }
    }
  }

  class ClusterState {
    const myAddress: string
    const myNodeID: string
    var nodes: map<string, NodeInfo>
    var knownNodes: seq<string>

    ghost function Value(): View
      reads this
    {
      View(myAddress, nodes, knownNodes)
    }

    ghost predicate Valid()
      reads this
    {
      WellFormed(Value())
    }

    constructor (advertiseAddr: string, addr: string, nodeID: string, configured: seq<string>)
      ensures Valid() && myNodeID == nodeID
      ensures Value() == Fresh(if advertiseAddr == "" then addr else advertiseAddr, configured)
      ensures nodes == map[] && myAddress == if advertiseAddr == "" then addr else advertiseAddr
      ensures (exists i :: 0 <= i < |configured| && TrimSlash(configured[i]) == TrimSlash(myAddress)) ==> knownNodes == configured
      ensures (forall i :: 0 <= i < |configured| ==> TrimSlash(configured[i]) != TrimSlash(myAddress)) ==>
                knownNodes == configured + [myAddress]
    {
      var my := if advertiseAddr == "" then addr else advertiseAddr;
      WithSelfContains(configured, my);
      myAddress := my;
      myNodeID := nodeID;
      nodes := map[];
      knownNodes := if Contains(configured, my) then configured else configured + [my];
    }

    method RegisterNode(address: string, nodeID: string, now: int)
      requires Valid()
      modifies this
      ensures Valid() && Value() == Registered(old(Value()), address, nodeID, now)
      ensures nodes == old(nodes)[TrimSlash(address) := NodeInfo(TrimSlash(address), nodeID, true, now, 0)]
      ensures knownNodes == old(knownNodes)
    {
      RegisteredWellFormed(Value(), address, nodeID, now);
      var addr := TrimSlash(address);
      if addr in nodes {
        nodes := nodes[addr := nodes[addr].(alive := true, lastPingAt := now, nodeID := nodeID, failCount := 0)];
      } else {
        nodes := nodes[addr := NodeInfo(addr, nodeID, true, now, 0)];
      }
    }

    method RefreshNodes(configured: seq<string>)
      requires Valid()
      modifies this
      ensures Valid() && Value() == old(Value()).(knownNodes := WithSelf(configured, myAddress))
      ensures nodes == old(nodes)
      ensures (exists i :: 0 <= i < |configured| && TrimSlash(configured[i]) == TrimSlash(myAddress)) ==> knownNodes == configured
      ensures (forall i :: 0 <= i < |configured| ==> TrimSlash(configured[i]) != TrimSlash(myAddress)) ==>
                knownNodes == configured + [myAddress]
    {
      WithSelfContains(configured, myAddress);
      knownNodes := configured;
      if !Contains(knownNodes, myAddress) {
        knownNodes := knownNodes + [myAddress];
      }
    }

    method NodeAlive(address: string) returns (alive: bool)
      ensures alive <==> TrimSlash(address) == TrimSlash(myAddress) || TrimSlash(address) in Live(Value())
      ensures alive <==> TrimSlash(address) == TrimSlash(myAddress)
                         || (TrimSlash(address) in nodes && nodes[TrimSlash(address)].alive)
    {
      if TrimSlash(address) == TrimSlash(myAddress) {
        return true;
      }
      var a := TrimSlash(address);
      return a in nodes && nodes[a].alive;
    }

    /** The map is visited in no particular order. */
    method DeregisterDeadNodes(now: int)
      requires Valid()
      modifies this
      ensures Valid() && Value() == Swept(old(Value()), now)
      ensures nodes.Keys == old(nodes).Keys && knownNodes == old(knownNodes)
      ensures forall a :: a in nodes ==>
                nodes[a] == if a != myAddress && now - old(nodes)[a].lastPingAt > 30_000
                            then old(nodes)[a].(alive := false) else old(nodes)[a]
    {
      ghost var before := Value();
      var todo := nodes.Keys;
      while todo != {}
        invariant todo <= nodes.Keys == before.nodes.Keys
        invariant forall a :: a in nodes && a in todo ==> nodes[a] == before.nodes[a]
        invariant forall a :: a in nodes && a !in todo ==> nodes[a] == Swept(before, now).nodes[a]
        invariant knownNodes == before.knownNodes
        decreases |todo|
      {
        var a :| a in todo;
        if now - nodes[a].lastPingAt > DEAD_THRESHOLD && a != myAddress {
          nodes := nodes[a := nodes[a].(alive := false)];
        }
        todo := todo - {a};
      }
      assert nodes == Swept(before, now).nodes;
    }

    method GetHealthyNodes() returns (healthy: seq<string>)
      ensures forall a :: a in healthy <==> a in Healthy(Value())
      ensures forall a :: a in nodes && nodes[a].alive ==> a in healthy
      ensures forall a :: a in healthy ==> a == myAddress || (a in nodes && nodes[a].alive)
      ensures (forall a :: a in nodes && nodes[a].alive ==> TrimSlash(a) != TrimSlash(myAddress)) ==> myAddress in healthy
      ensures forall i, j :: 0 <= i < j < |healthy| ==> healthy[i] != healthy[j]
    {
      healthy := [];
      var todo := nodes.Keys;
      while todo != {}
        invariant todo <= nodes.Keys
        invariant forall a :: a in healthy <==> a in Live(Value()) && a !in todo
        invariant forall i, j :: 0 <= i < j < |healthy| ==> healthy[i] != healthy[j]
        decreases |todo|
      {
        var a :| a in todo;
        if nodes[a].alive {
          healthy := healthy + [a];
        }
        todo := todo - {a};
      }
      assert Contains(healthy, myAddress) <==> SelfListed(Value()) by {
        if SelfListed(Value()) {
          var a :| a in Live(Value()) && TrimSlash(a) == TrimSlash(myAddress);
          assert a in healthy;
        }
      }
      if !Contains(healthy, myAddress) {
        healthy := healthy + [myAddress];
      }
    }

    /** The first element after sorting, whatever order the map was visited in. */
    method LeaderAddress() returns (leader: string)
      ensures IsLeast(leader, Healthy(Value()))
    {
      var healthy := GetHealthyNodes();
      var sorted := SortStrings(healthy);
      SortedHead(healthy, sorted, Healthy(Value()));
      if |sorted| > 0 {
        leader := sorted[0];
      } else {
        leader := myAddress;
      }
    }

    method IsLeader() returns (leads: bool)
      requires Valid()
      ensures leads <==> Leads(Value())
      ensures leads <==> forall a :: a in nodes && nodes[a].alive ==> LexLeq(myAddress, a)
    {
      var healthy := GetHealthyNodes();
      var sorted := SortStrings(healthy);
      SortedHead(healthy, sorted, Healthy(Value()));
      if |sorted| == 0 {
        return true;
      }
      LeastIsSelfIffLeads(Value(), sorted[0]);
      leads := sorted[0] == myAddress;
    }

    method SendHeartbeats(now: int) returns (pings: seq<Ping>)
      ensures pings == Heartbeats(Value(), knownNodes, myNodeID, now)
    {
      pings := [];
      for i := 0 to |knownNodes|
        invariant pings == Heartbeats(Value(), knownNodes[..i], myNodeID, now)
      {
        assert knownNodes[..i + 1][..i] == knownNodes[..i];
        if TrimSlash(knownNodes[i]) != TrimSlash(myAddress) {
          pings := pings + [Ping(myAddress, myNodeID, TrimSlash(knownNodes[i]), now)];
        }
      }
      assert knownNodes[..|knownNodes|] == knownNodes;
    }
  }

  lemma SortedHead(xs: seq<string>, ys: seq<string>, s: set<string>)
    requires SortedAscending(ys) && multiset(ys) == multiset(xs)
    requires forall a :: a in xs <==> a in s
    ensures if ys == [] then s == {} else IsLeast(ys[0], s)
  {
    forall a
      ensures a in ys <==> a in s
    {
      assert a in ys <==> a in multiset(ys);
      assert a in xs <==> a in multiset(xs);
    }
    if ys == [] {
    } else {
      assert ys[0] in ys;
    }
  }
}
