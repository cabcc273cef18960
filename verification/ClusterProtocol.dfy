/**
 * The whole cluster as a state machine: nodes boot, crash, tick, refresh their known-node list and
 * receive pings, while the network delays and loses pings. A locked method of cluster.go is one step.
 * What holds in every reachable state, and that a node yields to a smaller one it holds alive.
 */
module ClusterProtocol {
  import opened Addresses
  import opened Cluster

  /** A running process: its view and the time of its last tick (its boot time before the first one). */
  datatype Node = Node(view: View, nodeID: string, lastTick: int)

  datatype State = State(now: int, up: map<string, Node>, inFlight: multiset<Ping>)

  datatype Event =
    | Boot(node: string, nodeID: string, configured: seq<string>)
    | Crash(node: string)
    | Tick(node: string)
    | Refresh(node: string, known: seq<string>)
    | Deliver(ping: Ping, node: string)
    | Lose(ping: Ping)
    | Stray(node: string, address: string, nodeID: string)
    | Wait(until: int)

  ghost predicate Init(s: State) {
    s.up == map[] && s.inFlight == multiset{}
  }

  function WithView(s: State, n: string, v: View): State
    requires n in s.up
  {
    s.(up := s.up[n := s.up[n].(view := v)])
  }

  /** One heartbeat tick: ping every known node, then sweep the view. */
  function Ticked(s: State, n: string): State
    requires n in s.up
  {
    var node := s.up[n];
    var pings := Heartbeats(node.view, node.view.knownNodes, node.nodeID, s.now);
    s.(up := s.up[n := node.(view := Swept(node.view, s.now), lastTick := s.now)],
       inFlight := s.inFlight + multiset(pings))
  }

  ghost predicate Step(s: State, e: Event, s': State) {
    match e
    case Boot(n, id, configured) =>
      n !in s.up && s' == s.(up := s.up[n := Node(Fresh(n, configured), id, s.now)])
    case Crash(n) => n in s.up && s' == s.(up := s.up - {n})
    case Tick(n) => n in s.up && s' == Ticked(s, n)
    case Refresh(n, known) =>
      n in s.up && s' == WithView(s, n, s.up[n].view.(knownNodes := WithSelf(known, n)))
    case Deliver(m, n) =>
      && m in s.inFlight && n in s.up && TrimSlash(n) == m.target
      && s' == WithView(s, n, Registered(s.up[n].view, m.from, m.nodeID, s.now))
               .(inFlight := s.inFlight - multiset{m})
    case Lose(m) => m in s.inFlight && s' == s.(inFlight := s.inFlight - multiset{m})
    case Stray(n, address, id) =>
      n in s.up && s' == WithView(s, n, Registered(s.up[n].view, address, id, s.now))
    case Wait(t) => s.now <= t && s' == s.(now := t)
  }

  ghost predicate Run(states: seq<State>, events: seq<Event>) {
    && |states| == |events| + 1
    && Init(states[0])
    && forall i: nat :: i < |events| ==> StepAt(states, events, i)
  }

  ghost predicate StepAt(states: seq<State>, events: seq<Event>, i: nat)
    requires i < |events| && |states| == |events| + 1
  {
    Step(states[i], events[i], states[i + 1])
  }

  // ---------------------------------------------------------------- every reachable state

  /** What each running node's view satisfies at all times. */
  ghost predicate NodeOk(n: string, node: Node, now: int) {
    && node.view.myAddress == n
    && WellFormed(node.view)
    && node.lastTick <= now
    && forall a :: a in node.view.nodes ==>
         var info := node.view.nodes[a];
         && info.lastPingAt <= now
         && (!info.alive ==> now - info.lastPingAt > DEAD_THRESHOLD)
         && (info.alive && a != n ==> node.lastTick - info.lastPingAt <= DEAD_THRESHOLD)
  }

  ghost predicate Ok(s: State) {
    && (forall n :: n in s.up ==> NodeOk(n, s.up[n], s.now))
    && (forall m :: m in s.inFlight ==> PingOk(m, s.now))
  }

  /** Only heartbeats send pings, and none to its own sender. */
  ghost predicate PingOk(m: Ping, now: int) {
    m.sentAt <= now && m.target != TrimSlash(m.from)
  }

  lemma RegisterKeepsOk(n: string, node: Node, now: int, address: string, id: string)
    requires NodeOk(n, node, now)
    ensures NodeOk(n, node.(view := Registered(node.view, address, id, now)), now)
  {
    RegisteredWellFormed(node.view, address, id, now);
  }

  lemma SweepKeepsOk(n: string, node: Node, now: int)
    requires NodeOk(n, node, now)
    ensures NodeOk(n, node.(view := Swept(node.view, now), lastTick := now), now)
  {
  }

  /** Only the views and the clock matter to the invariant, so one node changes at a time. */
  lemma OneNodeChanges(s: State, n: string, node: Node, s': State)
    requires Ok(s) && s'.now == s.now && s'.up == s.up[n := node] && NodeOk(n, node, s.now)
    requires forall m :: m in s'.inFlight ==> PingOk(m, s.now)
    ensures Ok(s')
  {
  }

  lemma TickKeepsOk(s: State, n: string)
    requires Ok(s) && n in s.up
    ensures Ok(Ticked(s, n))
  {
    var node := s.up[n];
    SweepKeepsOk(n, node, s.now);
    HeartbeatsReach(node.view, node.view.knownNodes, node.nodeID, s.now);
    OneNodeChanges(s, n, node.(view := Swept(node.view, s.now), lastTick := s.now), Ticked(s, n));
  }

  lemma StepKeepsOk(s: State, e: Event, s': State)
    requires Ok(s) && Step(s, e, s')
    ensures Ok(s')
  {
    match e
    case Boot(n, id, configured) =>
      WithSelfContains(configured, n);
    case Tick(n) => TickKeepsOk(s, n);
    case Refresh(n, known) =>
      WithSelfContains(known, n);
      OneNodeChanges(s, n, s.up[n].(view := s.up[n].view.(knownNodes := WithSelf(known, n))), s');
    case Deliver(m, n) =>
      RegisterKeepsOk(n, s.up[n], s.now, m.from, m.nodeID);
      OneNodeChanges(s, n, s.up[n].(view := Registered(s.up[n].view, m.from, m.nodeID, s.now)), s');
    case Stray(n, address, id) =>
      RegisterKeepsOk(n, s.up[n], s.now, address, id);
      OneNodeChanges(s, n, s.up[n].(view := Registered(s.up[n].view, address, id, s.now)), s');
    case _ =>
  }

  lemma {:induction false} ReachableOk(states: seq<State>, events: seq<Event>, i: nat)
    requires Run(states, events) && i < |states|
    ensures Ok(states[i])
  {
    if i > 0 {
      ReachableOk(states, events, i - 1);
      assert StepAt(states, events, i - 1);
      StepKeepsOk(states[i - 1], events[i - 1], states[i]);
    }
  }

  ghost predicate HoldsAlive(s: State, p: string, q: string)
    requires p in s.up
  {
    TrimSlash(q) in Live(s.up[p].view)
  }

  /**
   * Exclusion in every reachable state, for arbitrary address strings: a node that holds a smaller one
   * alive does not lead, whatever the smaller one knows or even whether it is still up.
   */
  lemma LargerYields(states: seq<State>, events: seq<Event>, i: nat, p: string, q: string)
    requires Run(states, events) && i < |states| && q in states[i].up
    requires p != q && LexLeq(p, q) && HoldsAlive(states[i], q, p)
    ensures !Leads(states[i].up[q].view)
  {
    ReachableOk(states, events, i);
    if Leads(states[i].up[q].view) {
      TrimLeq(p);
      LexTransitive(q, TrimSlash(p), p);
      LexAntisymmetric(p, q);
    }
  }

  /** So two nodes that each hold the other alive are never both leader. */
  lemma NeverTwoLeaders(states: seq<State>, events: seq<Event>, i: nat, p: string, q: string)
    requires Run(states, events) && i < |states|
    requires p in states[i].up && q in states[i].up && p != q
    requires HoldsAlive(states[i], p, q) && HoldsAlive(states[i], q, p)
    ensures !(Leads(states[i].up[p].view) && Leads(states[i].up[q].view))
  {
    LexTotal(p, q);
    if LexLeq(p, q) {
      LargerYields(states, events, i, p, q);
    } else {
      LargerYields(states, events, i, q, p);
    }
  }
}
