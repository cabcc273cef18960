/** What the election settles on once a fixed set of nodes is left to tick and its pings arrive in time. */
module ClusterFailover {
  import opened Addresses
  import opened Cluster
  import opened ClusterProtocol

  /** A ping must be delivered or lost by this time. */
  function Deadline(m: Ping, start: int, delay: int): int {
    (if m.sentAt > start then m.sentAt else start) + delay
  }

  /** Different addresses stay different once their trailing slashes are cut. */
  ghost predicate DistinctTrimmed(live: set<string>) {
    forall p, q {:trigger p in live, q in live} :: p in live && q in live && TrimSlash(p) == TrimSlash(q) ==> p == q
  }

  /** How the other nodes of `live` appear in the table of `p`. */
  ghost function Others(live: set<string>, p: string): set<string> {
    set q | q in live && q != p :: TrimSlash(q)
  }

  /**
   * The synchronous phase from time `start`: exactly the nodes of `live` tick, each at most one
   * heartbeat interval after its previous tick; pings between them sent after `start` arrive within
   * `delay`; nobody else pings. Pings sent before `start` may still arrive, late by at most `delay`.
   */
  ghost predicate StableStep(live: set<string>, start: int, delay: int, s: State, e: Event, s': State) {
    && Step(s, e, s')
    && match e
       case Boot(n, _, _) => n !in live
       case Crash(n) => n !in live
       case Tick(n) => n in live
       case Refresh(n, known) => n in live ==> forall q :: q in live ==> Contains(known, q)
       case Deliver(m, n) => forall p :: p in live && TrimSlash(p) == m.target ==> n == p
       case Lose(m) => m.from !in live || m.sentAt <= start || forall p :: p in live ==> TrimSlash(p) != m.target
       case Stray(_, _, _) => false
       case Wait(t) =>
         && (forall p :: p in live && p in s.up ==> t <= s.up[p].lastTick + HEARTBEAT_INTERVAL)
         && (forall m :: m in s.inFlight ==> t <= Deadline(m, start, delay))
  }

  /** The phase starts with every node of `live` up and knowing the others. */
  ghost predicate Ready(s: State, live: set<string>) {
    && live != {} && DistinctTrimmed(live) && live <= s.up.Keys
    && forall p, q {:trigger Contains(s.up[p].view.knownNodes, q)} :: p in live && q in live ==> Contains(s.up[p].view.knownNodes, q)
  }

  /** `states` is a run of the protocol whose part from index `k` on is the synchronous phase. */
  ghost predicate FailoverRun(states: seq<State>, events: seq<Event>, k: nat, live: set<string>, delay: int) {
    && Run(states, events) && k < |states| && Ready(states[k], live)
    && 0 <= delay && HEARTBEAT_INTERVAL + delay <= DEAD_THRESHOLD
    && forall i: nat :: k <= i < |events| ==> StableAt(states, events, i, live, states[k].now, delay)
  }

  ghost predicate StableAt(states: seq<State>, events: seq<Event>, i: nat, live: set<string>, start: int, delay: int)
    requires i < |events| && |states| == |events| + 1
  {
    StableStep(live, start, delay, states[i], events[i], states[i + 1])
  }

  // ---------------------------------------------------------------- the invariant of the phase

  /** Since `x`, node `p` has heard `q`, or a ping that `q` sent soon after `x` is on its way. */
  ghost predicate Covered(s: State, p: string, q: string, x: int)
    requires p in s.up
  {
    || (TrimSlash(q) in s.up[p].view.nodes && s.up[p].view.nodes[TrimSlash(q)].lastPingAt > x)
    || exists m :: m in s.inFlight && m.from == q && m.target == TrimSlash(p) && x < m.sentAt <= x + HEARTBEAT_INTERVAL
  }

  ghost predicate Tracked(s: State, live: set<string>, start: int)
    requires live <= s.up.Keys
  {
    forall p, q, x :: p in live && q in live && p != q && start <= x < s.up[q].lastTick ==> Covered(s, p, q, x)
  }

  ghost predicate Timely(s: State, live: set<string>, start: int, delay: int)
    requires live <= s.up.Keys
  {
    && (forall p :: p in live ==> s.now <= s.up[p].lastTick + HEARTBEAT_INTERVAL || s.now <= start)
    && (forall m :: m in s.inFlight ==> s.now <= Deadline(m, start, delay) && (m.from in live || m.sentAt <= start))
  }

  /** Entries that stand for none of the other live nodes stop being refreshed `delay` after `start`. */
  ghost predicate OutsidersStale(s: State, live: set<string>, start: int, delay: int)
    requires live <= s.up.Keys
  {
    forall p, a :: p in live && a in s.up[p].view.nodes && a !in Others(live, p) ==>
      s.up[p].view.nodes[a].lastPingAt <= start + delay
  }

  ghost predicate Stable(s: State, live: set<string>, start: int, delay: int) {
    && Ok(s) && start <= s.now && Ready(s, live)
    && Timely(s, live, start, delay)
    && Tracked(s, live, start)
    && OutsidersStale(s, live, start, delay)
  }

  /** A live node's tick puts a ping to every other live node in flight. */
  lemma TickReaches(s: State, n: string, q: string)
    requires n in s.up && NodeOk(n, s.up[n], s.now)
    requires TrimSlash(q) != TrimSlash(n) && Contains(s.up[n].view.knownNodes, q)
    ensures Ping(n, s.up[n].nodeID, TrimSlash(q), s.now) in Ticked(s, n).inFlight
  {
    var node := s.up[n];
    var known := node.view.knownNodes;
    HeartbeatsReach(node.view, known, node.nodeID, s.now);
    var i :| 0 <= i < |known| && TrimSlash(known[i]) == TrimSlash(q);
    assert Ping(n, node.nodeID, TrimSlash(q), s.now) in Heartbeats(node.view, known, node.nodeID, s.now);
  }

  lemma TickKeepsCovered(s: State, n: string, p: string, q: string, x: int)
    requires n in s.up && p in s.up && NodeOk(p, s.up[p], s.now) && Covered(s, p, q, x)
    ensures Covered(Ticked(s, n), p, q, x)
  {
    if m :| m in s.inFlight && m.from == q && m.target == TrimSlash(p) && x < m.sentAt <= x + HEARTBEAT_INTERVAL {
      assert m in Ticked(s, n).inFlight;
    }
  }

  /** Ticking covers the time since the previous tick with the new ping. */
  lemma TickKeepsTracked(s: State, n: string, live: set<string>, start: int, delay: int)
    requires Stable(s, live, start, delay) && n in live
    ensures Tracked(Ticked(s, n), live, start)
  {
    var s' := Ticked(s, n);
    forall p, q, x | p in live && q in live && p != q && start <= x < s'.up[q].lastTick
      ensures Covered(s', p, q, x)
    {
      if x < s.up[q].lastTick {
        TickKeepsCovered(s, n, p, q, x);
      } else {
        assert q == n;
        TickReaches(s, n, p);
      }
    }
  }

  /** Delivery turns a ping in flight into a fresh entry, and nothing that was heard is unheard. */
  lemma DeliverKeepsCovered(s: State, m: Ping, n: string, s': State, p: string, q: string, x: int)
    requires Step(s, Deliver(m, n), s') && p in s.up && Covered(s, p, q, x)
    requires x < s.now && (m.target == TrimSlash(p) ==> n == p)
    ensures Covered(s', p, q, x)
  {
    if TrimSlash(q) in s.up[p].view.nodes && s.up[p].view.nodes[TrimSlash(q)].lastPingAt > x {
    } else {
      var k :| k in s.inFlight && k.from == q && k.target == TrimSlash(p) && x < k.sentAt <= x + HEARTBEAT_INTERVAL;
      if k == m {
        assert s'.up[p].view.nodes[TrimSlash(q)].lastPingAt == s.now;
      } else {
        assert k in s'.inFlight;
      }
    }
  }

  lemma DeliverKeepsTracked(s: State, m: Ping, n: string, s': State, live: set<string>, start: int, delay: int)
    requires Stable(s, live, start, delay) && StableStep(live, start, delay, s, Deliver(m, n), s')
    ensures live <= s'.up.Keys && Tracked(s', live, start)
  {
    forall p, q, x | p in live && q in live && p != q && start <= x < s'.up[q].lastTick
      ensures Covered(s', p, q, x)
    {
      assert s'.up[q].lastTick == s.up[q].lastTick;
      DeliverKeepsCovered(s, m, n, s', p, q, x);
    }
  }

  lemma QuietKeepsCovered(s: State, s': State, p: string, q: string, x: int)
    requires p in s.up && p in s'.up && s'.up[p].view.nodes == s.up[p].view.nodes && Covered(s, p, q, x)
    requires forall m :: m in s.inFlight && m.from == q && m.target == TrimSlash(p) && x < m.sentAt ==> m in s'.inFlight
    ensures Covered(s', p, q, x)
  {
  }

  /** Steps that touch neither the tables nor the pings between live nodes keep everything covered. */
  lemma QuietKeepsTracked(s: State, e: Event, s': State, live: set<string>, start: int, delay: int)
    requires Stable(s, live, start, delay) && StableStep(live, start, delay, s, e, s')
    requires !e.Tick? && !e.Deliver?
    ensures live <= s'.up.Keys && Tracked(s', live, start)
  {
    QuietChangesLittle(s, e, s', live, start, delay);
    forall p, q, x | p in live && q in live && p != q && start <= x < s'.up[q].lastTick
      ensures Covered(s', p, q, x)
    {
      QuietKeepsCovered(s, s', p, q, x);
    }
  }

  lemma QuietChangesLittle(s: State, e: Event, s': State, live: set<string>, start: int, delay: int)
    requires live <= s.up.Keys && StableStep(live, start, delay, s, e, s') && !e.Tick? && !e.Deliver?
    ensures live <= s'.up.Keys
    ensures forall p :: p in live ==> s'.up[p].lastTick == s.up[p].lastTick && s'.up[p].view.nodes == s.up[p].view.nodes
    ensures forall m, p :: m in s.inFlight && m.from in live && p in live && m.target == TrimSlash(p) && m.sentAt > start ==>
              m in s'.inFlight
  {
  }

  lemma StableStepKeepsReady(s: State, e: Event, s': State, live: set<string>, start: int, delay: int)
    requires Ready(s, live) && StableStep(live, start, delay, s, e, s')
    ensures Ready(s', live)
  {
    if e.Refresh? {
      WithSelfContains(e.known, e.node);
    } else {
      ListsStay(s, e, s', live, start, delay);
    }
  }

  lemma ListsStay(s: State, e: Event, s': State, live: set<string>, start: int, delay: int)
    requires live <= s.up.Keys && StableStep(live, start, delay, s, e, s') && !e.Refresh?
    ensures live <= s'.up.Keys && forall p :: p in live ==> s'.up[p].view.knownNodes == s.up[p].view.knownNodes
  {
  }

  lemma TickKeepsTimely(s: State, n: string, live: set<string>, start: int, delay: int)
    requires Stable(s, live, start, delay) && n in live && 0 <= delay
    ensures Timely(Ticked(s, n), live, start, delay)
  {
    var s' := Ticked(s, n);
    var view := s.up[n].view;
    HeartbeatsReach(view, view.knownNodes, s.up[n].nodeID, s.now);
    forall m | m in s'.inFlight
      ensures s'.now <= Deadline(m, start, delay) && (m.from in live || m.sentAt <= start)
    {
      assert m in s.inFlight || m in Heartbeats(view, view.knownNodes, s.up[n].nodeID, s.now);
    }
  }

  lemma NoTickChangesLittle(s: State, e: Event, s': State, live: set<string>, start: int, delay: int)
    requires StableStep(live, start, delay, s, e, s') && !e.Tick? && live <= s.up.Keys && live <= s'.up.Keys
    ensures forall m :: m in s'.inFlight ==> m in s.inFlight
    ensures forall p :: p in live ==> s'.up[p].lastTick == s.up[p].lastTick
  {
    assert s'.inFlight <= s.inFlight;
  }

  lemma StableStepKeepsTimely(s: State, e: Event, s': State, live: set<string>, start: int, delay: int)
    requires Stable(s, live, start, delay) && StableStep(live, start, delay, s, e, s') && 0 <= delay
    requires live <= s'.up.Keys
    ensures Timely(s', live, start, delay)
  {
    if e.Tick? {
      TickKeepsTimely(s, e.node, live, start, delay);
    } else {
      NoTickChangesLittle(s, e, s', live, start, delay);
    }
  }

  /** A ping from outside was sent before the phase, and is late by at most `delay`; nobody pings itself. */
  lemma DeliverKeepsStale(s: State, m: Ping, n: string, s': State, live: set<string>, start: int, delay: int)
    requires live <= s.up.Keys && OutsidersStale(s, live, start, delay) && Timely(s, live, start, delay)
    requires Step(s, Deliver(m, n), s') && PingOk(m, s.now)
    ensures OutsidersStale(s', live, start, delay)
  {
    if m.from in live && m.from != n {
      assert TrimSlash(m.from) in Others(live, n);
    } else if m.from !in live {
      assert s.now <= Deadline(m, start, delay) == start + delay;
    }
  }

  lemma StableStepKeepsStale(s: State, e: Event, s': State, live: set<string>, start: int, delay: int)
    requires Stable(s, live, start, delay) && StableStep(live, start, delay, s, e, s')
    requires live <= s'.up.Keys
    ensures OutsidersStale(s', live, start, delay)
  {
    if e.Deliver? {
      DeliverKeepsStale(s, e.ping, e.node, s', live, start, delay);
    } else {
      NobodyIsHeard(s, e, s', live, start, delay);
    }
  }

  /** Only deliveries touch the times in a live node's table. */
  lemma NobodyIsHeard(s: State, e: Event, s': State, live: set<string>, start: int, delay: int)
    requires live <= s.up.Keys && StableStep(live, start, delay, s, e, s') && !e.Deliver? && live <= s'.up.Keys
    ensures forall p :: p in live ==> s'.up[p].view.nodes.Keys == s.up[p].view.nodes.Keys
    ensures forall p, a :: p in live && a in s.up[p].view.nodes ==>
              s'.up[p].view.nodes[a].lastPingAt == s.up[p].view.nodes[a].lastPingAt
  {
  }

  lemma StableStepKeepsStable(s: State, e: Event, s': State, live: set<string>, start: int, delay: int)
    requires Stable(s, live, start, delay) && StableStep(live, start, delay, s, e, s') && 0 <= delay
    ensures Stable(s', live, start, delay)
  {
    StepKeepsOk(s, e, s');
    StableStepKeepsReady(s, e, s', live, start, delay);
    StableStepKeepsTimely(s, e, s', live, start, delay);
    StableStepKeepsStale(s, e, s', live, start, delay);
    match e
    case Tick(n) => TickKeepsTracked(s, n, live, start, delay);
    case Deliver(m, n) => DeliverKeepsTracked(s, m, n, s', live, start, delay);
    case _ => QuietKeepsTracked(s, e, s', live, start, delay);
  }

  /** What the invariant needs of the first state: every ping that is in flight was sent before. */
  lemma ReadyIsStable(s: State, live: set<string>, delay: int)
    requires Ok(s) && Ready(s, live) && 0 <= delay
    ensures Stable(s, live, s.now, delay)
  {
  }

  lemma {:induction false} StableThroughout(states: seq<State>, events: seq<Event>, k: nat, live: set<string>, delay: int, i: nat)
    requires FailoverRun(states, events, k, live, delay) && k <= i < |states|
    ensures Stable(states[i], live, states[k].now, delay)
  {
    if i == k {
      ReachableOk(states, events, k);
      ReadyIsStable(states[k], live, delay);
    } else {
      StableThroughout(states, events, k, live, delay, i - 1);
      assert StableAt(states, events, i - 1, live, states[k].now, delay);
      StableStepKeepsStable(states[i - 1], events[i - 1], states[i], live, states[k].now, delay);
    }
  }

  // ---------------------------------------------------------------- who leads then

  /** Once every live node has had time to be heard, each holds every other alive. */
  lemma HeardAlive(s: State, live: set<string>, start: int, delay: int, p: string, q: string)
    requires Stable(s, live, start, delay) && 0 <= delay && HEARTBEAT_INTERVAL + delay <= DEAD_THRESHOLD
    requires p in live && q in live && p != q && s.now > start + delay + HEARTBEAT_INTERVAL
    ensures TrimSlash(q) in Live(s.up[p].view)
  {
    var x := s.now - delay - HEARTBEAT_INTERVAL - 1;
    assert Covered(s, p, q, x);
    assert TrimSlash(q) in s.up[p].view.nodes && s.up[p].view.nodes[TrimSlash(q)].lastPingAt > x;
  }

  /** Forty seconds after the last ping from outside, only entries for other live nodes are held alive. */
  lemma OutsidersDead(s: State, live: set<string>, start: int, delay: int, p: string, a: string)
    requires Stable(s, live, start, delay) && 0 <= delay
    requires p in live && a in s.up[p].view.nodes && a !in Others(live, p) && a != p
    requires s.now > start + delay + HEARTBEAT_INTERVAL + DEAD_THRESHOLD
    ensures a !in Live(s.up[p].view)
  {
    assert s.up[p].view.nodes[a].lastPingAt <= start + delay;
  }

  /** Then a node's table holds alive exactly the other live nodes, and possibly itself. */
  lemma LiveIsOthers(s: State, live: set<string>, start: int, delay: int, p: string)
    requires Stable(s, live, start, delay) && 0 <= delay && HEARTBEAT_INTERVAL + delay <= DEAD_THRESHOLD
    requires p in live && s.now > start + delay + HEARTBEAT_INTERVAL + DEAD_THRESHOLD
    ensures Live(s.up[p].view) + {p} == Others(live, p) + {p}
  {
    var v := s.up[p].view;
    forall a | a in Others(live, p)
      ensures a in Live(v)
    {
      var q :| q in live && q != p && TrimSlash(q) == a;
      HeardAlive(s, live, start, delay, p, q);
    }
    forall a | a in Live(v) && a != p
      ensures a in Others(live, p)
    {
      if a !in Others(live, p) { OutsidersDead(s, live, start, delay, p, a); }
    }
  }

  lemma HealthyIsOthers(s: State, live: set<string>, start: int, delay: int, p: string)
    requires Stable(s, live, start, delay) && 0 <= delay && HEARTBEAT_INTERVAL + delay <= DEAD_THRESHOLD
    requires p in live && s.now > start + delay + HEARTBEAT_INTERVAL + DEAD_THRESHOLD
    ensures Healthy(s.up[p].view) == Others(live, p) + {p}
  {
    LiveIsOthers(s, live, start, delay, p);
    var v := s.up[p].view;
    if SelfListed(v) {
      var a :| a in Live(v) && TrimSlash(a) == TrimSlash(p);
      TrimIsSlashFree(a);
      assert a !in Others(live, p);
    }
  }

  /** No other node's trimmed address is smaller than this node's own, as it is configured. */
  ghost predicate Smallest(p: string, live: set<string>) {
    forall q {:trigger q in live} :: q in live && q != p ==> LexLeq(p, TrimSlash(q))
  }

  ghost predicate HasSmallest(live: set<string>) {
    exists p {:trigger Smallest(p, live)} :: p in live && Smallest(p, live)
  }

  ghost predicate HasLeader(s: State, live: set<string>)
    requires live <= s.up.Keys
  {
    exists p {:trigger Leads(s.up[p].view)} :: p in live && Leads(s.up[p].view)
  }

  lemma LeadsIffSmallest(s: State, live: set<string>, start: int, delay: int, p: string)
    requires Stable(s, live, start, delay) && 0 <= delay && HEARTBEAT_INTERVAL + delay <= DEAD_THRESHOLD
    requires p in live && s.now > start + delay + HEARTBEAT_INTERVAL + DEAD_THRESHOLD
    ensures Leads(s.up[p].view) <==> Smallest(p, live)
  {
    LiveIsOthers(s, live, start, delay, p);
    LexReflexive(p);
    if Leads(s.up[p].view) {
      forall q | q in live && q != p
        ensures LexLeq(p, TrimSlash(q))
      {
        assert TrimSlash(q) in Others(live, p);
        assert TrimSlash(q) in Live(s.up[p].view) + {p};
      }
    }
    if Smallest(p, live) {
      forall a | a in Live(s.up[p].view)
        ensures LexLeq(p, a)
      {
        assert a in Others(live, p) + {p};
      }
    }
  }

  /** The node whose trimmed address is least; every other node names it. */
  ghost predicate First(p: string, live: set<string>) {
    p in live && forall q {:trigger q in live} :: q in live ==> LexLeq(TrimSlash(p), TrimSlash(q))
  }

  lemma FirstExists(live: set<string>) returns (first: string)
    requires live != {}
    ensures First(first, live)
  {
    var trimmed := set q | q in live :: TrimSlash(q);
    var x :| x in live;
    assert TrimSlash(x) in trimmed;
    var least := LeastExists(trimmed);
    first :| first in live && TrimSlash(first) == least;
  }

  /** At most one node is smallest, and it is the first. */
  lemma SmallestIsFirst(p: string, first: string, live: set<string>)
    requires p in live && Smallest(p, live) && First(first, live) && DistinctTrimmed(live)
    ensures p == first
  {
    if p != first {
      TrimLeq(p);
      LexTransitive(TrimSlash(p), p, TrimSlash(first));
      LexAntisymmetric(TrimSlash(p), TrimSlash(first));
    }
  }

  /** The first node is the least healthy one in every other node's table, under its trimmed address. */
  lemma OthersNameFirst(first: string, p: string, live: set<string>, least: string)
    requires First(first, live) && p in live && p != first && IsLeast(least, Others(live, p) + {p})
    ensures least == TrimSlash(first)
  {
    var t := TrimSlash(first);
    assert t in Others(live, p) + {p};
    TrimLeq(p);
    LexTransitive(t, TrimSlash(p), p);
    assert LexLeq(t, least);
    LexAntisymmetric(t, least);
  }

  /** The state is more than `delay` + 40 s into a phase that began in `states[k]`. */
  ghost predicate Settled(states: seq<State>, k: nat, delay: int, i: nat) {
    k <= i < |states| && states[i].now > states[k].now + delay + HEARTBEAT_INTERVAL + DEAD_THRESHOLD
  }

  /**
   * What holds at one node: it leads exactly when its address is smallest, which only the first node's
   * can be, and unless it is the first it names the first, by its trimmed address.
   */
  ghost predicate Elected(s: State, live: set<string>, first: string, p: string)
    requires p in s.up
  {
    && (Leads(s.up[p].view) <==> Smallest(p, live))
    && (Smallest(p, live) ==> p == first)
    && (p != first ==> forall a :: IsLeast(a, Healthy(s.up[p].view)) ==> a == TrimSlash(first))
  }

  /**
   * The outcome for any addresses that differ once trimmed; in particular some node leads exactly when
   * some configured address is no larger than all the other trimmed ones.
   */
  lemma FailoverElects(states: seq<State>, events: seq<Event>, k: nat, live: set<string>, delay: int, i: nat)
      returns (first: string)
    requires FailoverRun(states, events, k, live, delay) && Settled(states, k, delay, i)
    ensures First(first, live) && live <= states[i].up.Keys
    ensures forall p {:trigger Elected(states[i], live, first, p)} :: p in live ==> Elected(states[i], live, first, p)
    ensures HasLeader(states[i], live) <==> HasSmallest(live)
  {
    first := FirstExists(live);
    StableThroughout(states, events, k, live, delay, i);
    forall p | p in live
      ensures Elected(states[i], live, first, p)
    {
      ElectedAt(states[i], live, states[k].now, delay, first, p);
    }
    LeaderFromElected(states[i], live, first);
  }

  lemma LeaderFromElected(s: State, live: set<string>, first: string)
    requires live <= s.up.Keys && first in live
    requires forall p {:trigger Elected(s, live, first, p)} :: p in live ==> Elected(s, live, first, p)
    ensures HasLeader(s, live) <==> HasSmallest(live)
  {
    if p :| p in live && Smallest(p, live) {
      assert Elected(s, live, first, p);
    }
    if p :| p in live && Leads(s.up[p].view) {
      assert Elected(s, live, first, p);
    }
  }

  lemma ElectedAt(s: State, live: set<string>, start: int, delay: int, first: string, p: string)
    requires Stable(s, live, start, delay) && 0 <= delay && HEARTBEAT_INTERVAL + delay <= DEAD_THRESHOLD
    requires p in live && First(first, live) && s.now > start + delay + HEARTBEAT_INTERVAL + DEAD_THRESHOLD
    ensures Elected(s, live, first, p)
  {
    LeadsIffSmallest(s, live, start, delay, p);
    HealthyIsOthers(s, live, start, delay, p);
    if Smallest(p, live) { SmallestIsFirst(p, first, live); }
    forall a | p != first && IsLeast(a, Healthy(s.up[p].view))
      ensures a == TrimSlash(first)
    {
      OthersNameFirst(first, p, live, a);
    }
  }

  lemma FirstIsSmallest(first: string, live: set<string>)
    requires First(first, live) && SlashFree(first)
    ensures Smallest(first, live)
  {
    TrimIsSlashFree(first);
  }

  /**
   * Failover converges: with slash-free addresses every live node computes the same leader, the least
   * live address, and that node alone answers that it leads.
   */
  lemma FailoverConverges(states: seq<State>, events: seq<Event>, k: nat, live: set<string>, delay: int, i: nat)
      returns (leader: string)
    requires FailoverRun(states, events, k, live, delay) && Settled(states, k, delay, i)
    requires forall p :: p in live ==> SlashFree(p)
    ensures IsLeast(leader, live) && live <= states[i].up.Keys
    ensures forall p, a :: p in live && IsLeast(a, Healthy(states[i].up[p].view)) ==> a == leader
    ensures forall p :: p in live ==> (Leads(states[i].up[p].view) <==> p == leader)
  {
    leader := FailoverElects(states, events, k, live, delay, i);
    forall p | p in live
      ensures TrimSlash(p) == p
    {
      TrimIsSlashFree(p);
    }
    FirstIsSmallest(leader, live);
    ReachableOk(states, events, i);
    forall p, a | p in live && IsLeast(a, Healthy(states[i].up[p].view))
      ensures a == leader
    {
      assert Elected(states[i], live, leader, p);
      if p == leader { LeastIsSelfIffLeads(states[i].up[p].view, a); }
    }
    forall p | p in live
      ensures Leads(states[i].up[p].view) <==> p == leader
    {
      assert Elected(states[i], live, leader, p);
    }
  }

  // ---------------------------------------------------------------- the phase reaches any time

  /** The live nodes that have not yet ticked at this instant. */
  ghost function Unticked(s: State, live: set<string>): set<string>
    requires live <= s.up.Keys
  {
    set p | p in live && s.up[p].lastTick < s.now
  }

  lemma DueArrives(s: State, live: set<string>, start: int, delay: int, m: Ping) returns (e: Event, s': State)
    requires live <= s.up.Keys && DistinctTrimmed(live) && m in s.inFlight
    ensures StableStep(live, start, delay, s, e, s') && live <= s'.up.Keys
    ensures s'.now == s.now && s'.inFlight == s.inFlight - multiset{m}
    ensures forall p :: p in live ==> s'.up[p].lastTick == s.up[p].lastTick
  {
    if p :| p in live && TrimSlash(p) == m.target {
      e := Deliver(m, p);
      s' := WithView(s, p, Registered(s.up[p].view, m.from, m.nodeID, s.now)).(inFlight := s.inFlight - multiset{m});
    } else {
      e, s' := Lose(m), s.(inFlight := s.inFlight - multiset{m});
    }
  }

  /** A node whose heartbeat is due ticks, and has then ticked at this instant. */
  lemma DueTicks(s: State, live: set<string>, start: int, delay: int, p: string) returns (e: Event, s': State)
    requires live <= s.up.Keys && p in live && s.up[p].lastTick < s.now
    ensures StableStep(live, start, delay, s, e, s') && live <= s'.up.Keys
    ensures s'.now == s.now && Unticked(s', live) < Unticked(s, live)
  {
    e, s' := Tick(p), Ticked(s, p);
    assert p in Unticked(s, live) && p !in Unticked(s', live);
  }

  /**
   * The phase never blocks: either the clock may advance, or a step is possible that leaves fewer nodes
   * to tick, or as many and fewer pings.
   */
  lemma StablePhaseGoesOn(s: State, live: set<string>, start: int, delay: int) returns (e: Event, s': State)
    requires Stable(s, live, start, delay)
    ensures StableStep(live, start, delay, s, e, s') && live <= s'.up.Keys
    ensures || s'.now == s.now + 1
            || (s'.now == s.now && Unticked(s', live) < Unticked(s, live))
            || (s'.now == s.now && Unticked(s', live) == Unticked(s, live) && |s'.inFlight| < |s.inFlight|)
  {
    if p :| p in live && s.now + 1 > s.up[p].lastTick + HEARTBEAT_INTERVAL {
      e, s' := DueTicks(s, live, start, delay, p);
    } else if m :| m in s.inFlight && s.now + 1 > Deadline(m, start, delay) {
      e, s' := DueArrives(s, live, start, delay, m);
    } else {
      e, s' := Wait(s.now + 1), s.(now := s.now + 1);
    }
  }

  lemma RunGrows(states: seq<State>, events: seq<Event>, e: Event, s': State)
    requires Run(states, events) && Step(states[|states| - 1], e, s')
    ensures Run(states + [s'], events + [e])
  {
    var longer, more := states + [s'], events + [e];
    forall i: nat | i < |more|
      ensures StepAt(longer, more, i)
    {
      if i < |events| {
        assert StepAt(states, events, i);
        assert more[i] == events[i] && longer[i] == states[i] && longer[i + 1] == states[i + 1];
      } else {
        assert more[i] == e && longer[i] == states[|states| - 1] && longer[i + 1] == s';
      }
    }
  }

  lemma FailoverRunGrows(states: seq<State>, events: seq<Event>, k: nat, live: set<string>, delay: int, e: Event, s': State)
    requires FailoverRun(states, events, k, live, delay)
    requires StableStep(live, states[k].now, delay, states[|states| - 1], e, s')
    ensures FailoverRun(states + [s'], events + [e], k, live, delay)
  {
    var longer, more := states + [s'], events + [e];
    RunGrows(states, events, e, s');
    forall i: nat | k <= i < |more|
      ensures StableAt(longer, more, i, live, states[k].now, delay)
    {
      if i < |events| {
        assert StableAt(states, events, i, live, states[k].now, delay);
        assert more[i] == events[i] && longer[i] == states[i] && longer[i + 1] == states[i + 1];
      } else {
        assert more[i] == e && longer[i] == states[|states| - 1] && longer[i + 1] == s';
      }
    }
  }

  lemma SmallerSet(a: set<string>, b: set<string>)
    requires a < b
    ensures |a| < |b|
  {
    assert |b| == |a| + |b - a| by { assert b == a + (b - a); }
    assert b - a != {};
  }

  lemma LastIsStable(states: seq<State>, events: seq<Event>, k: nat, live: set<string>, delay: int)
    requires FailoverRun(states, events, k, live, delay)
    ensures Stable(states[|states| - 1], live, states[k].now, delay)
  {
    StableThroughout(states, events, k, live, delay, |states| - 1);
  }

  /** `s'` is closer to the next advance of the clock than `s`, or past it. */
  ghost predicate Closer(s: State, s': State, live: set<string>)
    requires live <= s.up.Keys && live <= s'.up.Keys
  {
    || s'.now == s.now + 1
    || (s'.now == s.now && |Unticked(s', live)| < |Unticked(s, live)|)
    || (s'.now == s.now && |Unticked(s', live)| == |Unticked(s, live)| && |s'.inFlight| < |s.inFlight|)
  }

  /** The run from `states` on has been continued. */
  ghost predicate Continues(states: seq<State>, events: seq<Event>, longer: seq<State>, more: seq<Event>) {
    states <= longer && events <= more
  }

  lemma OneMoreStep(states: seq<State>, events: seq<Event>, k: nat, live: set<string>, delay: int, s: State)
      returns (longer: seq<State>, more: seq<Event>, s': State)
    requires FailoverRun(states, events, k, live, delay)
    requires s == states[|states| - 1] && Stable(s, live, states[k].now, delay)
    ensures FailoverRun(longer, more, k, live, delay) && Continues(states, events, longer, more)
    ensures s' == longer[|longer| - 1] && Stable(s', live, longer[k].now, delay)
    ensures Closer(s, s', live)
  {
    var e;
    e, s' := StablePhaseGoesOn(s, live, states[k].now, delay);
    FailoverRunGrows(states, events, k, live, delay, e, s');
    StableStepKeepsStable(s, e, s', live, states[k].now, delay);
    if Unticked(s', live) < Unticked(s, live) { SmallerSet(Unticked(s', live), Unticked(s, live)); }
    longer, more := states + [s'], events + [e];
    assert longer[k] == states[k];
  }

  lemma {:induction false} ReachesFrom(states: seq<State>, events: seq<Event>, k: nat, live: set<string>, delay: int, time: int, s: State)
      returns (longer: seq<State>, more: seq<Event>)
    requires FailoverRun(states, events, k, live, delay)
    requires s == states[|states| - 1] && Stable(s, live, states[k].now, delay)
    ensures FailoverRun(longer, more, k, live, delay) && Continues(states, events, longer, more)
    ensures longer[|longer| - 1].now >= time
    decreases if s.now >= time then 0 else time - s.now, |Unticked(s, live)|, |s.inFlight|
  {
    if s.now >= time {
      longer, more := states, events;
    } else {
      var states', events', s' := OneMoreStep(states, events, k, live, delay, s);
      longer, more := ReachesFrom(states', events', k, live, delay, time, s');
    }
  }

  /** Every phase can be continued to any time, so its conclusions are about states that are reached. */
  lemma PhaseReaches(states: seq<State>, events: seq<Event>, k: nat, live: set<string>, delay: int, time: int)
      returns (longer: seq<State>, more: seq<Event>)
    requires FailoverRun(states, events, k, live, delay)
    ensures FailoverRun(longer, more, k, live, delay) && Continues(states, events, longer, more)
    ensures longer[|longer| - 1].now >= time
  {
    LastIsStable(states, events, k, live, delay);
    longer, more := ReachesFrom(states, events, k, live, delay, time, states[|states| - 1]);
  }

  /** A run that boots exactly these nodes, each with the same configured list. */
  lemma {:induction false} BootAll(live: set<string>, known: seq<string>) returns (states: seq<State>, events: seq<Event>)
    ensures Run(states, events) && states[|states| - 1].up.Keys == live
    ensures forall p :: p in live ==> states[|states| - 1].up[p].view.knownNodes == WithSelf(known, p)
  {
    if live == {} {
      states, events := [State(0, map[], multiset{})], [];
    } else {
      var n :| n in live;
      states, events := BootAll(live - {n}, known);
      var s := states[|states| - 1];
      var s' := s.(up := s.up[n := Node(Fresh(n, known), "", s.now)]);
      RunGrows(states, events, Boot(n, "", known), s');
      states, events := states + [s'], events + [Boot(n, "", known)];
    }
  }

  lemma {:induction false} Listed(live: set<string>) returns (known: seq<string>)
    ensures forall q :: q in live <==> q in known
  {
    if live == {} {
      known := [];
    } else {
      var n :| n in live;
      known := Listed(live - {n});
      known := known + [n];
    }
  }

  lemma ListedIsContained(known: seq<string>, q: string)
    requires q in known
    ensures Contains(known, q)
  {
  }

  /** Every configuration of distinct trimmed addresses has a run that boots it and settles. */
  lemma SettledRunExists(live: set<string>, delay: int) returns (states: seq<State>, events: seq<Event>, k: nat, i: nat)
    requires live != {} && DistinctTrimmed(live) && 0 <= delay && HEARTBEAT_INTERVAL + delay <= DEAD_THRESHOLD
    ensures FailoverRun(states, events, k, live, delay) && Settled(states, k, delay, i)
  {
    var known := Listed(live);
    states, events := BootAll(live, known);
    k := |states| - 1;
    forall p, q | p in live && q in live
      ensures Contains(states[k].up[p].view.knownNodes, q)
    {
      WithSelfContains(known, p);
      ListedIsContained(known, q);
    }
    var booted := states;
    states, events := PhaseReaches(states, events, k, live, delay,
                                   states[k].now + delay + HEARTBEAT_INTERVAL + DEAD_THRESHOLD + 1);
    assert states[k] == booted[k];
    i := |states| - 1;
  }

  /** The condition is exact: each configuration settles, in some run, with a leader exactly when it has a smallest node. */
  lemma LeaderIffSmallest(live: set<string>, delay: int) returns (states: seq<State>, events: seq<Event>, k: nat, i: nat)
    requires live != {} && DistinctTrimmed(live) && 0 <= delay && HEARTBEAT_INTERVAL + delay <= DEAD_THRESHOLD
    ensures FailoverRun(states, events, k, live, delay) && Settled(states, k, delay, i) && live <= states[i].up.Keys
    ensures HasLeader(states[i], live) <==> HasSmallest(live)
  {
    states, events, k, i := SettledRunExists(live, delay);
    var first := FailoverElects(states, events, k, live, delay, i);
  }

  const SlashedPair: set<string> := {"a/", "a."}

  /**
   * A slash can leave a cluster leaderless: "a/" and "a." each see the other's trimmed address below
   * their own raw one, and in a run where every ping is on time they settle without any leader.
   */
  lemma SlashedAddressLeaderless(delay: int) returns (states: seq<State>, events: seq<Event>, k: nat, i: nat, live: set<string>)
    requires 0 <= delay && HEARTBEAT_INTERVAL + delay <= DEAD_THRESHOLD
    ensures live == SlashedPair && FailoverRun(states, events, k, live, delay) && Settled(states, k, delay, i)
    ensures live <= states[i].up.Keys && !HasLeader(states[i], live)
  {
    SlashedAddressesNotSmallest();
    live := SlashedPair;
    states, events, k, i := LeaderIffSmallest(live, delay);
  }

  lemma SlashedAddressesNotSmallest()
    ensures SlashedPair != {} && DistinctTrimmed(SlashedPair) && !HasSmallest(SlashedPair)
  {
    assert "a/" in SlashedPair && "a." in SlashedPair;
    assert TrimSlash("a/") == TrimSlash("a") == "a" by { assert "a/"[..1] == "a"; }
    assert TrimSlash("a.") == "a.";
    assert !LexLeq("a/", "a.") by { assert "a/"[1..] == "/" && "a."[1..] == "."; }
    assert !LexLeq("a.", "a") by { assert "a."[1..] == "." && "a"[1..] == ""; }
    assert !Smallest("a/", SlashedPair) && !Smallest("a.", SlashedPair);
  }

  /** But a slash alone does no harm: "a/" and "b" have a smallest node. */
  lemma SlashedAddressCanLead()
    ensures DistinctTrimmed({"a/", "b"}) && Smallest("a/", {"a/", "b"})
  {
    assert TrimSlash("a/") == TrimSlash("a") == "a" by { assert "a/"[..1] == "a"; }
    assert TrimSlash("b") == "b";
    assert LexLeq("a/", "b");
  }
}
