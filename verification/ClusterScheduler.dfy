/** The gate at boot that is meant to leave the collection scheduler to the leader: server/main.go. */
module ClusterScheduler {
  import opened Addresses
  import opened Cluster
  import opened ClusterProtocol

  /** The gate at boot: only a node of a cluster that does not lead skips the scheduler. */
  ghost predicate PassesGate(v: View) {
    !(|v.knownNodes| > 1 && !Leads(v))
  }

  /** A node is held back only when it knows others and one of those it holds alive is smaller. */
  lemma HeldBackIff(v: View)
    ensures !PassesGate(v) <==>
            |v.knownNodes| >= 2 && exists a :: a in v.nodes && v.nodes[a].alive && !LexLeq(v.myAddress, a)
  {
  }

  /**
   * The nodes running the scheduler: decided once, at boot, and kept until the node crashes. Past the gate, a
   * node starts it exactly when it has a credential service, as those of `keyed` do.
   */
  ghost function Scheduling(states: seq<State>, events: seq<Event>, keyed: set<string>, i: nat): set<string>
    requires Run(states, events) && i < |states|
  {
    if i == 0 then {}
    else
      var before := Scheduling(states, events, keyed, i - 1);
      match events[i - 1]
      case Boot(n, _, _) =>
        if n in states[i].up && PassesGate(states[i].up[n].view) && n in keyed then before + {n} else before - {n}
      case Crash(n) => before - {n}
      case _ => before
  }

  /** In every run every boot passes the gate, because the node's table is still empty. */
  lemma GateNeverSkips(states: seq<State>, events: seq<Event>, i: nat)
    requires Run(states, events) && i < |events| && events[i].Boot?
    ensures events[i].node in states[i + 1].up
    ensures Leads(states[i + 1].up[events[i].node].view) && PassesGate(states[i + 1].up[events[i].node].view)
  {
    assert StepAt(states, events, i);
  }

  /** So in every reachable state the scheduler runs on exactly the keyed nodes that are up, however many those are. */
  lemma {:induction false} SchedulersAreTheNodesUp(states: seq<State>, events: seq<Event>, keyed: set<string>, i: nat)
    requires Run(states, events) && i < |states|
    ensures Scheduling(states, events, keyed, i) == states[i].up.Keys * keyed
  {
    if i > 0 {
      SchedulersAreTheNodesUp(states, events, keyed, i - 1);
      assert StepAt(states, events, i - 1);
      if events[i - 1].Boot? {
        GateNeverSkips(states, events, i - 1);
      }
    }
  }

  /** "One scheduler" holds in a reachable state exactly when one keyed node is up. */
  lemma OneSchedulerIff(states: seq<State>, events: seq<Event>, keyed: set<string>, i: nat)
    requires Run(states, events) && i < |states|
    ensures |Scheduling(states, events, keyed, i)| == 1 <==> exists n :: states[i].up.Keys * keyed == {n}
  {
    SchedulersAreTheNodesUp(states, events, keyed, i);
    var nodes := states[i].up.Keys * keyed;
    if |nodes| == 1 {
      var n :| n in nodes;
      assert |nodes - {n}| == 0;
      assert nodes == {n};
    }
  }

  /** Two nodes that have just booted both lead. */
  lemma FreshNodesBothLead(p: string, q: string, known: seq<string>) returns (states: seq<State>, events: seq<Event>)
    requires p != q
    ensures Run(states, events)
    ensures var s := states[|states| - 1];
            p in s.up && q in s.up && Leads(s.up[p].view) && Leads(s.up[q].view)
  {
    events := [Boot(p, "", known), Boot(q, "", known)];
    var s0 := State(0, map[], multiset{});
    var s1 := s0.(up := s0.up[p := Node(Fresh(p, known), "", 0)]);
    var s2 := s1.(up := s1.up[q := Node(Fresh(q, known), "", 0)]);
    states := [s0, s1, s2];
    assert StepAt(states, events, 0) && StepAt(states, events, 1);
  }
}
