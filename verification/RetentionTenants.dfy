/** Hosts are listed per tenant but read without it, so a row can be labelled with one tenant and count another's samples. */
module RetentionTenants {
  import opened Retention
  import opened RetentionRuns
  import opened RetentionLoss

  ghost predicate OfOneTenant(a: Absorption, samples: map<nat, Sample>) {
    forall id :: id in a.members ==> id in samples && samples[id].tenant == a.row.tenant
  }

  /** Every row created since `pre` carries the tenant of all the samples it counts. */
  ghost predicate NewRowsOfOneTenant(pre: Db, post: Db) {
    forall i :: |pre.created| <= i < |post.created| ==> OfOneTenant(post.created[i], pre.samples)
  }

  ghost predicate OldSamplesOf(samples: map<nat, Sample>, h: HostKey, cutoff: int) {
    forall id :: id in OldIds(samples, h.host, cutoff) ==> samples[id].tenant == h.tenant
  }

  ghost predicate HostOfOneTenant(samples: map<nat, Sample>, host: nat, cutoff: int) {
    forall i, j :: i in OldIds(samples, host, cutoff) && j in OldIds(samples, host, cutoff) ==> samples[i].tenant == samples[j].tenant
  }

  lemma GroupsTenantIff(groups: seq<Absorption>, samples: map<nat, Sample>, h: HostKey, cutoff: int, interval: int)
    requires interval > 0 && NewRows(groups, samples, h, cutoff, interval)
    ensures (forall i :: 0 <= i < |groups| ==> OfOneTenant(groups[i], samples)) <==> OldSamplesOf(samples, h, cutoff)
  {
    forall i | 0 <= i < |groups|
      ensures groups[i].row.tenant == h.tenant && forall id :: id in groups[i].members ==> id in OldIds(samples, h.host, cutoff)
    {
      assert IsBucketOf(groups[i], samples, h, cutoff, interval);
    }
    if forall i :: 0 <= i < |groups| ==> OfOneTenant(groups[i], samples) {
      forall id | id in OldIds(samples, h.host, cutoff)
        ensures samples[id].tenant == h.tenant
      {
        var i :| 0 <= i < |groups| && id in groups[i].members;
        assert OfOneTenant(groups[i], samples);
      }
    }
  }

  /** The `j`-th pair, if it inserts rows, finds only samples of its own tenant. */
  ghost predicate VisitOfOneTenant(hosts: seq<HostKey>, chain: seq<Db>, p: Plan, j: nat)
    requires j < |hosts| < |chain|
  {
    Inserts(chain[j], hosts[j], p.DownsampleCutoff(), p.outcome(hosts[j]))
    ==> OldSamplesOf(chain[j].samples, hosts[j], p.DownsampleCutoff())
  }

  /** One more visit: its rows count samples that were raw from the start. */
  lemma VisitTenants(start: Db, pre: Db, post: Db, h: HostKey, p: Plan)
    requires HostStep(pre, post, h, p.DownsampleCutoff(), p.Interval(), p.outcome(h)) && start.created <= pre.created
    requires forall id :: id in pre.samples ==> id in start.samples && start.samples[id] == pre.samples[id]
    ensures start.created <= post.created
    ensures NewRowsOfOneTenant(start, post) <==>
            NewRowsOfOneTenant(start, pre)
            && (Inserts(pre, h, p.DownsampleCutoff(), p.outcome(h)) ==> OldSamplesOf(pre.samples, h, p.DownsampleCutoff()))
  {
    if Inserts(pre, h, p.DownsampleCutoff(), p.outcome(h)) {
      var groups := post.created[|pre.created|..];
      GroupsTenantIff(groups, pre.samples, h, p.DownsampleCutoff(), p.Interval());
      GroupsFromStart(groups, start, pre, h, p);
      CreatedTenants(start, pre, post, groups);
    }
  }

  lemma GroupsFromStart(groups: seq<Absorption>, start: Db, pre: Db, h: HostKey, p: Plan)
    requires NewRows(groups, pre.samples, h, p.DownsampleCutoff(), p.Interval())
    requires forall id :: id in pre.samples ==> id in start.samples && start.samples[id] == pre.samples[id]
    ensures forall i :: 0 <= i < |groups| ==> (OfOneTenant(groups[i], start.samples) <==> OfOneTenant(groups[i], pre.samples))
  {
    forall i | 0 <= i < |groups|
      ensures OfOneTenant(groups[i], start.samples) <==> OfOneTenant(groups[i], pre.samples)
    {
      assert IsBucketOf(groups[i], pre.samples, h, p.DownsampleCutoff(), p.Interval());
    }
  }

  lemma CreatedTenants(start: Db, pre: Db, post: Db, groups: seq<Absorption>)
    requires start.created <= pre.created && post.created == pre.created + groups
    ensures NewRowsOfOneTenant(start, post) <==>
            NewRowsOfOneTenant(start, pre) && forall i :: 0 <= i < |groups| ==> OfOneTenant(groups[i], start.samples)
  {
    var n := |pre.created|;
    assert forall i :: 0 <= i < n ==> post.created[i] == pre.created[i];
    assert forall i :: 0 <= i < |groups| ==> post.created[n + i] == groups[i];
    assert forall i :: n <= i < |post.created| ==> post.created[i] == groups[i - n];
  }

  ghost predicate VisitsOfOneTenant(hosts: seq<HostKey>, chain: seq<Db>, p: Plan, i: nat)
    requires i <= |hosts| < |chain|
  {
    forall j: nat :: j < i ==> VisitOfOneTenant(hosts, chain, p, j)
  }

  /** After `i` visits the new rows are of one tenant exactly when the visits were. */
  ghost predicate TenantsSoFar(hosts: seq<HostKey>, chain: seq<Db>, p: Plan, i: nat)
    requires i <= |hosts| < |chain|
  {
    && chain[0].created <= chain[i].created
    && (NewRowsOfOneTenant(chain[0], chain[i]) <==> VisitsOfOneTenant(hosts, chain, p, i))
  }

  lemma NextTenants(hosts: seq<HostKey>, chain: seq<Db>, p: Plan, i: nat)
    requires Chain(hosts, chain, p.DownsampleCutoff(), p.Interval(), p.outcome) && i < |hosts| && TenantsSoFar(hosts, chain, p, i)
    ensures TenantsSoFar(hosts, chain, p, i + 1)
  {
    ChainShrinks(hosts, chain, p, 0, i);
    var pre, post, h := chain[i], chain[i + 1], hosts[i];
    assert VisitAt(hosts, chain, i, p.DownsampleCutoff(), p.Interval(), p.outcome);
    VisitTenants(chain[0], pre, post, h, p);
    assert VisitsOfOneTenant(hosts, chain, p, i + 1) <==>
           VisitsOfOneTenant(hosts, chain, p, i) && VisitOfOneTenant(hosts, chain, p, i);
  }

  lemma {:induction false} ChainTenants(hosts: seq<HostKey>, chain: seq<Db>, p: Plan, i: nat)
    requires Chain(hosts, chain, p.DownsampleCutoff(), p.Interval(), p.outcome) && i <= |hosts|
    ensures TenantsSoFar(hosts, chain, p, i)
  {
    if i > 0 {
      ChainTenants(hosts, chain, p, i - 1);
      NextTenants(hosts, chain, p, i - 1);
    }
  }

  /** The first inserting visit to a host still finds all of its old samples. */
  lemma {:induction false} FirstVisit(hosts: seq<HostKey>, chain: seq<Db>, p: Plan, k: nat) returns (j: nat)
    requires Chain(hosts, chain, p.DownsampleCutoff(), p.Interval(), p.outcome) && k < |hosts| && Inserting(p, hosts[k])
    ensures j <= k && hosts[j].host == hosts[k].host && Inserting(p, hosts[j])
    ensures OldIds(chain[0].samples, hosts[k].host, p.DownsampleCutoff()) <= OldIds(chain[j].samples, hosts[k].host, p.DownsampleCutoff())
  {
    if i: nat :| i < k && hosts[i].host == hosts[k].host && Inserting(p, hosts[i]) {
      j := FirstVisit(hosts, chain, p, i);
    } else {
      j := k;
      forall id | id in OldIds(chain[0].samples, hosts[k].host, p.DownsampleCutoff())
        ensures id in OldIds(chain[k].samples, hosts[k].host, p.DownsampleCutoff())
      {
        ChainCounts(hosts, chain, p, k, id);
        assert !CountedBy(hosts, k, p, chain[0].samples[id]);
      }
    }
  }

  lemma OldHostHasSample(samples: map<nat, Sample>, h: HostKey, cutoff: int) returns (id: nat)
    requires h in OldHosts(samples, cutoff)
    ensures id in OldIds(samples, h.host, cutoff) && samples[id].tenant == h.tenant
  {
    id :| id in samples && samples[id].ts < cutoff && HostKey(samples[id].host, samples[id].tenant) == h;
  }

  lemma SoleTenant(hosts: seq<HostKey>, chain: seq<Db>, p: Plan, k: nat)
    requires Chain(hosts, chain, p.DownsampleCutoff(), p.Interval(), p.outcome) && k < |hosts| && Inserting(p, hosts[k])
    requires hosts[k] in OldHosts(chain[0].samples, p.DownsampleCutoff())
    requires forall j: nat :: j < |hosts| ==> VisitOfOneTenant(hosts, chain, p, j)
    ensures HostOfOneTenant(chain[0].samples, hosts[k].host, p.DownsampleCutoff())
  {
    var j := FirstVisit(hosts, chain, p, k);
    ChainShrinks(hosts, chain, p, 0, j);
    assert VisitOfOneTenant(hosts, chain, p, j);
    var id := OldHostHasSample(chain[0].samples, hosts[k], p.DownsampleCutoff());
    assert id in OldIds(chain[j].samples, hosts[j].host, p.DownsampleCutoff());
  }

  lemma SoleTenantSuffices(hosts: seq<HostKey>, chain: seq<Db>, p: Plan, j: nat)
    requires Chain(hosts, chain, p.DownsampleCutoff(), p.Interval(), p.outcome) && j < |hosts|
    requires hosts[j] in OldHosts(chain[0].samples, p.DownsampleCutoff())
    requires Inserting(p, hosts[j]) ==> HostOfOneTenant(chain[0].samples, hosts[j].host, p.DownsampleCutoff())
    ensures VisitOfOneTenant(hosts, chain, p, j)
  {
    ChainShrinks(hosts, chain, p, 0, j);
    var own := OldHostHasSample(chain[0].samples, hosts[j], p.DownsampleCutoff());
  }

  /**
   * For every pass, whatever fails in it: each new row carries the tenant of all the samples it counts
   * exactly when every host whose rows go in has old samples of one tenant only.
   */
  lemma RowTenantsIff(pre: Db, mid: Db, p: Plan)
    requires Downsampled(pre, mid, p.DownsampleCutoff(), p.Interval(), p.outcome)
    ensures NewRowsOfOneTenant(pre, mid) <==>
            forall h :: h in OldHosts(pre.samples, p.DownsampleCutoff()) && Inserting(p, h) ==>
                          HostOfOneTenant(pre.samples, h.host, p.DownsampleCutoff())
  {
    var hosts, chain :|
      Chain(hosts, chain, p.DownsampleCutoff(), p.Interval(), p.outcome) && Visits(pre, hosts, p.DownsampleCutoff())
      && chain[0] == pre && chain[|hosts|] == mid;
    ChainTenants(hosts, chain, p, |hosts|);
    if NewRowsOfOneTenant(pre, mid) {
      forall h | h in OldHosts(pre.samples, p.DownsampleCutoff()) && Inserting(p, h)
        ensures HostOfOneTenant(pre.samples, h.host, p.DownsampleCutoff())
      {
        var k :| 0 <= k < |hosts| && hosts[k] == h;
        SoleTenant(hosts, chain, p, k);
      }
    }
    if forall h :: h in OldHosts(pre.samples, p.DownsampleCutoff()) && Inserting(p, h) ==>
        HostOfOneTenant(pre.samples, h.host, p.DownsampleCutoff()) {
      forall j: nat | j < |hosts|
        ensures VisitOfOneTenant(hosts, chain, p, j)
      {
        assert hosts[j] in hosts;
        SoleTenantSuffices(hosts, chain, p, j);
      }
    }
  }
}
