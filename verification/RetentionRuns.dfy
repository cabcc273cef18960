/** What the cleanup job keeps over whole histories of inserts and cleanup runs. */
module RetentionRuns {
  import opened Retention

  /** The rows, ever created, that a sample was counted in. */
  ghost function Absorbers(db: Db, id: nat): set<nat> {
    set i | 0 <= i < |db.created| && id in db.created[i].members
  }

  /** A row's values are the aggregate of its members, all of the row's host and bucket. */
  ghost predicate Faithful(a: Absorption, stored: map<nat, Sample>) {
    && a.interval > 0 && a.members != [] && NoDuplicates(a.members) && AllIn(a.members, stored)
    && (forall id :: id in a.members ==>
         stored[id].host == a.row.host && Truncate(stored[id].ts, a.interval) == a.row.ts)
    && Fold(stored, a.members).count > 0
    && a.row == MakeRow(BucketKey(a.row.tenant, a.row.host, a.row.ts), Fold(stored, a.members))
  }

  ghost predicate Consistent(db: Db) {
    && (forall id :: id in db.samples ==> id in db.stored && db.stored[id] == db.samples[id])
    && db.dropped <= db.stored.Keys && db.dropped !! db.samples.Keys
    && (forall i :: 0 <= i < |db.created| ==> Faithful(db.created[i], db.stored))
    && (forall r :: r in db.rows ==> r < |db.created| && db.rows[r] == db.created[r].row)
  }

  /** Conservation: a stored sample is raw, or was dropped by raw retention, or is in exactly one row. */
  ghost predicate Conserved(db: Db) {
    forall id :: id in db.stored ==>
      |Absorbers(db, id)| == if id in db.samples || id in db.dropped then 0 else 1
  }

  // ---------------------------------------------------------------- one host step

  lemma {:induction false} FoldAgrees(m: map<nat, Sample>, n: map<nat, Sample>, ids: seq<nat>)
    requires AllIn(ids, m) && AllIn(ids, n)
    requires forall i :: 0 <= i < |ids| ==> m[ids[i]] == n[ids[i]]
    ensures Fold(m, ids) == Fold(n, ids)
  {
    if ids != [] { FoldAgrees(m, n, ids[..|ids| - 1]); }
  }

  lemma BucketIsFaithful(a: Absorption, samples: map<nat, Sample>, stored: map<nat, Sample>, h: HostKey, cutoff: int, interval: int)
    requires interval > 0 && IsBucketOf(a, samples, h, cutoff, interval)
    requires forall id :: id in samples ==> id in stored && stored[id] == samples[id]
    ensures Faithful(a, stored)
  {
    FoldAgrees(samples, stored, a.members);
  }

  /** Each old sample of the host is in exactly one of the new rows. */
  lemma OneGroup(groups: seq<Absorption>, samples: map<nat, Sample>, h: HostKey, cutoff: int, interval: int, id: nat)
      returns (g: nat)
    requires interval > 0 && NewRows(groups, samples, h, cutoff, interval)
    requires id in OldIds(samples, h.host, cutoff)
    ensures g < |groups| && forall i :: 0 <= i < |groups| ==> (id in groups[i].members <==> i == g)
  {
    g :| 0 <= g < |groups| && id in groups[g].members;
    forall i | 0 <= i < |groups| && id in groups[i].members
      ensures i == g
    {
      assert IsBucketOf(groups[i], samples, h, cutoff, interval) && IsBucketOf(groups[g], samples, h, cutoff, interval);
    }
  }

  lemma NoGroup(groups: seq<Absorption>, samples: map<nat, Sample>, h: HostKey, cutoff: int, interval: int, id: nat)
    requires interval > 0 && NewRows(groups, samples, h, cutoff, interval)
    requires id !in OldIds(samples, h.host, cutoff)
    ensures forall i :: 0 <= i < |groups| ==> id !in groups[i].members
  {
    forall i | 0 <= i < |groups|
      ensures id !in groups[i].members
    {
      assert IsBucketOf(groups[i], samples, h, cutoff, interval);
    }
  }

  lemma AbsorbersOneMore(pre: Db, post: Db, groups: seq<Absorption>, id: nat, g: nat)
    requires post.created == pre.created + groups
    requires g < |groups| && forall i :: 0 <= i < |groups| ==> (id in groups[i].members <==> i == g)
    ensures |Absorbers(post, id)| == |Absorbers(pre, id)| + 1
  {
    var n := |pre.created| + g;
    assert post.created[n] == groups[g];
    assert Absorbers(post, id) == Absorbers(pre, id) + {n};
    assert n !in Absorbers(pre, id);
  }

  lemma AbsorbersSame(pre: Db, post: Db, groups: seq<Absorption>, id: nat)
    requires post.created == pre.created + groups
    requires forall i :: 0 <= i < |groups| ==> id !in groups[i].members
    ensures Absorbers(post, id) == Absorbers(pre, id)
  {
  }

  /** The new rows absorb each old sample of the host once, and nothing else. */
  lemma NewAbsorbers(pre: Db, post: Db, h: HostKey, cutoff: int, interval: int, o: Outcome, id: nat)
    requires interval > 0 && HostStep(pre, post, h, cutoff, interval, o) && Inserts(pre, h, cutoff, o)
    ensures if id in OldIds(pre.samples, h.host, cutoff)
            then |Absorbers(post, id)| == |Absorbers(pre, id)| + 1
            else Absorbers(post, id) == Absorbers(pre, id)
  {
    var groups := post.created[|pre.created|..];
    if id in OldIds(pre.samples, h.host, cutoff) {
      var g := OneGroup(groups, pre.samples, h, cutoff, interval, id);
      AbsorbersOneMore(pre, post, groups, id, g);
    } else {
      NoGroup(groups, pre.samples, h, cutoff, interval, id);
      AbsorbersSame(pre, post, groups, id);
    }
  }

  lemma NewRowsFaithful(pre: Db, groups: seq<Absorption>, h: HostKey, cutoff: int, interval: int)
    requires interval > 0 && NewRows(groups, pre.samples, h, cutoff, interval) && Consistent(pre)
    ensures forall i :: 0 <= i < |groups| ==> Faithful(groups[i], pre.stored)
  {
    forall i | 0 <= i < |groups|
      ensures Faithful(groups[i], pre.stored)
    {
      BucketIsFaithful(groups[i], pre.samples, pre.stored, h, cutoff, interval);
    }
  }

  lemma InsertedMatch(pre: Db, groups: seq<Absorption>)
    requires forall r :: r in pre.rows ==> r < |pre.created| && pre.rows[r] == pre.created[r].row
    ensures var rows := Inserted(pre.rows, |pre.created|, RowsOf(groups));
            forall r :: r in rows ==> r < |pre.created + groups| && rows[r] == (pre.created + groups)[r].row
  {
  }

  lemma AfterHostConsistent(pre: Db, h: HostKey, cutoff: int, o: Outcome, groups: seq<Absorption>)
    requires Consistent(pre) && forall i :: 0 <= i < |groups| ==> Faithful(groups[i], pre.stored)
    ensures Consistent(AfterHost(pre, h, cutoff, o, groups))
  {
    InsertedMatch(pre, groups);
  }

  lemma HostStepKeepsConsistent(pre: Db, post: Db, h: HostKey, cutoff: int, interval: int, o: Outcome)
    requires interval > 0 && HostStep(pre, post, h, cutoff, interval, o) && Consistent(pre)
    ensures Consistent(post)
  {
    if Inserts(pre, h, cutoff, o) {
      var groups := post.created[|pre.created|..];
      NewRowsFaithful(pre, groups, h, cutoff, interval);
      AfterHostConsistent(pre, h, cutoff, o, groups);
    }
  }

  /** A host step conserves every sample exactly when its delete does not fail after its insert. */
  lemma ConservedIffDeleted(pre: Db, post: Db, h: HostKey, cutoff: int, interval: int, o: Outcome)
    requires interval > 0 && HostStep(pre, post, h, cutoff, interval, o) && Consistent(pre) && Conserved(pre)
    ensures Conserved(post) <==> !Inserts(pre, h, cutoff, o) || o.deleteOk
  {
    if Inserts(pre, h, cutoff, o) {
      forall id | id in pre.stored
        ensures |Absorbers(post, id)| ==
                (if id in pre.samples || id in pre.dropped then 0 else 1)
                + if id in OldIds(pre.samples, h.host, cutoff) then 1 else 0
      {
        NewAbsorbers(pre, post, h, cutoff, interval, o, id);
      }
      if !o.deleteOk {
        var id :| id in OldIds(pre.samples, h.host, cutoff);
        assert id in post.stored && id in post.samples;
      }
    }
  }

  /** A failed insert changes nothing at all. */
  lemma FailedInsertKeepsRaw(pre: Db, post: Db, h: HostKey, cutoff: int, interval: int, o: Outcome)
    requires interval > 0 && HostStep(pre, post, h, cutoff, interval, o) && !o.insertOk
    ensures post == pre
  {
  }

  // ---------------------------------------------------------------- a whole run

  /** No host's delete fails once its rows are in. */
  ghost predicate DeletesSucceed(p: Plan) {
    forall h :: p.outcome(h).deleteOk
  }

  ghost predicate AllSucceed(p: Plan) {
    p.listOk && p.rawDeleteOk && p.rowDeleteOk && forall h :: p.outcome(h) == Outcome(true, true, true)
  }

  lemma {:induction false} ChainKeepsConserved(hosts: seq<HostKey>, chain: seq<Db>, p: Plan, i: nat)
    requires Chain(hosts, chain, p.DownsampleCutoff(), p.Interval(), p.outcome) && i <= |hosts|
    requires Consistent(chain[0])
    ensures Consistent(chain[i])
    ensures Conserved(chain[0]) && DeletesSucceed(p) ==> Conserved(chain[i])
  {
    if i > 0 {
      ChainKeepsConserved(hosts, chain, p, i - 1);
      assert VisitAt(hosts, chain, i - 1, p.DownsampleCutoff(), p.Interval(), p.outcome);
      var h := hosts[i - 1];
      HostStepKeepsConsistent(chain[i - 1], chain[i], h, p.DownsampleCutoff(), p.Interval(), p.outcome(h));
      if Conserved(chain[0]) && DeletesSucceed(p) {
        ConservedIffDeleted(chain[i - 1], chain[i], h, p.DownsampleCutoff(), p.Interval(), p.outcome(h));
      }
    }
  }

  /** How often a sample is accounted for: raw or dropped, and once for every row that counted it. */
  ghost function Accounts(db: Db, id: nat): nat {
    |Absorbers(db, id)| + if id in db.samples || id in db.dropped then 1 else 0
  }

  /** A visit never accounts for a sample less often, and more often exactly when its delete fails after its insert. */
  lemma VisitAccounts(pre: Db, post: Db, h: HostKey, cutoff: int, interval: int, o: Outcome, id: nat)
    requires interval > 0 && HostStep(pre, post, h, cutoff, interval, o) && pre.dropped !! pre.samples.Keys
    ensures Accounts(post, id) == Accounts(pre, id) +
              if Inserts(pre, h, cutoff, o) && !o.deleteOk && id in OldIds(pre.samples, h.host, cutoff) then 1 else 0
    ensures post.dropped == pre.dropped && post.stored == pre.stored && post.samples.Keys <= pre.samples.Keys
  {
    if Inserts(pre, h, cutoff, o) {
      NewAbsorbers(pre, post, h, cutoff, interval, o, id);
    }
  }

  /** The `j`-th visit of a pass does not insert and then fail its delete. */
  ghost predicate VisitDeletes(hosts: seq<HostKey>, chain: seq<Db>, p: Plan, j: nat)
    requires j < |hosts| < |chain|
  {
    Inserts(chain[j], hosts[j], p.DownsampleCutoff(), p.outcome(hosts[j])) ==> p.outcome(hosts[j]).deleteOk
  }

  lemma {:induction false} ChainAccounts(hosts: seq<HostKey>, chain: seq<Db>, p: Plan, i: nat, j: nat, id: nat)
    requires Chain(hosts, chain, p.DownsampleCutoff(), p.Interval(), p.outcome) && i <= j <= |hosts|
    requires chain[i].dropped !! chain[i].samples.Keys
    ensures Accounts(chain[j], id) >= Accounts(chain[i], id)
    ensures (forall k: nat :: i <= k < j ==> VisitDeletes(hosts, chain, p, k)) ==> Accounts(chain[j], id) == Accounts(chain[i], id)
    ensures chain[j].dropped == chain[i].dropped && chain[j].stored == chain[i].stored
    ensures chain[j].samples.Keys <= chain[i].samples.Keys
  {
    if i < j {
      ChainAccounts(hosts, chain, p, i, j - 1, id);
      assert VisitAt(hosts, chain, j - 1, p.DownsampleCutoff(), p.Interval(), p.outcome);
      VisitAccounts(chain[j - 1], chain[j], hosts[j - 1], p.DownsampleCutoff(), p.Interval(), p.outcome(hosts[j - 1]), id);
      assert (forall k: nat :: i <= k < j ==> VisitDeletes(hosts, chain, p, k)) ==> VisitDeletes(hosts, chain, p, j - 1);
    }
  }

  lemma ConservedIsOneAccount(db: Db)
    ensures Conserved(db) <==> forall id :: id in db.stored ==> Accounts(db, id) == 1
  {
    forall id
      ensures (|Absorbers(db, id)| == if id in db.samples || id in db.dropped then 0 else 1) <==> Accounts(db, id) == 1
    {
    }
  }

  /** A whole pass conserves every sample exactly when none of its visits inserts and then fails its delete. */
  lemma PassConservesIff(hosts: seq<HostKey>, chain: seq<Db>, p: Plan)
    requires Chain(hosts, chain, p.DownsampleCutoff(), p.Interval(), p.outcome) && Consistent(chain[0]) && Conserved(chain[0])
    ensures Conserved(chain[|hosts|]) <==> forall k: nat :: k < |hosts| ==> VisitDeletes(hosts, chain, p, k)
  {
    var n := |hosts|;
    ConservedIsOneAccount(chain[0]);
    ConservedIsOneAccount(chain[n]);
    forall id
      ensures Accounts(chain[n], id) >= Accounts(chain[0], id) && chain[n].stored == chain[0].stored
      ensures (forall k: nat :: k < n ==> VisitDeletes(hosts, chain, p, k)) ==> Accounts(chain[n], id) == Accounts(chain[0], id)
    {
      ChainAccounts(hosts, chain, p, 0, n, id);
    }
    if k: nat :| k < n && !VisitDeletes(hosts, chain, p, k) {
      FailedVisitOvercounts(hosts, chain, p, k);
    }
  }

  lemma FailedVisitOvercounts(hosts: seq<HostKey>, chain: seq<Db>, p: Plan, k: nat)
    requires Chain(hosts, chain, p.DownsampleCutoff(), p.Interval(), p.outcome) && Consistent(chain[0]) && Conserved(chain[0])
    requires k < |hosts| && !VisitDeletes(hosts, chain, p, k)
    ensures !Conserved(chain[|hosts|])
  {
    var n := |hosts|;
    var id :| id in OldIds(chain[k].samples, hosts[k].host, p.DownsampleCutoff());
    ChainAccounts(hosts, chain, p, 0, k, id);
    assert id in chain[0].stored;
    ConservedIsOneAccount(chain[0]);
    assert Accounts(chain[k], id) >= 1;
    FailedVisitAddsOne(hosts, chain, p, k, id);
    ChainAccounts(hosts, chain, p, k + 1, n, id);
    assert Accounts(chain[n], id) >= 2;
    ConservedIsOneAccount(chain[n]);
  }

  lemma FailedVisitAddsOne(hosts: seq<HostKey>, chain: seq<Db>, p: Plan, k: nat, id: nat)
    requires Chain(hosts, chain, p.DownsampleCutoff(), p.Interval(), p.outcome)
    requires k < |hosts| && !VisitDeletes(hosts, chain, p, k) && chain[k].dropped !! chain[k].samples.Keys
    requires id in OldIds(chain[k].samples, hosts[k].host, p.DownsampleCutoff())
    ensures Accounts(chain[k + 1], id) == Accounts(chain[k], id) + 1
    ensures chain[k + 1].stored == chain[k].stored && chain[k + 1].dropped !! chain[k + 1].samples.Keys
  {
    assert VisitAt(hosts, chain, k, p.DownsampleCutoff(), p.Interval(), p.outcome);
    VisitAccounts(chain[k], chain[k + 1], hosts[k], p.DownsampleCutoff(), p.Interval(), p.outcome(hosts[k]), id);
  }

  /** Downsampling only ever takes samples older than its cutoff, and keeps the rest of the history. */
  lemma {:induction false} ChainShrinks(hosts: seq<HostKey>, chain: seq<Db>, p: Plan, i: nat, j: nat)
    requires Chain(hosts, chain, p.DownsampleCutoff(), p.Interval(), p.outcome) && i <= j <= |hosts|
    ensures forall id :: id in chain[j].samples ==> id in chain[i].samples && chain[j].samples[id] == chain[i].samples[id]
    ensures forall id :: id in chain[i].samples && chain[i].samples[id].ts >= p.DownsampleCutoff() ==> id in chain[j].samples
    ensures chain[j].stored == chain[i].stored && chain[j].dropped == chain[i].dropped
  {
    if i < j {
      ChainShrinks(hosts, chain, p, i, j - 1);
      assert VisitAt(hosts, chain, j - 1, p.DownsampleCutoff(), p.Interval(), p.outcome);
    }
  }

  /** Once a host has been visited successfully, none of its old samples is left. */
  lemma VisitedHostEmpty(hosts: seq<HostKey>, chain: seq<Db>, p: Plan, h: HostKey)
    requires Chain(hosts, chain, p.DownsampleCutoff(), p.Interval(), p.outcome) && AllSucceed(p) && h in hosts
    ensures OldIds(chain[|hosts|].samples, h.host, p.DownsampleCutoff()) == {}
  {
    var j :| 0 <= j < |hosts| && hosts[j] == h;
    assert VisitAt(hosts, chain, j, p.DownsampleCutoff(), p.Interval(), p.outcome);
    assert OldIds(chain[j + 1].samples, h.host, p.DownsampleCutoff()) == {};
    ChainShrinks(hosts, chain, p, j + 1, |hosts|);
  }

  /** When every statement succeeds, no raw sample older than the cutoff is left. */
  lemma ChainTakesAllOld(hosts: seq<HostKey>, chain: seq<Db>, p: Plan, id: nat)
    requires Chain(hosts, chain, p.DownsampleCutoff(), p.Interval(), p.outcome) && AllSucceed(p)
    requires Visits(chain[0], hosts, p.DownsampleCutoff())
    requires id in chain[|hosts|].samples
    ensures chain[|hosts|].samples[id].ts >= p.DownsampleCutoff()
  {
    ChainShrinks(hosts, chain, p, 0, |hosts|);
    var s := chain[0].samples[id];
    var h := HostKey(s.host, s.tenant);
    if h in hosts {
      VisitedHostEmpty(hosts, chain, p, h);
      assert id !in OldIds(chain[|hosts|].samples, h.host, p.DownsampleCutoff());
    }
  }

  lemma RetentionKeepsConserved(mid: Db, p: Plan)
    requires Consistent(mid)
    ensures Consistent(AfterRetention(mid, p))
    ensures Conserved(mid) ==> Conserved(AfterRetention(mid, p))
  {
    var post := AfterRetention(mid, p);
    assert post.created == mid.created && post.stored == mid.stored;
    assert forall id :: Absorbers(post, id) == Absorbers(mid, id);
  }

  lemma CleanupKeepsConserved(pre: Db, post: Db, p: Plan)
    requires CleanupStep(pre, post, p) && Consistent(pre)
    ensures Consistent(post) && post.stored == pre.stored
    ensures Conserved(pre) && DeletesSucceed(p) ==> Conserved(post)
    ensures forall id ::
              id in pre.samples && pre.samples[id].ts >= p.DownsampleCutoff() && pre.samples[id].ts >= p.RawCutoff()
              ==> id in post.samples
  {
    var mid :|
      && (if p.listOk then Downsampled(pre, mid, p.DownsampleCutoff(), p.Interval(), p.outcome) else mid == pre)
      && post == AfterRetention(mid, p);
    if p.listOk {
      var hosts, chain :|
        Chain(hosts, chain, p.DownsampleCutoff(), p.Interval(), p.outcome) && Visits(pre, hosts, p.DownsampleCutoff())
        && chain[0] == pre && chain[|hosts|] == mid;
      ChainKeepsConserved(hosts, chain, p, |hosts|);
      ChainShrinks(hosts, chain, p, 0, |hosts|);
    }
    RetentionKeepsConserved(mid, p);
  }

  // ---------------------------------------------------------------- histories

  datatype Op = Store(id: nat, sample: Sample) | Cleanup(plan: Plan)

  ghost predicate OpStep(pre: Db, op: Op, post: Db) {
    match op
    case Store(id, s) =>
      id !in pre.stored && post == pre.(samples := pre.samples[id := s], stored := pre.stored[id := s])
    case Cleanup(p) => CleanupStep(pre, post, p)
  }

  const EmptyDb: Db := Db(map[], map[], map[], [], {})

  ghost predicate History(states: seq<Db>, ops: seq<Op>) {
    && |states| == |ops| + 1
    && states[0] == EmptyDb
    && forall i: nat :: i < |ops| ==> StepAt(states, ops, i)
  }

  ghost predicate StepAt(states: seq<Db>, ops: seq<Op>, i: nat)
    requires i < |ops| && |states| == |ops| + 1
  {
    OpStep(states[i], ops[i], states[i + 1])
  }

  lemma UnstoredUnabsorbed(db: Db, id: nat)
    requires Consistent(db) && id !in db.stored
    ensures Absorbers(db, id) == {}
  {
    forall i | 0 <= i < |db.created|
      ensures id !in db.created[i].members
    {
      assert Faithful(db.created[i], db.stored);
    }
  }

  lemma StoreKeepsConserved(pre: Db, op: Op, post: Db)
    requires op.Store? && OpStep(pre, op, post) && Consistent(pre)
    ensures Consistent(post)
    ensures Conserved(pre) ==> Conserved(post)
  {
    forall i | 0 <= i < |post.created|
      ensures Faithful(post.created[i], post.stored)
    {
      FoldAgrees(pre.stored, post.stored, pre.created[i].members);
    }
    forall id | id in post.stored && Conserved(pre)
      ensures |Absorbers(post, id)| == if id in post.samples || id in post.dropped then 0 else 1
    {
      assert Absorbers(post, id) == Absorbers(pre, id);
      if id == op.id { UnstoredUnabsorbed(pre, id); }
    }
  }

  /** In every history, whatever fails, every row created is the aggregate of the stored samples it counts. */
  lemma {:induction false} HistoryConsistent(states: seq<Db>, ops: seq<Op>, i: nat)
    requires History(states, ops) && i < |states|
    ensures Consistent(states[i])
  {
    if i > 0 {
      HistoryConsistent(states, ops, i - 1);
      assert StepAt(states, ops, i - 1);
      match ops[i - 1]
      case Store(_, _) => StoreKeepsConserved(states[i - 1], ops[i - 1], states[i]);
      case Cleanup(p) => CleanupKeepsConserved(states[i - 1], states[i], p);
    }
  }

  /** None of the cleanups has a delete that fails after its insert. */
  ghost predicate AllDeletesSucceed(ops: seq<Op>) {
    forall j :: 0 <= j < |ops| && ops[j].Cleanup? ==> DeletesSucceed(ops[j].plan)
  }

  /**
   * Conservation over every history whose deletes succeed, whatever else fails: each sample ever
   * stored is still raw, or was dropped by raw retention, or was counted in exactly one row ever created.
   */
  lemma {:induction false} HistoryConserves(states: seq<Db>, ops: seq<Op>, i: nat)
    requires History(states, ops) && i < |states| && AllDeletesSucceed(ops)
    ensures Consistent(states[i]) && Conserved(states[i])
  {
    HistoryConsistent(states, ops, i);
    if i > 0 {
      HistoryConserves(states, ops, i - 1);
      assert StepAt(states, ops, i - 1);
      match ops[i - 1]
      case Store(_, _) => StoreKeepsConserved(states[i - 1], ops[i - 1], states[i]);
      case Cleanup(p) => CleanupKeepsConserved(states[i - 1], states[i], p);
    }
  }

  ghost predicate NotYetDue(ops: seq<Op>, s: Sample) {
    forall j :: 0 <= j < |ops| && ops[j].Cleanup? ==>
      s.ts >= ops[j].plan.DownsampleCutoff() && s.ts >= ops[j].plan.RawCutoff()
  }

  /** A sample no cutoff has reached yet is still raw, whatever failed. */
  lemma {:induction false} RecentStaysRaw(states: seq<Db>, ops: seq<Op>, i: nat, id: nat)
    requires History(states, ops) && i < |states|
    requires id in states[i].stored && NotYetDue(ops, states[i].stored[id])
    ensures id in states[i].samples
  {
    if i > 0 {
      HistoryConsistent(states, ops, i - 1);
      assert StepAt(states, ops, i - 1);
      if ops[i - 1].Cleanup? {
        CleanupKeepsConserved(states[i - 1], states[i], ops[i - 1].plan);
      }
      if id in states[i - 1].stored {
        RecentStaysRaw(states, ops, i - 1, id);
      }
    }
  }

  /** A delete that fails after the insert makes the next run count the same sample again. */
  lemma FailedDeleteCountsTwice(pre: Db, post: Db, h: HostKey, cutoff: int, interval: int)
    requires interval > 0 && Consistent(pre) && Conserved(pre)
    requires HostStep(pre, post, h, cutoff, interval, Outcome(true, true, false))
    requires OldIds(pre.samples, h.host, cutoff) != {}
    ensures forall again :: HostStep(post, again, h, cutoff, interval, Outcome(true, true, true)) ==>
              forall id :: id in OldIds(pre.samples, h.host, cutoff) ==> |Absorbers(again, id)| == 2
  {
    forall again, id | HostStep(post, again, h, cutoff, interval, Outcome(true, true, true))
        && id in OldIds(pre.samples, h.host, cutoff)
      ensures |Absorbers(again, id)| == 2
    {
      NewAbsorbers(pre, post, h, cutoff, interval, Outcome(true, true, false), id);
      NewAbsorbers(post, again, h, cutoff, interval, Outcome(true, true, true), id);
    }
  }
}
