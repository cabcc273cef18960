/** How long downsampled rows, and the samples they count, stay in the tables. */
module RetentionSurvival {
  import opened Retention
  import opened RetentionRuns
  import opened RetentionLoss

  /** The cleanup deletes rows that start before its raw cutoff. */
  ghost predicate Expires(p: Plan, ts: int) {
    p.rowDeleteOk && ts < p.RawCutoff()
  }

  // ---------------------------------------------------------------- one cleanup

  /** A pass keeps the rows there are and adds those it creates. */
  ghost predicate RowsGrown(pre: Db, post: Db) {
    && pre.created <= post.created
    && (forall r: nat :: r < |post.created| ==> (r in post.rows <==> r in pre.rows || |pre.created| <= r))
  }

  lemma HostStepRows(pre: Db, post: Db, h: HostKey, cutoff: int, interval: int, o: Outcome)
    requires interval > 0 && HostStep(pre, post, h, cutoff, interval, o) && forall r :: r in pre.rows ==> r < |pre.created|
    ensures RowsGrown(pre, post) && forall r :: r in post.rows ==> r < |post.created|
  {
  }

  lemma {:induction false} ChainRows(hosts: seq<HostKey>, chain: seq<Db>, p: Plan, i: nat)
    requires Chain(hosts, chain, p.DownsampleCutoff(), p.Interval(), p.outcome) && i <= |hosts|
    requires forall r :: r in chain[0].rows ==> r < |chain[0].created|
    ensures RowsGrown(chain[0], chain[i]) && forall r :: r in chain[i].rows ==> r < |chain[i].created|
  {
    if i > 0 {
      ChainRows(hosts, chain, p, i - 1);
      assert VisitAt(hosts, chain, i - 1, p.DownsampleCutoff(), p.Interval(), p.outcome);
      HostStepRows(chain[i - 1], chain[i], hosts[i - 1], p.DownsampleCutoff(), p.Interval(), p.outcome(hosts[i - 1]));
    }
  }

  /** After a cleanup a row is there exactly when it was there or is new, and the cleanup does not expire it. */
  lemma CleanupRows(pre: Db, post: Db, p: Plan)
    requires CleanupStep(pre, post, p) && Consistent(pre)
    ensures pre.created <= post.created
    ensures forall r: nat :: r < |post.created| ==>
              (r in post.rows <==> (r in pre.rows || |pre.created| <= r) && !Expires(p, post.created[r].row.ts))
  {
    var mid :|
      && (if p.listOk then Downsampled(pre, mid, p.DownsampleCutoff(), p.Interval(), p.outcome) else mid == pre)
      && post == AfterRetention(mid, p);
    if p.listOk {
      var hosts, chain :|
        Chain(hosts, chain, p.DownsampleCutoff(), p.Interval(), p.outcome) && Visits(pre, hosts, p.DownsampleCutoff())
        && chain[0] == pre && chain[|hosts|] == mid;
      ChainRows(hosts, chain, p, |hosts|);
      ChainKeepsConserved(hosts, chain, p, |hosts|);
    }
    RetentionRows(mid, p);
  }

  lemma RetentionRows(mid: Db, p: Plan)
    requires Consistent(mid)
    ensures AfterRetention(mid, p).created == mid.created
    ensures forall r: nat :: r < |mid.created| ==>
              (r in AfterRetention(mid, p).rows <==> r in mid.rows && !Expires(p, mid.created[r].row.ts))
  {
  }

  /** A row of this cleanup: it starts before the downsampling cutoff and is one bucket wide. */
  ghost predicate IsOf(a: Absorption, p: Plan) {
    a.row.ts < p.DownsampleCutoff() && a.interval == p.Interval()
  }

  lemma NewRowsAreOld(pre: Db, post: Db, p: Plan)
    requires CleanupStep(pre, post, p) && Consistent(pre)
    ensures forall r: nat :: |pre.created| <= r < |post.created| ==> IsOf(post.created[r], p)
  {
    var mid :|
      && (if p.listOk then Downsampled(pre, mid, p.DownsampleCutoff(), p.Interval(), p.outcome) else mid == pre)
      && post == AfterRetention(mid, p);
    if p.listOk {
      var hosts, chain :|
        Chain(hosts, chain, p.DownsampleCutoff(), p.Interval(), p.outcome) && Visits(pre, hosts, p.DownsampleCutoff())
        && chain[0] == pre && chain[|hosts|] == mid;
      ChainNewRowsAreOld(hosts, chain, p, |hosts|);
    }
  }

  lemma {:induction false} ChainNewRowsAreOld(hosts: seq<HostKey>, chain: seq<Db>, p: Plan, i: nat)
    requires Chain(hosts, chain, p.DownsampleCutoff(), p.Interval(), p.outcome) && i <= |hosts|
    ensures chain[0].created <= chain[i].created
    ensures forall r: nat :: |chain[0].created| <= r < |chain[i].created| ==> IsOf(chain[i].created[r], p)
  {
    if i > 0 {
      ChainNewRowsAreOld(hosts, chain, p, i - 1);
      assert VisitAt(hosts, chain, i - 1, p.DownsampleCutoff(), p.Interval(), p.outcome);
      HostNewRowsAreOld(chain[i - 1], chain[i], hosts[i - 1], p);
    }
  }

  lemma HostNewRowsAreOld(pre: Db, post: Db, h: HostKey, p: Plan)
    requires HostStep(pre, post, h, p.DownsampleCutoff(), p.Interval(), p.outcome(h))
    ensures pre.created <= post.created
    ensures forall r: nat :: |pre.created| <= r < |post.created| ==> IsOf(post.created[r], p)
  {
    if Inserts(pre, h, p.DownsampleCutoff(), p.outcome(h)) {
      var groups := GroupsOf(pre, post, h, p);
      GroupsAreOld(groups, pre.samples, h, p);
      AppendedAreOld(pre.created, groups, p);
    }
  }

  lemma GroupsOf(pre: Db, post: Db, h: HostKey, p: Plan) returns (groups: seq<Absorption>)
    requires HostStep(pre, post, h, p.DownsampleCutoff(), p.Interval(), p.outcome(h))
    requires Inserts(pre, h, p.DownsampleCutoff(), p.outcome(h))
    ensures NewRows(groups, pre.samples, h, p.DownsampleCutoff(), p.Interval()) && post.created == pre.created + groups
  {
    groups := post.created[|pre.created|..];
  }

  lemma AppendedAreOld(before: seq<Absorption>, groups: seq<Absorption>, p: Plan)
    requires forall i :: 0 <= i < |groups| ==> IsOf(groups[i], p)
    ensures forall r: nat :: |before| <= r < |before + groups| ==> IsOf((before + groups)[r], p)
  {
  }

  lemma GroupsAreOld(groups: seq<Absorption>, samples: map<nat, Sample>, h: HostKey, p: Plan)
    requires NewRows(groups, samples, h, p.DownsampleCutoff(), p.Interval())
    ensures forall i :: 0 <= i < |groups| ==> IsOf(groups[i], p)
  {
    forall i | 0 <= i < |groups|
      ensures IsOf(groups[i], p)
    {
      BucketStartsEarly(groups[i], samples, h, p);
    }
  }

  lemma BucketStartsEarly(a: Absorption, samples: map<nat, Sample>, h: HostKey, p: Plan)
    requires IsBucketOf(a, samples, h, p.DownsampleCutoff(), p.Interval())
    ensures IsOf(a, p)
  {
    var first := a.members[0];
    assert first in a.members;
    assert Truncate(samples[first].ts, p.Interval()) <= samples[first].ts;
  }

  /**
   * When raw data is kept no longer than downsampling waits, as with equal days and one clock reading, a
   * cleanup deletes every row that it has just created.
   */
  lemma EqualDaysKeepNoRow(pre: Db, post: Db, p: Plan)
    requires CleanupStep(pre, post, p) && Consistent(pre) && p.rowDeleteOk && p.DownsampleCutoff() <= p.RawCutoff()
    ensures forall r: nat :: |pre.created| <= r < |post.created| ==> r !in post.rows
  {
    CleanupRows(pre, post, p);
    NewRowsAreOld(pre, post, p);
  }

  // ---------------------------------------------------------------- histories

  /** No cleanup among the first `i` operations that found or created row `r` has expired it. */
  ghost predicate Outlives(states: seq<Db>, ops: seq<Op>, i: nat, r: nat)
    requires i <= |ops| < |states| && r < |states[i].created|
  {
    forall j: nat :: j < i ==> SparesAt(states, ops, j, r, states[i].created[r].row.ts)
  }

  ghost predicate SparesAt(states: seq<Db>, ops: seq<Op>, j: nat, r: nat, ts: int)
    requires j < |ops| < |states|
  {
    ops[j].Cleanup? && r < |states[j + 1].created| ==> !Expires(ops[j].plan, ts)
  }

  lemma {:induction false} CreatedGrows(states: seq<Db>, ops: seq<Op>, i: nat, j: nat)
    requires History(states, ops) && i <= j < |states|
    ensures states[i].created <= states[j].created
  {
    if i < j {
      CreatedGrows(states, ops, i, j - 1);
      StepCreates(states, ops, j - 1);
    }
  }

  lemma StepCreates(states: seq<Db>, ops: seq<Op>, i: nat)
    requires History(states, ops) && i < |ops|
    ensures states[i].created <= states[i + 1].created
    ensures ops[i].Store? ==> states[i + 1].rows == states[i].rows && states[i + 1].created == states[i].created
    ensures ops[i].Cleanup? ==> forall r: nat :: r < |states[i + 1].created| ==>
              (r in states[i + 1].rows <==>
                 (r in states[i].rows || |states[i].created| <= r) && !Expires(ops[i].plan, states[i + 1].created[r].row.ts))
  {
    HistoryConsistent(states, ops, i);
    assert StepAt(states, ops, i);
    if ops[i].Cleanup? { CleanupRows(states[i], states[i + 1], ops[i].plan); }
  }

  lemma OutlivesOneMore(states: seq<Db>, ops: seq<Op>, i: nat, r: nat)
    requires i < |ops| < |states| && r < |states[i + 1].created|
    requires r < |states[i].created| ==> states[i].created[r] == states[i + 1].created[r]
    requires r >= |states[i].created| ==> forall j: nat :: j <= i ==> |states[j].created| <= r
    ensures Outlives(states, ops, i + 1, r) <==>
            (r < |states[i].created| ==> Outlives(states, ops, i, r)) && SparesAt(states, ops, i, r, states[i + 1].created[r].row.ts)
  {
    var ts := states[i + 1].created[r].row.ts;
    assert Outlives(states, ops, i + 1, r) <==>
           (forall j: nat :: j < i ==> SparesAt(states, ops, j, r, ts)) && SparesAt(states, ops, i, r, ts);
  }

  /**
   * In every history, whatever fails, a row ever created is in the table exactly when no cleanup since, its
   * own included, had a working row delete with a raw cutoff beyond the row's start.
   */
  lemma {:induction false} RowSurvivesIff(states: seq<Db>, ops: seq<Op>, i: nat, r: nat)
    requires History(states, ops) && i < |states| && r < |states[i].created|
    ensures r in states[i].rows <==> Outlives(states, ops, i, r)
  {
    if i > 0 {
      var n := i - 1;
      if r < |states[n].created| { RowSurvivesIff(states, ops, n, r); }
      StepCreates(states, ops, n);
      HistoryConsistent(states, ops, n);
      forall j: nat | j <= n
        ensures |states[j].created| <= |states[n].created|
      {
        CreatedGrows(states, ops, j, n);
      }
      assert r < |states[n].created| ==> states[n].created[r] == states[i].created[r];
      assert r >= |states[n].created| ==> r !in states[n].rows;
      OutlivesOneMore(states, ops, n, r);
      assert SparesAt(states, ops, n, r, states[i].created[r].row.ts) <==>
             (ops[n].Cleanup? ==> !Expires(ops[n].plan, states[i].created[r].row.ts));
    }
  }

  // ---------------------------------------------------------------- what is still there of a sample

  /** The sample is raw, or a row that counts it is in the table. */
  ghost predicate Present(db: Db, id: nat) {
    id in db.samples || exists r :: r in db.rows && r in Absorbers(db, id)
  }

  /** In every history a stored sample is present exactly when it is raw or a row that counted it outlives all cleanups since. */
  lemma PresentIff(states: seq<Db>, ops: seq<Op>, i: nat, id: nat)
    requires History(states, ops) && i < |states|
    ensures Present(states[i], id) <==>
            id in states[i].samples || exists r :: r in Absorbers(states[i], id) && Outlives(states, ops, i, r)
  {
    forall r | r in Absorbers(states[i], id)
      ensures r in states[i].rows <==> Outlives(states, ops, i, r)
    {
      RowSurvivesIff(states, ops, i, r);
    }
  }

  /** A working cleanup leaves nothing of a sample before its raw cutoff, raw or counted, whatever happened before. */
  lemma ExpiredIsGone(pre: Db, post: Db, p: Plan, id: nat)
    requires CleanupStep(pre, post, p) && Consistent(pre) && p.rawDeleteOk && p.rowDeleteOk
    requires id in post.stored && post.stored[id].ts < p.RawCutoff()
    ensures !Present(post, id)
  {
    CleanupKeepsConserved(pre, post, p);
    RawIsRecent(pre, post, p);
    CleanupRows(pre, post, p);
    ExpiredRowsGone(pre, post, p, id);
  }

  lemma RawIsRecent(pre: Db, post: Db, p: Plan)
    requires CleanupStep(pre, post, p) && p.rawDeleteOk
    ensures forall id :: id in post.samples ==> post.samples[id].ts >= p.RawCutoff()
  {
  }

  lemma ExpiredRowsGone(pre: Db, post: Db, p: Plan, id: nat)
    requires Consistent(post) && p.rowDeleteOk && id in post.stored && post.stored[id].ts < p.RawCutoff()
    requires forall r: nat :: r < |post.created| && Expires(p, post.created[r].row.ts) ==> r !in post.rows
    ensures forall r :: r in Absorbers(post, id) ==> r !in post.rows
  {
    forall r | r in Absorbers(post, id)
      ensures r !in post.rows
    {
      assert Faithful(post.created[r], post.stored);
      assert post.created[r].row.ts <= post.stored[id].ts;
    }
  }

  /** All raw cutoffs so far lie at least `width` before the time, and no bucket is wider than that. */
  ghost predicate WellWithin(ops: seq<Op>, i: nat, ts: int, width: int)
    requires i <= |ops|
  {
    forall j: nat :: j < i && ops[j].Cleanup? ==> WithinAt(ops[j].plan, ts, width)
  }

  ghost predicate WithinAt(p: Plan, ts: int, width: int) {
    p.Interval() <= width && p.RawCutoff() + width <= ts
  }

  lemma {:induction false} NotDropped(states: seq<Db>, ops: seq<Op>, i: nat, id: nat, ts: int, width: int)
    requires History(states, ops) && i < |states| && width >= 0 && WellWithin(ops, i, ts, width)
    requires id in states[i].stored && states[i].stored[id].ts == ts
    ensures id !in states[i].dropped
  {
    if i > 0 {
      var n := i - 1;
      HistoryConsistent(states, ops, n);
      assert StepAt(states, ops, n);
      if id in states[n].stored {
        if ops[n].Store? {
          assert states[n].stored[id] == states[i].stored[id];
        } else {
          CleanupKeepsConserved(states[n], states[i], ops[n].plan);
          assert WithinAt(ops[n].plan, ts, width);
          CleanupDropsOnlyExpired(states[n], states[i], ops[n].plan, id);
        }
        NotDropped(states, ops, n, id, ts, width);
      } else {
        assert ops[n].Store? by {
          if ops[n].Cleanup? { CleanupKeepsConserved(states[n], states[i], ops[n].plan); }
        }
      }
    }
  }

  lemma CleanupDropsOnlyExpired(pre: Db, post: Db, p: Plan, id: nat)
    requires CleanupStep(pre, post, p) && Consistent(pre) && id in pre.stored && pre.stored[id].ts >= p.RawCutoff()
    ensures id in post.dropped ==> id in pre.dropped
  {
    var mid := CleanupSplits(pre, post, p);
    if id in mid.samples { PassCounts(pre, mid, p, id); }
  }

  /** No row is wider than the widest bucket configured so far. */
  lemma {:induction false} RowsAreNarrow(states: seq<Db>, ops: seq<Op>, i: nat, ts: int, width: int)
    requires History(states, ops) && i < |states| && WellWithin(ops, i, ts, width)
    ensures forall r: nat :: r < |states[i].created| ==> states[i].created[r].interval <= width
  {
    if i > 0 {
      var n := i - 1;
      RowsAreNarrow(states, ops, n, ts, width);
      StepCreates(states, ops, n);
      HistoryConsistent(states, ops, n);
      assert StepAt(states, ops, n);
      if ops[n].Cleanup? {
        assert WithinAt(ops[n].plan, ts, width);
        NewRowsAreOld(states[n], states[i], ops[n].plan);
      }
    }
  }

  lemma NarrowOutlives(states: seq<Db>, ops: seq<Op>, i: nat, r: nat, ts: int, width: int)
    requires i <= |ops| < |states| && r < |states[i].created| && WellWithin(ops, i, ts, width)
    requires ts < states[i].created[r].row.ts + width
    ensures Outlives(states, ops, i, r)
  {
    forall j: nat | j < i
      ensures SparesAt(states, ops, j, r, states[i].created[r].row.ts)
    {
      if ops[j].Cleanup? { assert WithinAt(ops[j].plan, ts, width); }
    }
  }

  /** A cleanup never accounts for a sample less often: what leaves the raw table is dropped or has been counted. */
  lemma CleanupAccounts(pre: Db, post: Db, p: Plan, id: nat)
    requires CleanupStep(pre, post, p) && Consistent(pre)
    ensures Accounts(post, id) >= Accounts(pre, id)
  {
    var mid :|
      && (if p.listOk then Downsampled(pre, mid, p.DownsampleCutoff(), p.Interval(), p.outcome) else mid == pre)
      && post == AfterRetention(mid, p);
    if p.listOk {
      var hosts, chain :|
        Chain(hosts, chain, p.DownsampleCutoff(), p.Interval(), p.outcome) && Visits(pre, hosts, p.DownsampleCutoff())
        && chain[0] == pre && chain[|hosts|] == mid;
      ChainAccounts(hosts, chain, p, 0, |hosts|, id);
    }
    assert Absorbers(post, id) == Absorbers(mid, id);
  }

  /** In every history, whatever fails, each sample ever stored is raw, or was dropped, or was counted at least once. */
  lemma {:induction false} NothingVanishes(states: seq<Db>, ops: seq<Op>, i: nat, id: nat)
    requires History(states, ops) && i < |states| && id in states[i].stored
    ensures Accounts(states[i], id) >= 1
  {
    if i > 0 {
      var n := i - 1;
      HistoryConsistent(states, ops, n);
      assert StepAt(states, ops, n);
      if ops[n].Cleanup? {
        CleanupKeepsConserved(states[n], states[i], ops[n].plan);
        CleanupAccounts(states[n], states[i], ops[n].plan, id);
        NothingVanishes(states, ops, n, id);
      } else {
        StoreAccounts(states[n], ops[n], states[i], id);
        if id in states[n].stored { NothingVanishes(states, ops, n, id); }
      }
    }
  }

  lemma StoreAccounts(pre: Db, op: Op, post: Db, id: nat)
    requires op.Store? && OpStep(pre, op, post)
    ensures id in pre.stored ==> Accounts(post, id) >= Accounts(pre, id)
    ensures id in post.stored && id !in pre.stored ==> Accounts(post, id) >= 1
  {
    assert Absorbers(post, id) == Absorbers(pre, id);
  }

  /** In every history, whatever fails, a sample that much younger than every raw cutoff so far is still present. */
  lemma RecentIsPresent(states: seq<Db>, ops: seq<Op>, i: nat, id: nat, width: int)
    requires History(states, ops) && i < |states| && width >= 0
    requires id in states[i].stored && WellWithin(ops, i, states[i].stored[id].ts, width)
    ensures Present(states[i], id)
  {
    var ts := states[i].stored[id].ts;
    HistoryConsistent(states, ops, i);
    NothingVanishes(states, ops, i, id);
    NotDropped(states, ops, i, id, ts, width);
    if id !in states[i].samples {
      assert |Absorbers(states[i], id)| >= 1;
      var r :| r in Absorbers(states[i], id);
      assert Faithful(states[i].created[r], states[i].stored);
      RowsAreNarrow(states, ops, i, ts, width);
      NarrowOutlives(states, ops, i, r, ts, width);
      RowSurvivesIff(states, ops, i, r);
    }
  }
}
