/** Which samples a cleanup discards without counting them, whatever statements fail. */
module RetentionLoss {
  import opened Retention
  import opened RetentionRuns

  /** The pair's samples are read and its rows go in. */
  ghost predicate Inserting(p: Plan, h: HostKey) {
    p.outcome(h).readOk && p.outcome(h).insertOk
  }

  /** One of the first `i` pairs visited counts the sample. */
  ghost predicate CountedBy(hosts: seq<HostKey>, i: nat, p: Plan, s: Sample)
    requires i <= |hosts|
  {
    s.ts < p.DownsampleCutoff() && exists j :: 0 <= j < i && hosts[j].host == s.host && Inserting(p, hosts[j])
  }

  /** The cleanup counts the sample: the hosts can be listed, and some pair of its host is read and inserted. */
  ghost predicate Taken(db: Db, p: Plan, id: nat)
    requires id in db.samples
  {
    var s := db.samples[id];
    && p.listOk && s.ts < p.DownsampleCutoff()
    && exists h :: h in OldHosts(db.samples, p.DownsampleCutoff()) && h.host == s.host && Inserting(p, h)
  }

  /** The cleanup discards the sample although no row of it counts the sample. */
  ghost predicate Loses(db: Db, p: Plan, id: nat)
    requires id in db.samples
  {
    p.rawDeleteOk && db.samples[id].ts < p.RawCutoff() && !Taken(db, p, id)
  }

  // ---------------------------------------------------------------- one pass

  lemma StepCounts(pre: Db, post: Db, h: HostKey, p: Plan, id: nat)
    requires HostStep(pre, post, h, p.DownsampleCutoff(), p.Interval(), p.outcome(h))
    ensures var due := id in OldIds(pre.samples, h.host, p.DownsampleCutoff()) && Inserting(p, h);
            && (due ==> |Absorbers(post, id)| == |Absorbers(pre, id)| + 1)
            && (!due ==> Absorbers(post, id) == Absorbers(pre, id))
            && (id in post.samples <==> id in pre.samples && !(due && p.outcome(h).deleteOk))
  {
    if Inserts(pre, h, p.DownsampleCutoff(), p.outcome(h)) {
      NewAbsorbers(pre, post, h, p.DownsampleCutoff(), p.Interval(), p.outcome(h), id);
    }
  }

  lemma CountedByOneMore(hosts: seq<HostKey>, i: nat, p: Plan, s: Sample)
    requires i < |hosts|
    ensures CountedBy(hosts, i + 1, p, s) <==>
            CountedBy(hosts, i, p, s) || (s.ts < p.DownsampleCutoff() && hosts[i].host == s.host && Inserting(p, hosts[i]))
  {
  }

  /** What a prefix of the pass has done with a sample: a sample no longer raw has been counted. */
  ghost predicate PrefixCounts(hosts: seq<HostKey>, start: Db, db: Db, p: Plan, i: nat, id: nat)
    requires i <= |hosts| && id in start.samples
  {
    var counted := CountedBy(hosts, i, p, start.samples[id]);
    && (id in db.samples ==> db.samples[id] == start.samples[id])
    && (Absorbers(db, id) == {} <==> Absorbers(start, id) == {} && !counted)
    && (id !in db.samples ==> counted)
    && (DeletesSucceed(p) ==> (id in db.samples <==> !counted))
  }

  lemma {:induction false} ChainCounts(hosts: seq<HostKey>, chain: seq<Db>, p: Plan, i: nat, id: nat)
    requires Chain(hosts, chain, p.DownsampleCutoff(), p.Interval(), p.outcome) && i <= |hosts| && id in chain[0].samples
    ensures PrefixCounts(hosts, chain[0], chain[i], p, i, id)
  {
    if i > 0 {
      ChainCounts(hosts, chain, p, i - 1, id);
      assert VisitAt(hosts, chain, i - 1, p.DownsampleCutoff(), p.Interval(), p.outcome);
      ChainShrinks(hosts, chain, p, i - 1, i);
      PrefixStep(hosts, chain[0], chain[i - 1], chain[i], p, i - 1, id);
    }
  }

  lemma PrefixStep(hosts: seq<HostKey>, start: Db, pre: Db, post: Db, p: Plan, i: nat, id: nat)
    requires i < |hosts| && id in start.samples && PrefixCounts(hosts, start, pre, p, i, id)
    requires HostStep(pre, post, hosts[i], p.DownsampleCutoff(), p.Interval(), p.outcome(hosts[i]))
    requires id in post.samples ==> id in pre.samples && post.samples[id] == pre.samples[id]
    ensures PrefixCounts(hosts, start, post, p, i + 1, id)
  {
    StepCounts(pre, post, hosts[i], p, id);
    CountedByOneMore(hosts, i, p, start.samples[id]);
  }

  /** The first part of a cleanup, for every plan. */
  lemma PassCounts(pre: Db, mid: Db, p: Plan, id: nat)
    requires if p.listOk then Downsampled(pre, mid, p.DownsampleCutoff(), p.Interval(), p.outcome) else mid == pre
    requires id in pre.samples
    ensures id in mid.samples ==> mid.samples[id] == pre.samples[id]
    ensures Absorbers(mid, id) == {} <==> Absorbers(pre, id) == {} && !Taken(pre, p, id)
    ensures id !in mid.samples ==> Taken(pre, p, id)
    ensures DeletesSucceed(p) ==> (id in mid.samples <==> !Taken(pre, p, id))
  {
    if p.listOk {
      var hosts, chain :|
        Chain(hosts, chain, p.DownsampleCutoff(), p.Interval(), p.outcome) && Visits(pre, hosts, p.DownsampleCutoff())
        && chain[0] == pre && chain[|hosts|] == mid;
      ChainCounts(hosts, chain, p, |hosts|, id);
      VisitsCount(pre, hosts, p, id);
    }
  }

  lemma VisitsCount(pre: Db, hosts: seq<HostKey>, p: Plan, id: nat)
    requires p.listOk && Visits(pre, hosts, p.DownsampleCutoff()) && id in pre.samples
    ensures CountedBy(hosts, |hosts|, p, pre.samples[id]) <==> Taken(pre, p, id)
  {
    if Taken(pre, p, id) {
      var h :| h in OldHosts(pre.samples, p.DownsampleCutoff()) && h.host == pre.samples[id].host && Inserting(p, h);
      assert h in hosts;
    }
    if CountedBy(hosts, |hosts|, p, pre.samples[id]) {
      var j :| 0 <= j < |hosts| && hosts[j].host == pre.samples[id].host && Inserting(p, hosts[j]);
      assert hosts[j] in hosts;
    }
  }

  // ---------------------------------------------------------------- one cleanup

  lemma PassLeavesRest(pre: Db, mid: Db, p: Plan)
    requires if p.listOk then Downsampled(pre, mid, p.DownsampleCutoff(), p.Interval(), p.outcome) else mid == pre
    ensures mid.dropped == pre.dropped && mid.samples.Keys <= pre.samples.Keys
  {
    if p.listOk {
      var hosts, chain :|
        Chain(hosts, chain, p.DownsampleCutoff(), p.Interval(), p.outcome) && Visits(pre, hosts, p.DownsampleCutoff())
        && chain[0] == pre && chain[|hosts|] == mid;
      ChainShrinks(hosts, chain, p, 0, |hosts|);
    }
  }

  lemma CleanupSplits(pre: Db, post: Db, p: Plan) returns (mid: Db)
    requires CleanupStep(pre, post, p)
    ensures if p.listOk then Downsampled(pre, mid, p.DownsampleCutoff(), p.Interval(), p.outcome) else mid == pre
    ensures mid.dropped == pre.dropped && mid.samples.Keys <= pre.samples.Keys
    ensures post.created == mid.created
    ensures forall id :: id in post.samples <==> id in mid.samples && !(p.rawDeleteOk && mid.samples[id].ts < p.RawCutoff())
    ensures forall id :: id in post.dropped <==>
              id in mid.dropped || (p.rawDeleteOk && id in mid.samples && mid.samples[id].ts < p.RawCutoff())
  {
    mid :|
      && (if p.listOk then Downsampled(pre, mid, p.DownsampleCutoff(), p.Interval(), p.outcome) else mid == pre)
      && post == AfterRetention(mid, p);
    PassLeavesRest(pre, mid, p);
  }

  /**
   * For every plan, whatever statements fail: a raw sample that no row counts is gone uncounted after a
   * cleanup exactly when the raw delete succeeds and reaches it, and the downsampling did not take it.
   */
  lemma LostIff(pre: Db, post: Db, p: Plan, id: nat)
    requires CleanupStep(pre, post, p) && id in pre.samples
    ensures id !in post.samples && Absorbers(post, id) == {} <==> Absorbers(pre, id) == {} && Loses(pre, p, id)
  {
    var mid := CleanupSplits(pre, post, p);
    PassCounts(pre, mid, p, id);
    assert Absorbers(post, id) == Absorbers(mid, id);
  }

  /** When no delete fails after its insert, exactly those samples are dropped. */
  lemma DroppedIff(pre: Db, post: Db, p: Plan)
    requires CleanupStep(pre, post, p) && DeletesSucceed(p)
    ensures forall id :: id in post.dropped <==> id in pre.dropped || (id in pre.samples && Loses(pre, p, id))
  {
    var mid := CleanupSplits(pre, post, p);
    forall id
      ensures id in post.dropped <==> id in pre.dropped || (id in pre.samples && Loses(pre, p, id))
    {
      if id in pre.samples { PassCounts(pre, mid, p, id); }
    }
  }

  lemma AllTaken(db: Db, p: Plan, id: nat)
    requires p.listOk && id in db.samples && db.samples[id].ts < p.DownsampleCutoff() && forall h :: Inserting(p, h)
    ensures Taken(db, p, id)
  {
    var s := db.samples[id];
    assert HostKey(s.host, s.tenant) in OldHosts(db.samples, p.DownsampleCutoff());
  }

  /** With every statement successful that comes down to a raw sample between the two cutoffs. */
  lemma DropsIffGap(pre: Db, post: Db, p: Plan)
    requires CleanupStep(pre, post, p) && Consistent(pre) && AllSucceed(p)
    ensures post.dropped == pre.dropped <==>
            !exists id :: id in pre.samples && p.DownsampleCutoff() <= pre.samples[id].ts < p.RawCutoff()
  {
    DroppedIff(pre, post, p);
    forall id | id in pre.samples
      ensures Loses(pre, p, id) <==> p.DownsampleCutoff() <= pre.samples[id].ts < p.RawCutoff()
    {
      if pre.samples[id].ts < p.DownsampleCutoff() { AllTaken(pre, p, id); }
    }
    if id :| id in pre.samples && Loses(pre, p, id) {
      assert id in post.dropped && id !in pre.dropped;
    }
  }

  /** The raw cutoff is never the later one exactly when raw days are configured at least as long as downsampling waits. */
  lemma NoGapIffDays(p: Plan)
    requires p.now1 <= p.now2 < p.now1 + DAY
    ensures p.RawCutoff() <= p.DownsampleCutoff() <==>
            OrDefault(p.config.rawRetentionDays, 90) >= OrDefault(p.config.downsampleAtDays, 7)
  {
    var raw, down := OrDefault(p.config.rawRetentionDays, 90), OrDefault(p.config.downsampleAtDays, 7);
    assert p.DownsampleCutoff() - p.RawCutoff() == p.now2 - p.now1 + (raw - down) * DAY;
    if raw < down {
      assert (raw - down) * DAY <= -DAY;
    }
  }

  // ---------------------------------------------------------------- histories

  /** The cleanups among the first `i` operations lose nothing of what is raw when they start. */
  ghost predicate NoneLost(states: seq<Db>, ops: seq<Op>, i: nat)
    requires i <= |ops| < |states|
  {
    forall j :: 0 <= j < i && ops[j].Cleanup? ==> LosesNothing(states[j], ops[j].plan)
  }

  ghost predicate LosesNothing(db: Db, p: Plan) {
    forall id :: id in db.samples ==> !Loses(db, p, id)
  }

  lemma StepLosesIff(pre: Db, op: Op, post: Db)
    requires OpStep(pre, op, post) && Consistent(pre) && (op.Cleanup? ==> DeletesSucceed(op.plan))
    ensures post.dropped == {} <==> pre.dropped == {} && (op.Cleanup? ==> LosesNothing(pre, op.plan))
  {
    if op.Cleanup? {
      DroppedIff(pre, post, op.plan);
      if LosesNothing(pre, op.plan) && pre.dropped == {} {
        assert forall id :: id !in post.dropped;
      }
    }
  }

  lemma NoneLostStep(states: seq<Db>, ops: seq<Op>, i: nat)
    requires i < |ops| < |states|
    ensures NoneLost(states, ops, i + 1) <==>
            NoneLost(states, ops, i) && (ops[i].Cleanup? ==> LosesNothing(states[i], ops[i].plan))
  {
  }

  lemma NothingLostAtFirst(states: seq<Db>, ops: seq<Op>)
    requires |ops| < |states| && states[0] == EmptyDb
    ensures states[0].dropped == {} && NoneLost(states, ops, 0)
  {
  }

  lemma DroppedIffLost(states: seq<Db>, ops: seq<Op>, i: nat)
    requires History(states, ops) && i < |ops| && AllDeletesSucceed(ops)
    requires states[i].dropped == {} <==> NoneLost(states, ops, i)
    ensures states[i + 1].dropped == {} <==> NoneLost(states, ops, i + 1)
  {
    HistoryConsistent(states, ops, i);
    assert StepAt(states, ops, i);
    StepLosesIff(states[i], ops[i], states[i + 1]);
    NoneLostStep(states, ops, i);
  }

  /**
   * Over every history whose deletes succeed, whatever else fails, nothing has been dropped uncounted
   * exactly when no cleanup so far met a raw sample that it loses.
   */
  lemma {:induction false} NothingDroppedIff(states: seq<Db>, ops: seq<Op>, i: nat)
    requires History(states, ops) && i < |states| && AllDeletesSucceed(ops)
    ensures states[i].dropped == {} <==> NoneLost(states, ops, i)
  {
    if i > 0 {
      NothingDroppedIff(states, ops, i - 1);
      DroppedIffLost(states, ops, i - 1);
    } else {
      NothingLostAtFirst(states, ops);
    }
  }

  /** Its raw delete, if it works at all, comes no earlier than the downsampling and after a pass that did not fail. */
  ghost predicate Careful(p: Plan) {
    && DeletesSucceed(p)
    && (p.rawDeleteOk ==> p.listOk && p.RawCutoff() <= p.DownsampleCutoff() && forall h :: Inserting(p, h))
  }

  lemma CarefulLosesNothing(db: Db, p: Plan)
    requires Careful(p)
    ensures LosesNothing(db, p)
  {
    forall id | id in db.samples
      ensures !Loses(db, p, id)
    {
      if p.rawDeleteOk && db.samples[id].ts < p.RawCutoff() { AllTaken(db, p, id); }
    }
  }

  /** With raw data kept at least as long as downsampling waits, and no failing pass, nothing is ever dropped uncounted. */
  lemma NothingDropped(states: seq<Db>, ops: seq<Op>, i: nat)
    requires History(states, ops) && i < |states|
    requires forall j :: 0 <= j < |ops| && ops[j].Cleanup? ==> Careful(ops[j].plan)
    ensures states[i].dropped == {}
  {
    NothingDroppedIff(states, ops, i);
    forall j | 0 <= j < i && ops[j].Cleanup?
      ensures LosesNothing(states[j], ops[j].plan)
    {
      CarefulLosesNothing(states[j], ops[j].plan);
    }
  }

  // ---------------------------------------------------------------- failures that lose samples

  /** The shipped settings, a hundred days after the zero time, with no failing delete. */
  function DefaultPlan(listOk: bool, insertOk: bool): (p: Plan)
    ensures DeletesSucceed(p) && p.RawCutoff() <= p.DownsampleCutoff()
  {
    Plan(Config(0, 0, 0), 100 * DAY, 100 * DAY, listOk, _ => Outcome(true, insertOk, true), true, true)
  }

  /** One old sample is stored, and one cleanup runs with its listing or its insert failing. */
  ghost predicate LosesOnlySample(states: seq<Db>, ops: seq<Op>, p: Plan, id: nat) {
    && History(states, ops) && |ops| == 2 && ops[0].Store? && ops[1] == Cleanup(p)
    && id in states[1].samples && states[2].dropped == {id} && Absorbers(states[2], id) == {}
  }

  lemma FailingPassLoses(s: Sample, p: Plan) returns (states: seq<Db>, ops: seq<Op>)
    requires s.ts == 0 && (p == DefaultPlan(false, true) || p == DefaultPlan(true, false))
    ensures LosesOnlySample(states, ops, p, 0)
  {
    var stored := EmptyDb.(samples := map[0 := s], stored := map[0 := s]);
    var post := AfterRetention(stored, p);
    if p.listOk { FailedInsertPass(stored, s, p); }
    CleanupStepBy(stored, stored, p);
    states, ops := [EmptyDb, stored, post], [Store(0, s), Cleanup(p)];
    assert StepAt(states, ops, 0) && StepAt(states, ops, 1);
  }

  /** A pass whose only insert fails leaves everything as it was. */
  lemma FailedInsertPass(db: Db, s: Sample, p: Plan)
    requires db.samples == map[0 := s] && s.ts < p.DownsampleCutoff() && forall h :: !p.outcome(h).insertOk
    ensures Downsampled(db, db, p.DownsampleCutoff(), p.Interval(), p.outcome)
  {
    var h := HostKey(s.host, s.tenant);
    var hosts, chain := [h], [db, db];
    assert OldHosts(db.samples, p.DownsampleCutoff()) == {h} by {
      assert 0 in db.samples;
    }
    assert VisitAt(hosts, chain, 0, p.DownsampleCutoff(), p.Interval(), p.outcome);
    assert Chain(hosts, chain, p.DownsampleCutoff(), p.Interval(), p.outcome);
    assert Visits(db, hosts, p.DownsampleCutoff());
  }

  /** With the shipped settings, a cleanup that cannot list its hosts still deletes the expired sample. */
  lemma FailedListingLoses(s: Sample) returns (states: seq<Db>, ops: seq<Op>)
    requires s.ts == 0
    ensures LosesOnlySample(states, ops, DefaultPlan(false, true), 0)
  {
    states, ops := FailingPassLoses(s, DefaultPlan(false, true));
  }

  /** So does one whose insert fails. */
  lemma FailedInsertLoses(s: Sample) returns (states: seq<Db>, ops: seq<Op>)
    requires s.ts == 0
    ensures LosesOnlySample(states, ops, DefaultPlan(true, false), 0)
  {
    states, ops := FailingPassLoses(s, DefaultPlan(true, false));
  }
}
