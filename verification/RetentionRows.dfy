/** What a downsampled row says about its samples, and how many rows a bucket can get. */
module RetentionRows {
  import opened Retention
  import opened RetentionRuns

  // ---------------------------------------------------------------- the values of one row

  ghost function SumBy(stored: map<nat, Sample>, ids: seq<nat>, f: Sample -> nat): nat
    requires AllIn(ids, stored)
  {
    if ids == [] then 0 else SumBy(stored, ids[..|ids| - 1], f) + f(stored[ids[|ids| - 1]])
  }

  ghost function RealSumBy(stored: map<nat, Sample>, ids: seq<nat>, f: Sample -> real): real
    requires AllIn(ids, stored)
  {
    if ids == [] then 0.0 else RealSumBy(stored, ids[..|ids| - 1], f) + f(stored[ids[|ids| - 1]])
  }

  ghost const Used: Sample -> nat := (s: Sample) => s.memUsed
  ghost const Total: Sample -> nat := (s: Sample) => s.memTotal
  ghost const Cpu: Sample -> real := (s: Sample) => s.cpu
  ghost const MemPct: Sample -> real := (s: Sample) => s.memPct
  ghost const Load1: Sample -> real := (s: Sample) => s.load1
  ghost const Load5: Sample -> real := (s: Sample) => s.load5
  ghost const Load15: Sample -> real := (s: Sample) => s.load15

  /** The accumulator holds the wrapped integer sums, the real sums and the largest process count. */
  lemma {:induction false} FoldSums(stored: map<nat, Sample>, ids: seq<nat>)
    requires AllIn(ids, stored)
    ensures var v := Fold(stored, ids);
            && v.memUsed == SumBy(stored, ids, Used) % U64 && v.memTotal == SumBy(stored, ids, Total) % U64
            && v.cpu == RealSumBy(stored, ids, Cpu) && v.memPct == RealSumBy(stored, ids, MemPct)
            && v.load1 == RealSumBy(stored, ids, Load1) && v.load5 == RealSumBy(stored, ids, Load5)
            && v.load15 == RealSumBy(stored, ids, Load15)
            && v.process >= 0 && (forall id :: id in ids ==> stored[id].process <= v.process)
            && (v.process == 0 || exists id :: id in ids && stored[id].process == v.process)
  {
    if ids != [] {
      var init := ids[..|ids| - 1];
      FoldSums(stored, init);
      assert ids == init + [ids[|ids| - 1]];
      WrapAdd(SumBy(stored, init, Used), stored[ids[|ids| - 1]].memUsed);
      WrapAdd(SumBy(stored, init, Total), stored[ids[|ids| - 1]].memTotal);
    }
  }

  lemma WrapAdd(a: nat, b: nat)
    ensures (a % U64 + b) % U64 == (a + b) % U64
  {
    var q := a / U64;
    assert a == q * U64 + a % U64;
    ModShift(a % U64 + b, q);
  }

  lemma {:induction false} ModShift(x: nat, q: nat)
    ensures (x + q * U64) % U64 == x % U64
    decreases q
  {
    if q > 0 { ModShift(x + U64, q - 1); }
  }

  lemma {:induction false} SumAtLeast(stored: map<nat, Sample>, ids: seq<nat>, f: Sample -> nat, lo: nat)
    requires AllIn(ids, stored) && forall i :: 0 <= i < |ids| ==> lo <= f(stored[ids[i]])
    ensures lo * |ids| <= SumBy(stored, ids, f)
  {
    if ids != [] {
      SumAtLeast(stored, ids[..|ids| - 1], f, lo);
      DistributeInt(lo, |ids| - 1);
    }
  }

  lemma {:induction false} SumAtMost(stored: map<nat, Sample>, ids: seq<nat>, f: Sample -> nat, hi: nat)
    requires AllIn(ids, stored) && forall i :: 0 <= i < |ids| ==> f(stored[ids[i]]) <= hi
    ensures SumBy(stored, ids, f) <= hi * |ids|
  {
    if ids != [] {
      SumAtMost(stored, ids[..|ids| - 1], f, hi);
      DistributeInt(hi, |ids| - 1);
    }
  }

  lemma DistributeInt(x: nat, n: nat)
    ensures x * (n + 1) == x * n + x
  {
  }

  lemma {:induction false} RealSumAtLeast(stored: map<nat, Sample>, ids: seq<nat>, f: Sample -> real, lo: real)
    requires AllIn(ids, stored) && forall i :: 0 <= i < |ids| ==> lo <= f(stored[ids[i]])
    ensures lo * (|ids| as real) <= RealSumBy(stored, ids, f)
  {
    if ids != [] {
      RealSumAtLeast(stored, ids[..|ids| - 1], f, lo);
      Distribute(lo, (|ids| - 1) as real);
    }
  }

  lemma {:induction false} RealSumAtMost(stored: map<nat, Sample>, ids: seq<nat>, f: Sample -> real, hi: real)
    requires AllIn(ids, stored) && forall i :: 0 <= i < |ids| ==> f(stored[ids[i]]) <= hi
    ensures RealSumBy(stored, ids, f) <= hi * (|ids| as real)
  {
    if ids != [] {
      RealSumAtMost(stored, ids[..|ids| - 1], f, hi);
      Distribute(hi, (|ids| - 1) as real);
    }
  }

  lemma Distribute(x: real, n: real)
    ensures x * (n + 1.0) == x * n + x
  {
  }

  lemma {:induction false} SumMonotone(stored: map<nat, Sample>, ids: seq<nat>)
    requires AllIn(ids, stored) && forall id :: id in ids ==> stored[id].memUsed <= stored[id].memTotal
    ensures SumBy(stored, ids, Used) <= SumBy(stored, ids, Total)
  {
    if ids != [] {
      assert ids == ids[..|ids| - 1] + [ids[|ids| - 1]];
      SumMonotone(stored, ids[..|ids| - 1]);
    }
  }

  lemma LessFromProducts(a: int, b: int, n: int)
    requires n > 0 && a * n < b * n
    ensures a < b
  {
  }

  lemma QuotientBounds(s: nat, n: nat, lo: nat, hi: nat)
    requires n > 0 && lo * n <= s <= hi * n
    ensures lo <= s / n <= hi
  {
    var q := s / n;
    assert s == q * n + s % n;
    assert lo * n < (q + 1) * n && q * n < (hi + 1) * n;
    LessFromProducts(lo, q + 1, n);
    LessFromProducts(q, hi + 1, n);
  }

  lemma QuotientMonotone(a: nat, b: nat, n: nat)
    requires n > 0 && a <= b
    ensures a / n <= b / n
  {
    assert a == (a / n) * n + a % n && b == (b / n) * n + b % n;
    assert (a / n) * n < (b / n + 1) * n;
    LessFromProducts(a / n, b / n + 1, n);
  }

  lemma QuotientShift(a: nat, b: nat, n: nat)
    requires n > 0 && a + n <= b
    ensures a / n < b / n
  {
    assert a == (a / n) * n + a % n && b == (b / n) * n + b % n;
    assert (a / n + 1) * n < (b / n + 1) * n;
    LessFromProducts(a / n + 1, b / n + 1, n);
  }

  lemma RealLeqFromProducts(a: real, b: real, n: real)
    requires n > 0.0 && a * n <= b * n
    ensures a <= b
  {
  }

  lemma RealQuotientBounds(s: real, n: real, lo: real, hi: real)
    requires n > 0.0 && lo * n <= s <= hi * n
    ensures lo <= s / n <= hi
  {
    assert (s / n) * n == s;
    RealLeqFromProducts(lo, s / n, n);
    RealLeqFromProducts(s / n, hi, n);
  }

  /** Every member lies in the row's bucket, and the row was divided by their positive number. */
  lemma RowCoversItsBucket(a: Absorption, stored: map<nat, Sample>)
    requires Faithful(a, stored)
    ensures forall id :: id in a.members ==> a.row.ts <= stored[id].ts < a.row.ts + a.interval
    ensures Fold(stored, a.members).count == |a.members| > 0
    ensures forall id :: id in a.members ==> stored[id].process <= a.row.process
  {
    FoldCount(stored, a.members);
    FoldSums(stored, a.members);
  }

  /** The process count is the largest among the bucket's samples, or 0 exactly when none of them is positive. */
  lemma ProcessIsLargest(a: Absorption, stored: map<nat, Sample>)
    requires Faithful(a, stored)
    ensures forall id :: id in a.members ==> stored[id].process <= a.row.process
    ensures a.row.process == 0 || exists id :: id in a.members && stored[id].process == a.row.process
    ensures a.row.process == 0 <==> forall id :: id in a.members ==> stored[id].process <= 0
  {
    FoldSums(stored, a.members);
  }

  /** A memory column is the true integer mean of its bucket exactly when the uint64 sum does not wrap. */
  lemma MeanIffNoOverflow(a: Absorption, stored: map<nat, Sample>)
    requires Faithful(a, stored) && |a.members| <= U64
    ensures a.row.memUsed == SumBy(stored, a.members, Used) / |a.members| <==> SumBy(stored, a.members, Used) < U64
    ensures a.row.memTotal == SumBy(stored, a.members, Total) / |a.members| <==> SumBy(stored, a.members, Total) < U64
  {
    MemoryColumns(a, stored);
    WrappedMean(SumBy(stored, a.members, Used), |a.members|);
    WrappedMean(SumBy(stored, a.members, Total), |a.members|);
  }

  lemma WrappedMean(s: nat, n: nat)
    requires 0 < n <= U64
    ensures (s % U64) / n == s / n <==> s < U64
  {
    if s >= U64 {
      assert s % U64 + U64 <= s;
      QuotientShift(s % U64, s, n);
    }
  }

  lemma MemoryColumns(a: Absorption, stored: map<nat, Sample>)
    requires Faithful(a, stored)
    ensures a.members != []
    ensures a.row.memUsed == (SumBy(stored, a.members, Used) % U64) / |a.members|
    ensures a.row.memTotal == (SumBy(stored, a.members, Total) % U64) / |a.members|
  {
    FoldCount(stored, a.members);
    FoldSums(stored, a.members);
  }

  lemma AverageColumns(a: Absorption, stored: map<nat, Sample>)
    requires Faithful(a, stored)
    ensures a.members != []
    ensures a.row.cpu == RealSumBy(stored, a.members, Cpu) / (|a.members| as real)
    ensures a.row.memPct == RealSumBy(stored, a.members, MemPct) / (|a.members| as real)
    ensures a.row.load1 == RealSumBy(stored, a.members, Load1) / (|a.members| as real)
    ensures a.row.load5 == RealSumBy(stored, a.members, Load5) / (|a.members| as real)
    ensures a.row.load15 == RealSumBy(stored, a.members, Load15) / (|a.members| as real)
  {
    FoldCount(stored, a.members);
    FoldSums(stored, a.members);
  }

  /** A memory column with the function that reads it from a sample. */
  ghost predicate IsMemoryColumn(row: Row, f: Sample -> nat, value: nat) {
    (f == Used && value == row.memUsed) || (f == Total && value == row.memTotal)
  }

  lemma SmallRest(n: nat)
    requires n < U64
    ensures n % U64 == n
  {
  }

  lemma MemoryMean(a: Absorption, stored: map<nat, Sample>, f: Sample -> nat, value: nat)
    requires Faithful(a, stored) && IsMemoryColumn(a.row, f, value) && SumBy(stored, a.members, f) < U64
    ensures value == SumBy(stored, a.members, f) / |a.members|
  {
    MemoryColumns(a, stored);
    SmallRest(SumBy(stored, a.members, f));
  }

  /** Without overflow the memory columns stay within their samples' range. */
  lemma MemoryWithinRange(a: Absorption, stored: map<nat, Sample>, f: Sample -> nat, value: nat, lo: nat, hi: nat)
    requires Faithful(a, stored) && IsMemoryColumn(a.row, f, value) && SumBy(stored, a.members, f) < U64
    requires forall id :: id in a.members ==> lo <= f(stored[id]) <= hi
    ensures lo <= value <= hi
  {
    MemoryMean(a, stored, f, value);
    SumAtLeast(stored, a.members, f, lo);
    SumAtMost(stored, a.members, f, hi);
    QuotientBounds(SumBy(stored, a.members, f), |a.members|, lo, hi);
  }

  /** Without overflow used memory stays below total memory. */
  lemma UsedBelowTotal(a: Absorption, stored: map<nat, Sample>)
    requires Faithful(a, stored) && SumBy(stored, a.members, Total) < U64
    requires forall id :: id in a.members ==> stored[id].memUsed <= stored[id].memTotal
    ensures a.row.memUsed <= a.row.memTotal
  {
    MemoryColumns(a, stored);
    SumMonotone(stored, a.members);
    OrderedMeans(SumBy(stored, a.members, Used), SumBy(stored, a.members, Total), |a.members|);
  }

  lemma OrderedMeans(u: nat, t: nat, n: nat)
    requires n > 0 && u <= t < U64
    ensures (u % U64) / n <= (t % U64) / n
  {
    assert u % U64 == u && t % U64 == t;
    QuotientMonotone(u, t, n);
  }

  /** Each averaged column with the function that reads it from a sample. */
  ghost predicate IsAverageColumn(row: Row, f: Sample -> real, value: real) {
    || (f == Cpu && value == row.cpu) || (f == MemPct && value == row.memPct)
    || (f == Load1 && value == row.load1) || (f == Load5 && value == row.load5) || (f == Load15 && value == row.load15)
  }

  lemma AverageMean(a: Absorption, stored: map<nat, Sample>, f: Sample -> real, value: real)
    requires Faithful(a, stored) && IsAverageColumn(a.row, f, value)
    ensures value == RealSumBy(stored, a.members, f) / (|a.members| as real)
  {
    AverageColumns(a, stored);
  }

  /** The averaged columns lie within their samples' range. */
  lemma AveragesWithinRange(a: Absorption, stored: map<nat, Sample>, f: Sample -> real, value: real, lo: real, hi: real)
    requires Faithful(a, stored) && IsAverageColumn(a.row, f, value)
    requires forall id :: id in a.members ==> lo <= f(stored[id]) <= hi
    ensures lo <= value <= hi
  {
    AverageMean(a, stored, f, value);
    MemoryColumns(a, stored);
    MeanWithinRange(stored, a.members, f, lo, hi);
  }

  lemma MeanWithinRange(stored: map<nat, Sample>, ids: seq<nat>, f: Sample -> real, lo: real, hi: real)
    requires ids != [] && forall id :: id in ids ==> id in stored && lo <= f(stored[id]) <= hi
    ensures lo <= RealSumBy(stored, ids, f) / (|ids| as real) <= hi
  {
    RealSumAtLeast(stored, ids, f, lo);
    RealSumAtMost(stored, ids, f, hi);
    RealQuotientBounds(RealSumBy(stored, ids, f), |ids| as real, lo, hi);
  }

  // ---------------------------------------------------------------- at most two rows per bucket

  ghost function RowIds(db: Db, host: nat, b: int): set<nat> {
    set i | 0 <= i < |db.created| && db.created[i].row.host == host && db.created[i].row.ts == b
  }

  ghost function DueInBucket(samples: map<nat, Sample>, host: nat, b: int, cutoff: int, interval: int): set<nat>
    requires interval > 0
  {
    set id | id in OldIds(samples, host, cutoff) && Truncate(samples[id].ts, interval) == b
  }

  lemma BucketHasDue(a: Absorption, samples: map<nat, Sample>, h: HostKey, cutoff: int, interval: int)
    requires interval > 0 && IsBucketOf(a, samples, h, cutoff, interval)
    ensures a.row.host == h.host && DueInBucket(samples, h.host, a.row.ts, cutoff, interval) != {}
  {
    var first := a.members[0];
    assert first in a.members;
    assert first in DueInBucket(samples, h.host, a.row.ts, cutoff, interval);
  }

  /** The new rows of a host: distinct buckets, each with a due sample. */
  lemma NewRowBuckets(groups: seq<Absorption>, samples: map<nat, Sample>, h: HostKey, cutoff: int, interval: int)
    requires interval > 0 && NewRows(groups, samples, h, cutoff, interval)
    ensures forall i :: 0 <= i < |groups| ==>
              groups[i].row.host == h.host && DueInBucket(samples, h.host, groups[i].row.ts, cutoff, interval) != {}
    ensures forall i, j :: 0 <= i < |groups| && 0 <= j < |groups| && groups[i].row.ts == groups[j].row.ts ==> i == j
  {
    forall i | 0 <= i < |groups|
      ensures groups[i].row.host == h.host && DueInBucket(samples, h.host, groups[i].row.ts, cutoff, interval) != {}
    {
      BucketHasDue(groups[i], samples, h, cutoff, interval);
    }
  }

  lemma RowIdsGrow(pre: Db, post: Db, groups: seq<Absorption>, host: nat, b: int)
    requires post.created == pre.created + groups
    requires forall i, j :: 0 <= i < |groups| && 0 <= j < |groups| && groups[i].row.ts == groups[j].row.ts ==> i == j
    ensures (forall i :: 0 <= i < |groups| ==> groups[i].row.host != host || groups[i].row.ts != b)
            ==> RowIds(post, host, b) == RowIds(pre, host, b)
    ensures |RowIds(post, host, b)| <= |RowIds(pre, host, b)| + 1
  {
    if i :| 0 <= i < |groups| && groups[i].row.host == host && groups[i].row.ts == b {
      var n := |pre.created| + i;
      assert post.created[n] == groups[i];
      assert RowIds(post, host, b) == RowIds(pre, host, b) + {n};
    } else {
      assert RowIds(post, host, b) == RowIds(pre, host, b);
    }
  }

  /** A host step adds at most one row to a bucket, and none without a due sample in it. */
  lemma HostStepRowGrowth(pre: Db, post: Db, h: HostKey, cutoff: int, interval: int, o: Outcome, host: nat, b: int)
    requires interval > 0 && HostStep(pre, post, h, cutoff, interval, o)
    ensures host != h.host || !Inserts(pre, h, cutoff, o) || DueInBucket(pre.samples, host, b, cutoff, interval) == {}
            ==> RowIds(post, host, b) == RowIds(pre, host, b)
    ensures |RowIds(post, host, b)| <= |RowIds(pre, host, b)| + 1
  {
    if Inserts(pre, h, cutoff, o) {
      var groups := post.created[|pre.created|..];
      NewRowBuckets(groups, pre.samples, h, cutoff, interval);
      RowIdsGrow(pre, post, groups, host, b);
    }
  }

  /** What a prefix of a pass has done to a bucket: at most one new row, after which the host has no due sample left. */
  ghost predicate GrownOnce(start: Db, db: Db, p: Plan, host: nat, b: int) {
    && (RowIds(db, host, b) == RowIds(start, host, b)
        || (|RowIds(db, host, b)| <= |RowIds(start, host, b)| + 1 && OldIds(db.samples, host, p.DownsampleCutoff()) == {}))
    && (DueInBucket(start.samples, host, b, p.DownsampleCutoff(), p.Interval()) == {} ==>
          RowIds(db, host, b) == RowIds(start, host, b))
  }

  lemma VisitGrowsOnce(start: Db, pre: Db, post: Db, p: Plan, h: HostKey, host: nat, b: int)
    requires GrownOnce(start, pre, p, host, b) && DeletesSucceed(p)
    requires HostStep(pre, post, h, p.DownsampleCutoff(), p.Interval(), p.outcome(h))
    requires forall id :: id in pre.samples ==> id in start.samples && start.samples[id] == pre.samples[id]
    ensures GrownOnce(start, post, p, host, b)
  {
    HostStepRowGrowth(pre, post, h, p.DownsampleCutoff(), p.Interval(), p.outcome(h), host, b);
    assert DueInBucket(pre.samples, host, b, p.DownsampleCutoff(), p.Interval())
        <= DueInBucket(start.samples, host, b, p.DownsampleCutoff(), p.Interval());
    if OldIds(pre.samples, host, p.DownsampleCutoff()) == {} {
      assert DueInBucket(pre.samples, host, b, p.DownsampleCutoff(), p.Interval()) == {};
      VisitShrinksOld(pre, post, p, h, host);
    } else if RowIds(post, host, b) != RowIds(pre, host, b) {
      assert Inserts(pre, h, p.DownsampleCutoff(), p.outcome(h)) && h.host == host;
      assert OldIds(post.samples, host, p.DownsampleCutoff()) == {};
    }
  }

  lemma VisitShrinksOld(pre: Db, post: Db, p: Plan, h: HostKey, host: nat)
    requires HostStep(pre, post, h, p.DownsampleCutoff(), p.Interval(), p.outcome(h))
    ensures OldIds(post.samples, host, p.DownsampleCutoff()) <= OldIds(pre.samples, host, p.DownsampleCutoff())
  {
  }

  lemma {:induction false} ChainRowGrowth(hosts: seq<HostKey>, chain: seq<Db>, p: Plan, i: nat, host: nat, b: int)
    requires Chain(hosts, chain, p.DownsampleCutoff(), p.Interval(), p.outcome) && DeletesSucceed(p) && i <= |hosts|
    ensures GrownOnce(chain[0], chain[i], p, host, b)
  {
    if i > 0 {
      ChainRowGrowth(hosts, chain, p, i - 1, host, b);
      ChainShrinks(hosts, chain, p, 0, i - 1);
      assert VisitAt(hosts, chain, i - 1, p.DownsampleCutoff(), p.Interval(), p.outcome);
      VisitGrowsOnce(chain[0], chain[i - 1], chain[i], p, hosts[i - 1], host, b);
    }
  }

  /** The raw samples of a bucket. */
  ghost function RawInBucket(db: Db, host: nat, b: int, interval: int): set<nat>
    requires interval > 0
  {
    set id | id in db.samples && db.samples[id].host == host && Truncate(db.samples[id].ts, interval) == b
  }

  /** Whatever else fails in it, a cleanup whose deletes work adds a row to a bucket at most once, and then takes what was due. */
  lemma CleanupRowGrowth(pre: Db, post: Db, p: Plan, host: nat, b: int)
    requires CleanupStep(pre, post, p) && DeletesSucceed(p)
    ensures GrownOnce(pre, post, p, host, b)
    ensures RawInBucket(post, host, b, p.Interval()) <= RawInBucket(pre, host, b, p.Interval())
  {
    var mid :|
      && (if p.listOk then Downsampled(pre, mid, p.DownsampleCutoff(), p.Interval(), p.outcome) else mid == pre)
      && post == AfterRetention(mid, p);
    if p.listOk {
      var hosts, chain :|
        Chain(hosts, chain, p.DownsampleCutoff(), p.Interval(), p.outcome) && Visits(pre, hosts, p.DownsampleCutoff())
        && chain[0] == pre && chain[|hosts|] == mid;
      ChainRowGrowth(hosts, chain, p, |hosts|, host, b);
      ChainShrinks(hosts, chain, p, 0, |hosts|);
    }
    RetentionKeepsGrown(pre, mid, p, host, b);
  }

  lemma RetentionKeepsGrown(start: Db, mid: Db, p: Plan, host: nat, b: int)
    requires GrownOnce(start, mid, p, host, b)
    ensures GrownOnce(start, AfterRetention(mid, p), p, host, b)
  {
    var post := AfterRetention(mid, p);
    assert RowIds(post, host, b) == RowIds(mid, host, b);
    assert OldIds(post.samples, host, p.DownsampleCutoff()) <= OldIds(mid.samples, host, p.DownsampleCutoff());
  }

  datatype Cutoff = Never | At(time: int)

  function NextCutoff(last: Cutoff, op: Op): Cutoff {
    if op.Cleanup? then At(op.plan.DownsampleCutoff()) else last
  }

  /** The downsampling cutoff of the latest cleanup among the first `i` operations. */
  ghost function LastCutoff(ops: seq<Op>, i: nat): Cutoff
    requires i <= |ops|
  {
    if i == 0 then Never else NextCutoff(LastCutoff(ops, i - 1), ops[i - 1])
  }

  /**
   * Samples are never older than the last cutoff when stored, every cleanup has the same bucket width and
   * no delete that fails after its insert, and consecutive cutoffs are at least one bucket width apart.
   * Listings, reads, inserts and the final deletes may fail.
   */
  ghost predicate PacedOp(op: Op, last: Cutoff, interval: int) {
    if op.Store? then last.At? ==> op.sample.ts >= last.time
    else
      && DeletesSucceed(op.plan) && op.plan.Interval() == interval
      && (last.At? ==> op.plan.DownsampleCutoff() >= last.time + interval)
  }

  ghost predicate Paced(ops: seq<Op>, interval: int) {
    interval > 0 && forall j: nat :: j < |ops| ==> PacedAt(ops, j, interval)
  }

  ghost predicate PacedAt(ops: seq<Op>, j: nat, interval: int)
    requires j < |ops|
  {
    PacedOp(ops[j], LastCutoff(ops, j), interval)
  }

  /** How many rows a bucket starting at `b` can have once `c` is the last cutoff. */
  function RowBound(c: Cutoff, b: int, interval: int): nat {
    if c == Never || c.time <= b then 0 else if c.time < b + interval then 1 else 2
  }

  /** What `RowsBounded` keeps: the row bound, and no raw sample left in a bucket that has got two. */
  ghost predicate Bounded(db: Db, c: Cutoff, interval: int, host: nat, b: int) {
    && interval > 0 && |RowIds(db, host, b)| <= RowBound(c, b, interval)
    && (|RowIds(db, host, b)| >= 2 ==> RawInBucket(db, host, b, interval) == {})
  }

  lemma DueIsRaw(db: Db, p: Plan, host: nat, b: int)
    ensures DueInBucket(db.samples, host, b, p.DownsampleCutoff(), p.Interval()) <= RawInBucket(db, host, b, p.Interval())
    ensures p.DownsampleCutoff() <= b ==> DueInBucket(db.samples, host, b, p.DownsampleCutoff(), p.Interval()) == {}
    ensures p.DownsampleCutoff() >= b + p.Interval() && OldIds(db.samples, host, p.DownsampleCutoff()) == {} ==>
              RawInBucket(db, host, b, p.Interval()) == {}
  {
  }

  lemma CleanupKeepsBounded(pre: Db, post: Db, p: Plan, last: Cutoff, host: nat, b: int)
    requires CleanupStep(pre, post, p) && DeletesSucceed(p) && Bounded(pre, last, p.Interval(), host, b)
    requires last.At? ==> p.DownsampleCutoff() >= last.time + p.Interval()
    ensures Bounded(post, At(p.DownsampleCutoff()), p.Interval(), host, b)
  {
    CleanupRowGrowth(pre, post, p, host, b);
    DueIsRaw(pre, p, host, b);
    DueIsRaw(post, p, host, b);
  }

  /** A sample stored after the last cutoff does not fall into a bucket that the cutoff has passed. */
  lemma StoreOutsideBucket(pre: Db, op: Op, post: Db, last: Cutoff, interval: int, host: nat, b: int)
    requires op.Store? && OpStep(pre, op, post) && interval > 0 && PacedOp(op, last, interval)
    ensures last.At? && last.time >= b + interval ==> RawInBucket(post, host, b, interval) <= RawInBucket(pre, host, b, interval)
  {
  }

  lemma OpKeepsBounded(pre: Db, op: Op, post: Db, last: Cutoff, interval: int, host: nat, b: int)
    requires OpStep(pre, op, post) && Bounded(pre, last, interval, host, b) && PacedOp(op, last, interval)
    ensures Bounded(post, NextCutoff(last, op), interval, host, b)
  {
    if op.Store? {
      assert RowIds(post, host, b) == RowIds(pre, host, b);
      StoreOutsideBucket(pre, op, post, last, interval, host, b);
    } else {
      CleanupKeepsBounded(pre, post, op.plan, last, host, b);
    }
  }

  ghost predicate BoundedAt(states: seq<Db>, ops: seq<Op>, i: nat, interval: int, host: nat, b: int)
    requires i < |states| && i <= |ops|
  {
    Bounded(states[i], LastCutoff(ops, i), interval, host, b)
  }

  lemma StartBounded(states: seq<Db>, ops: seq<Op>, interval: int, host: nat, b: int)
    requires interval > 0 && |states| > 0 && states[0] == EmptyDb
    ensures BoundedAt(states, ops, 0, interval, host, b)
  {
    assert RowIds(states[0], host, b) == {};
  }

  lemma StepKeepsBounded(states: seq<Db>, ops: seq<Op>, i: nat, interval: int, host: nat, b: int)
    requires History(states, ops) && i < |ops| && Paced(ops, interval)
    requires BoundedAt(states, ops, i, interval, host, b)
    ensures BoundedAt(states, ops, i + 1, interval, host, b)
  {
    assert PacedAt(ops, i, interval) && StepAt(states, ops, i);
    OpKeepsBounded(states[i], ops[i], states[i + 1], LastCutoff(ops, i), interval, host, b);
  }

  lemma {:induction false} RowsBounded(states: seq<Db>, ops: seq<Op>, i: nat, interval: int, host: nat, b: int)
    requires History(states, ops) && i < |states| && Paced(ops, interval)
    ensures BoundedAt(states, ops, i, interval, host, b)
  {
    if i == 0 {
      StartBounded(states, ops, interval, host, b);
    } else {
      RowsBounded(states, ops, i - 1, interval, host, b);
      StepKeepsBounded(states, ops, i - 1, interval, host, b);
    }
  }

  /** Over any paced history, a (host, bucket) pair gets at most two rows. */
  lemma AtMostTwoRows(states: seq<Db>, ops: seq<Op>, i: nat, interval: int, host: nat, b: int)
    requires History(states, ops) && i < |states| && Paced(ops, interval)
    ensures |RowIds(states[i], host, b)| <= 2
  {
    RowsBounded(states, ops, i, interval, host, b);
  }
}
