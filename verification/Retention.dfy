/**
 * Downsampling and retention: server/controllers/retention.go over the two tables it touches.
 * Times are milliseconds since the zero time; float columns are reals; uint64 sums wrap.
 */
module Retention {
  const MINUTE: int := 60_000
  const DAY: int := 86_400_000
  const U64: nat := 0x1_0000_0000_0000_0000

  datatype Sample = Sample(
    tenant: nat, host: nat, ts: int,
    cpu: real, memPct: real, memUsed: nat, memTotal: nat,
    load1: real, load5: real, load15: real, process: int)

  datatype Row = Row(
    tenant: nat, host: nat, ts: int,
    cpu: real, memPct: real, memUsed: nat, memTotal: nat,
    load1: real, load5: real, load15: real, process: int)

  /** bucketValue */
  datatype Sums = Sums(
    cpu: real, memPct: real, memUsed: nat, memTotal: nat,
    load1: real, load5: real, load15: real, count: nat, process: int)

  datatype HostKey = HostKey(host: nat, tenant: nat)
  datatype BucketKey = BucketKey(tenant: nat, host: nat, bucket: int)

  /** Which of a host's three statements succeed. */
  datatype Outcome = Outcome(readOk: bool, insertOk: bool, deleteOk: bool)

  /** A row ever inserted, with the samples it was computed from and the bucket width used. */
  datatype Absorption = Absorption(row: Row, members: seq<nat>, interval: int)

  /**
   * The tables together with their history: `stored` is every sample ever inserted, `created` every
   * row ever inserted (a row's id is its position), `dropped` the samples the raw-retention delete removed.
   */
  datatype Db = Db(
    samples: map<nat, Sample>, rows: map<nat, Row>,
    stored: map<nat, Sample>, created: seq<Absorption>, dropped: set<nat>)

  /** time.Truncate: the last multiple of the interval at or before the time. */
  function Truncate(ts: int, interval: int): (t: int)
    requires interval > 0
    ensures t % interval == 0 && t <= ts < t + interval
  {
    TruncateAligned(ts, interval);
    ts - ts % interval
  }

  lemma TruncateAligned(ts: int, interval: int)
    requires interval > 0
    ensures (ts - ts % interval) % interval == 0
  {
    var q := ts / interval;
    assert ts - ts % interval == q * interval;
    MultipleHasNoRest(q, interval);
  }

  lemma MultipleHasNoRest(q: int, n: int)
    requires n > 0
    ensures (q * n) % n == 0
  {
    var r := (q * n) % n;
    assert q * n == ((q * n) / n) * n + r;
    assert (q - (q * n) / n) * n == r;
    MultiplesApart(q - (q * n) / n, n);
  }

  lemma MultiplesApart(d: int, n: int)
    requires n > 0
    ensures d >= 1 ==> d * n >= n
    ensures d <= -1 ==> d * n <= -n
  {
  }

  const NoSums: Sums := Sums(0.0, 0.0, 0, 0, 0.0, 0.0, 0.0, 0, 0)

  function Add(v: Sums, s: Sample): Sums {
    Sums(v.cpu + s.cpu, v.memPct + s.memPct, (v.memUsed + s.memUsed) % U64, (v.memTotal + s.memTotal) % U64,
         v.load1 + s.load1, v.load5 + s.load5, v.load15 + s.load15, v.count + 1,
         if s.process > v.process then s.process else v.process)
  }

  ghost predicate AllIn(ids: seq<nat>, samples: map<nat, Sample>) {
    forall i :: 0 <= i < |ids| ==> ids[i] in samples
  }

  ghost predicate NoDuplicates(ids: seq<nat>) {
    forall i, j :: 0 <= i < j < |ids| ==> ids[i] != ids[j]
  }

  ghost function Fold(samples: map<nat, Sample>, ids: seq<nat>): Sums
    requires AllIn(ids, samples)
  {
    if ids == [] then NoSums else Add(Fold(samples, ids[..|ids| - 1]), samples[ids[|ids| - 1]])
  }

  function MakeRow(k: BucketKey, v: Sums): Row
    requires v.count > 0
  {
    var n := v.count as real;
    Row(k.tenant, k.host, k.bucket, v.cpu / n, v.memPct / n, v.memUsed / v.count, v.memTotal / v.count,
        v.load1 / n, v.load5 / n, v.load15 / n, v.process)
  }

  /** The ids of a list that fall into bucket `b`, in order. */
  ghost function Pick(samples: map<nat, Sample>, ids: seq<nat>, interval: int, b: int): (picked: seq<nat>)
    requires AllIn(ids, samples) && interval > 0
    ensures AllIn(picked, samples)
  {
    if ids == [] then []
    else
      var rest := Pick(samples, ids[..|ids| - 1], interval, b);
      var last := ids[|ids| - 1];
      if Truncate(samples[last].ts, interval) == b then rest + [last] else rest
  }

  lemma {:induction false} PickMembers(samples: map<nat, Sample>, ids: seq<nat>, interval: int, b: int)
    requires AllIn(ids, samples) && interval > 0
    ensures forall id :: id in Pick(samples, ids, interval, b) <==>
              id in ids && Truncate(samples[id].ts, interval) == b
    ensures NoDuplicates(ids) ==> NoDuplicates(Pick(samples, ids, interval, b))
  {
    if ids != [] {
      var init := ids[..|ids| - 1];
      PickMembers(samples, init, interval, b);
      assert ids == init + [ids[|ids| - 1]];
      if NoDuplicates(ids) {
        assert ids[|ids| - 1] !in init;
        assert ids[|ids| - 1] !in Pick(samples, init, interval, b);
      }
    }
  }

  /** The buckets are those of the listed samples, each holding the fold over its samples in order. */
  ghost predicate IsGrouping(buckets: map<BucketKey, Sums>, samples: map<nat, Sample>, ids: seq<nat>, h: HostKey, interval: int)
    requires AllIn(ids, samples) && interval > 0
  {
    && (forall k :: k in buckets <==> k.tenant == h.tenant && k.host == h.host && Pick(samples, ids, interval, k.bucket) != [])
    && (forall k :: k in buckets ==> buckets[k] == Fold(samples, Pick(samples, ids, interval, k.bucket)))
  }

  lemma PickOneMore(samples: map<nat, Sample>, ids: seq<nat>, id: nat, interval: int, b: int)
    requires AllIn(ids + [id], samples) && AllIn(ids, samples) && interval > 0 && id in samples
    ensures var before, after := Pick(samples, ids, interval, b), Pick(samples, ids + [id], interval, b);
            if Truncate(samples[id].ts, interval) == b
            then after == before + [id] && Fold(samples, after) == Add(Fold(samples, before), samples[id])
            else after == before
  {
    assert (ids + [id])[..|ids|] == ids;
    var before := Pick(samples, ids, interval, b);
    assert (before + [id])[..|before|] == before;
  }

  lemma GroupOneMore(buckets: map<BucketKey, Sums>, samples: map<nat, Sample>, ids: seq<nat>, id: nat, h: HostKey, interval: int)
    requires AllIn(ids, samples) && interval > 0 && id in samples && IsGrouping(buckets, samples, ids, h, interval)
    ensures AllIn(ids + [id], samples)
    ensures var k := BucketKey(h.tenant, h.host, Truncate(samples[id].ts, interval));
            var v := if k in buckets then buckets[k] else NoSums;
            IsGrouping(buckets[k := Add(v, samples[id])], samples, ids + [id], h, interval)
  {
    forall b
      ensures var before, after := Pick(samples, ids, interval, b), Pick(samples, ids + [id], interval, b);
              if Truncate(samples[id].ts, interval) == b
              then after == before + [id] && Fold(samples, after) == Add(Fold(samples, before), samples[id])
              else after == before
    {
      PickOneMore(samples, ids, id, interval, b);
    }
  }

  lemma {:induction false} FoldCount(samples: map<nat, Sample>, ids: seq<nat>)
    requires AllIn(ids, samples)
    ensures Fold(samples, ids).count == |ids|
  {
    if ids != [] { FoldCount(samples, ids[..|ids| - 1]); }
  }

  /** The raw samples a downsampling pass with this cutoff takes from a host, whatever their tenant. */
  function OldIds(samples: map<nat, Sample>, host: nat, cutoff: int): set<nat> {
    set id | id in samples && samples[id].host == host && samples[id].ts < cutoff
  }

  function OldHosts(samples: map<nat, Sample>, cutoff: int): set<HostKey> {
    set id | id in samples && samples[id].ts < cutoff :: HostKey(samples[id].host, samples[id].tenant)
  }

  /** `ids` lists exactly the host's old samples. */
  ghost predicate Lists(ids: seq<nat>, samples: map<nat, Sample>, host: nat, cutoff: int) {
    NoDuplicates(ids) && AllIn(ids, samples) && forall id :: id in ids <==> id in OldIds(samples, host, cutoff)
  }

  /** While listing: what is listed is in order of time, and nothing left to list is earlier. */
  ghost predicate Listing(ids: seq<nat>, todo: set<nat>, samples: map<nat, Sample>, due: set<nat>) {
    && todo <= due <= samples.Keys && NoDuplicates(ids)
    && (forall id :: id in ids <==> id in due - todo)
    && InOrder(ids, samples)
    && (forall i, id :: 0 <= i < |ids| && id in todo ==> samples[ids[i]].ts <= samples[id].ts)
  }

  ghost predicate InOrder(ids: seq<nat>, samples: map<nat, Sample>) {
    AllIn(ids, samples) && forall i, j :: 0 <= i < j < |ids| ==> samples[ids[i]].ts <= samples[ids[j]].ts
  }

  lemma ListEarliest(ids: seq<nat>, todo: set<nat>, samples: map<nat, Sample>, due: set<nat>, first: nat)
    requires Listing(ids, todo, samples, due) && first in todo
    requires forall id :: id in todo ==> samples[first].ts <= samples[id].ts
    ensures Listing(ids + [first], todo - {first}, samples, due)
  {
    assert first !in ids;
  }

  // ---------------------------------------------------------------- what one host's pass does

  /** `a` is the row of one bucket of the host's old samples: all of them, each once. */
  ghost predicate IsBucketOf(a: Absorption, samples: map<nat, Sample>, h: HostKey, cutoff: int, interval: int)
    requires interval > 0
  {
    && a.interval == interval
    && a.members != [] && NoDuplicates(a.members) && AllIn(a.members, samples)
    && (forall id :: id in a.members <==>
         id in OldIds(samples, h.host, cutoff) && Truncate(samples[id].ts, interval) == a.row.ts)
    && Fold(samples, a.members).count > 0
    && a.row == MakeRow(BucketKey(h.tenant, h.host, a.row.ts), Fold(samples, a.members))
  }

  /** The inserted rows are one per bucket of the host's old samples. */
  ghost predicate NewRows(groups: seq<Absorption>, samples: map<nat, Sample>, h: HostKey, cutoff: int, interval: int)
    requires interval > 0
  {
    && (forall i :: 0 <= i < |groups| ==> IsBucketOf(groups[i], samples, h, cutoff, interval))
    && (forall i, j :: 0 <= i < j < |groups| ==> groups[i].row.ts != groups[j].row.ts)
    && (forall id :: id in OldIds(samples, h.host, cutoff) ==>
         exists i :: 0 <= i < |groups| && id in groups[i].members)
  }

  /** A batch insert with consecutive ids. */
  function Inserted(rows: map<nat, Row>, from: nat, batch: seq<Row>): (m: map<nat, Row>)
    ensures forall r :: r in m <==> r in rows || from <= r < from + |batch|
    ensures forall r :: r in m ==> m[r] == if from <= r < from + |batch| then batch[r - from] else rows[r]
  {
    if batch == [] then rows
    else Inserted(rows, from, batch[..|batch| - 1])[from + |batch| - 1 := batch[|batch| - 1]]
  }

  ghost function RowsOf(groups: seq<Absorption>): seq<Row> {
    seq(|groups|, i requires 0 <= i < |groups| => groups[i].row)
  }

  ghost predicate Inserts(pre: Db, h: HostKey, cutoff: int, o: Outcome) {
    o.readOk && o.insertOk && OldIds(pre.samples, h.host, cutoff) != {}
  }

  ghost function AfterHost(pre: Db, h: HostKey, cutoff: int, o: Outcome, groups: seq<Absorption>): Db {
    pre.(samples := if o.deleteOk then pre.samples - OldIds(pre.samples, h.host, cutoff) else pre.samples,
         rows := Inserted(pre.rows, |pre.created|, RowsOf(groups)),
         created := pre.created + groups)
  }

  ghost predicate HostStep(pre: Db, post: Db, h: HostKey, cutoff: int, interval: int, o: Outcome)
    requires interval > 0
  {
    if !Inserts(pre, h, cutoff, o) then post == pre
    else
      && |pre.created| <= |post.created|
      && var groups := post.created[|pre.created|..];
         NewRows(groups, pre.samples, h, cutoff, interval) && post == AfterHost(pre, h, cutoff, o, groups)
  }

  lemma HostStepBy(pre: Db, h: HostKey, cutoff: int, interval: int, o: Outcome, groups: seq<Absorption>)
    requires interval > 0 && Inserts(pre, h, cutoff, o) && NewRows(groups, pre.samples, h, cutoff, interval)
    ensures HostStep(pre, AfterHost(pre, h, cutoff, o, groups), h, cutoff, interval, o)
  {
    assert (pre.created + groups)[|pre.created|..] == groups;
  }

  lemma ListsNothingIff(ids: seq<nat>, samples: map<nat, Sample>, host: nat, cutoff: int)
    requires Lists(ids, samples, host, cutoff)
    ensures ids == [] <==> OldIds(samples, host, cutoff) == {}
  {
    if ids != [] {
      assert ids[0] in OldIds(samples, host, cutoff);
    } else {
      assert forall id :: id in OldIds(samples, host, cutoff) ==> id in ids;
    }
  }

  /** A whole downsampling pass: one host step after another, in any order of the distinct pairs. */
  ghost predicate Chain(hosts: seq<HostKey>, chain: seq<Db>, cutoff: int, interval: int, outcome: HostKey -> Outcome)
    requires interval > 0
  {
    && |chain| == |hosts| + 1
    && forall i: nat :: i < |hosts| ==> VisitAt(hosts, chain, i, cutoff, interval, outcome)
  }

  ghost predicate VisitAt(hosts: seq<HostKey>, chain: seq<Db>, i: nat, cutoff: int, interval: int, outcome: HostKey -> Outcome)
    requires interval > 0 && i < |hosts| && |chain| == |hosts| + 1
  {
    HostStep(chain[i], chain[i + 1], hosts[i], cutoff, interval, outcome(hosts[i]))
  }

  lemma ChainGrows(hosts: seq<HostKey>, chain: seq<Db>, cutoff: int, interval: int, outcome: HostKey -> Outcome, h: HostKey, post: Db)
    requires interval > 0 && Chain(hosts, chain, cutoff, interval, outcome)
    requires HostStep(chain[|hosts|], post, h, cutoff, interval, outcome(h))
    ensures Chain(hosts + [h], chain + [post], cutoff, interval, outcome)
  {
    var more, longer := hosts + [h], chain + [post];
    forall i: nat | i < |more|
      ensures VisitAt(more, longer, i, cutoff, interval, outcome)
    {
      if i < |hosts| {
        assert VisitAt(hosts, chain, i, cutoff, interval, outcome);
        assert more[i] == hosts[i] && longer[i] == chain[i] && longer[i + 1] == chain[i + 1];
      } else {
        assert more[i] == h && longer[i] == chain[i] && longer[i + 1] == post;
      }
    }
  }

  ghost predicate Visits(pre: Db, hosts: seq<HostKey>, cutoff: int) {
    && (forall h :: h in hosts <==> h in OldHosts(pre.samples, cutoff))
    && (forall i, j :: 0 <= i < j < |hosts| ==> hosts[i] != hosts[j])
  }

  ghost predicate Downsampled(pre: Db, post: Db, cutoff: int, interval: int, outcome: HostKey -> Outcome)
    requires interval > 0
  {
    exists hosts, chain ::
      Chain(hosts, chain, cutoff, interval, outcome) && Visits(pre, hosts, cutoff)
      && chain[0] == pre && chain[|hosts|] == post
  }

  function WithoutOldRaw(db: Db, before: int): Db {
    db.(samples := map id | id in db.samples && db.samples[id].ts >= before :: db.samples[id],
        dropped := db.dropped + set id | id in db.samples && db.samples[id].ts < before)
  }

  function WithoutOldRows(db: Db, before: int): Db {
    db.(rows := map r | r in db.rows && db.rows[r].ts >= before :: db.rows[r])
  }

  datatype Config = Config(rawRetentionDays: int, downsampleAtDays: int, intervalMin: int)

  function OrDefault(v: int, d: int): int {
    if v <= 0 then d else v
  }

  /** One tick of the cleanup job: its configuration, the two clock readings, and what fails. */
  datatype Plan = Plan(config: Config, now1: int, now2: int, listOk: bool, outcome: HostKey -> Outcome,
                       rawDeleteOk: bool, rowDeleteOk: bool)
  {
    function Interval(): (ms: int)
      ensures ms > 0
    {
      OrDefault(config.intervalMin, 5) * MINUTE
    }
    function RawCutoff(): int { now1 - OrDefault(config.rawRetentionDays, 90) * DAY }
    function DownsampleCutoff(): int { now2 - OrDefault(config.downsampleAtDays, 7) * DAY }
  }

  /** The cutoffs in days before each clock reading, 90 and 7 unless configured, and buckets of 5 minutes unless configured. */
  lemma ConfiguredTimes(p: Plan)
    ensures p.RawCutoff() == p.now1 - 86_400_000 * (if p.config.rawRetentionDays > 0 then p.config.rawRetentionDays else 90)
    ensures p.DownsampleCutoff() == p.now2 - 86_400_000 * (if p.config.downsampleAtDays > 0 then p.config.downsampleAtDays else 7)
    ensures p.Interval() == 60_000 * (if p.config.intervalMin > 0 then p.config.intervalMin else 5)
  {
  }

  ghost predicate CleanupStep(pre: Db, post: Db, p: Plan) {
    exists mid: Db ::
      && (if p.listOk then Downsampled(pre, mid, p.DownsampleCutoff(), p.Interval(), p.outcome) else mid == pre)
      && post == AfterRetention(mid, p)
  }

  lemma CleanupStepBy(pre: Db, mid: Db, p: Plan)
    requires if p.listOk then Downsampled(pre, mid, p.DownsampleCutoff(), p.Interval(), p.outcome) else mid == pre
    ensures CleanupStep(pre, AfterRetention(mid, p), p)
  {
  }

  function AfterRetention(mid: Db, p: Plan): Db {
    WithoutExpired(mid, p.RawCutoff(), p.rawDeleteOk, p.rowDeleteOk)
  }

  function WithoutExpired(db: Db, before: int, rawDeleteOk: bool, rowDeleteOk: bool): Db {
    var a := if rawDeleteOk then WithoutOldRaw(db, before) else db;
    if rowDeleteOk then WithoutOldRows(a, before) else a
  }

  ghost predicate HasGroup(groups: seq<Absorption>, b: int) {
    exists i :: 0 <= i < |groups| && groups[i].row.ts == b
  }

  /** One group for each of the keys done so far, and no other. */
  ghost predicate Grouped(groups: seq<Absorption>, done: set<BucketKey>, samples: map<nat, Sample>,
                          h: HostKey, cutoff: int, interval: int)
    requires interval > 0
  {
    && (forall i :: 0 <= i < |groups| ==> IsBucketOf(groups[i], samples, h, cutoff, interval))
    && (forall i :: 0 <= i < |groups| ==> BucketKey(h.tenant, h.host, groups[i].row.ts) in done)
    && (forall i, j :: 0 <= i < j < |groups| ==> groups[i].row.ts != groups[j].row.ts)
    && (forall k :: k in done ==> HasGroup(groups, k.bucket))
  }

  lemma GroupedGrows(groups: seq<Absorption>, done: set<BucketKey>, k: BucketKey, g: Absorption,
                     samples: map<nat, Sample>, h: HostKey, cutoff: int, interval: int)
    requires interval > 0 && Grouped(groups, done, samples, h, cutoff, interval)
    requires k !in done && k == BucketKey(h.tenant, h.host, g.row.ts) && IsBucketOf(g, samples, h, cutoff, interval)
    ensures Grouped(groups + [g], done + {k}, samples, h, cutoff, interval)
  {
    var more := groups + [g];
    assert more[|groups|] == g;
    forall b | HasGroup(groups, b)
      ensures HasGroup(more, b)
    {
      var i :| 0 <= i < |groups| && groups[i].row.ts == b;
      assert more[i] == groups[i];
    }
  }

  /** The picked samples of a non-empty bucket make exactly that bucket's row. */
  lemma PickIsBucket(samples: map<nat, Sample>, ids: seq<nat>, h: HostKey, cutoff: int, interval: int, k: BucketKey)
    requires interval > 0 && Lists(ids, samples, h.host, cutoff)
    requires k.tenant == h.tenant && k.host == h.host && Pick(samples, ids, interval, k.bucket) != []
    ensures Fold(samples, Pick(samples, ids, interval, k.bucket)).count > 0
    ensures var members := Pick(samples, ids, interval, k.bucket);
            IsBucketOf(Absorption(MakeRow(k, Fold(samples, members)), members, interval), samples, h, cutoff, interval)
  {
    PickMembers(samples, ids, interval, k.bucket);
    FoldCount(samples, Pick(samples, ids, interval, k.bucket));
  }

  lemma GroupNext(buckets: map<BucketKey, Sums>, samples: map<nat, Sample>, ids: seq<nat>, groups: seq<Absorption>,
                  done: set<BucketKey>, k: BucketKey, h: HostKey, cutoff: int, interval: int)
    requires interval > 0 && Lists(ids, samples, h.host, cutoff) && IsGrouping(buckets, samples, ids, h, interval)
    requires Grouped(groups, done, samples, h, cutoff, interval) && k in buckets && k !in done
    ensures buckets[k].count > 0
    ensures var g := Absorption(MakeRow(k, buckets[k]), Pick(samples, ids, interval, k.bucket), interval);
            RowsOf(groups + [g]) == RowsOf(groups) + [g.row]
            && Grouped(groups + [g], done + {k}, samples, h, cutoff, interval)
  {
    PickIsBucket(samples, ids, h, cutoff, interval, k);
    var g := Absorption(MakeRow(k, buckets[k]), Pick(samples, ids, interval, k.bucket), interval);
    GroupedGrows(groups, done, k, g, samples, h, cutoff, interval);
  }

  /** With a group for every bucket key, no old sample is left out. */
  lemma GroupsCover(samples: map<nat, Sample>, ids: seq<nat>, h: HostKey, cutoff: int, interval: int,
                    groups: seq<Absorption>, keys: set<BucketKey>)
    requires interval > 0 && Lists(ids, samples, h.host, cutoff)
    requires forall k :: k in keys <==>
               k.tenant == h.tenant && k.host == h.host && Pick(samples, ids, interval, k.bucket) != []
    requires Grouped(groups, keys, samples, h, cutoff, interval)
    ensures forall id :: id in OldIds(samples, h.host, cutoff) ==>
              exists i :: 0 <= i < |groups| && id in groups[i].members
  {
    forall id | id in OldIds(samples, h.host, cutoff)
      ensures exists i :: 0 <= i < |groups| && id in groups[i].members
    {
      var k := BucketKey(h.tenant, h.host, Truncate(samples[id].ts, interval));
      PickMembers(samples, ids, interval, k.bucket);
      assert k in keys && HasGroup(groups, k.bucket);
    }
  }

  // ---------------------------------------------------------------- the code

  class Store {
    var samples: map<nat, Sample>
    var rows: map<nat, Row>
    var nextRow: nat
    ghost var stored: map<nat, Sample>
    ghost var created: seq<Absorption>
    ghost var dropped: set<nat>

    ghost function Value(): Db
      reads this
    {
      Db(samples, rows, stored, created, dropped)
    }

    ghost predicate Valid()
      reads this
    {
      nextRow == |created|
    }

    constructor ()
      ensures Valid() && Value() == Db(map[], map[], map[], [], {})
    {
      samples, rows, nextRow, stored, created, dropped := map[], map[], 0, map[], [], {};
    }

    /** ORDER BY timestamp ASC over one host's old samples. */
    method ReadOldSamples(host: nat, cutoff: int) returns (ids: seq<nat>)
      ensures Lists(ids, samples, host, cutoff) && InOrder(ids, samples)
    {
      ids := [];
      var todo := OldIds(samples, host, cutoff);
      ghost var due := todo;
      while todo != {}
        invariant Listing(ids, todo, samples, due)
        decreases |todo|
      {
        ghost var w := EarliestExists(samples, todo);
        var first :| first in todo && forall id :: id in todo ==> samples[first].ts <= samples[id].ts;
        ListEarliest(ids, todo, samples, due, first);
        ids := ids + [first];
        todo := todo - {first};
      }
    }

    /** The loop body for one (host, tenant) pair. */
    method DownsampleHost(h: HostKey, cutoff: int, interval: int, o: Outcome) returns (migrated: nat)
      requires Valid() && interval > 0
      modifies this
      ensures Valid() && HostStep(old(Value()), Value(), h, cutoff, interval, o)
      ensures migrated == nextRow - old(nextRow)
    {
      if !o.readOk {
        return 0;
      }
      var ids := ReadOldSamples(h.host, cutoff);
      ListsNothingIff(ids, samples, h.host, cutoff);
      if |ids| == 0 {
        return 0;
      }
      var buckets := GroupByBucket(h, ids, interval);
      ghost var groups;
      var downsamples: seq<Row>;
      downsamples, groups := BuildRows(h, ids, interval, buckets, cutoff);
      if !o.insertOk {
        return 0;
      }
      HostStepBy(Value(), h, cutoff, interval, o, groups);
      rows := Inserted(rows, nextRow, downsamples);
      created := created + groups;
      nextRow := nextRow + |downsamples|;
      migrated := |downsamples|;
      if o.deleteOk {
        samples := samples - OldIds(samples, h.host, cutoff);
      }
      assert Value() == AfterHost(old(Value()), h, cutoff, o, groups);
    }

    /** The group-by loop: every bucket's accumulator is the fold over the samples seen in it. */
    method GroupByBucket(h: HostKey, ids: seq<nat>, interval: int) returns (buckets: map<BucketKey, Sums>)
      requires interval > 0 && AllIn(ids, samples)
      ensures IsGrouping(buckets, samples, ids, h, interval)
    {
      buckets := map[];
      for i := 0 to |ids|
        invariant IsGrouping(buckets, samples, ids[..i], h, interval)
      {
        GroupOneMore(buckets, samples, ids[..i], ids[i], h, interval);
        assert ids[..i + 1] == ids[..i] + [ids[i]];
        var s := samples[ids[i]];
        var k := BucketKey(h.tenant, h.host, Truncate(s.ts, interval));
        var v := if k in buckets then buckets[k] else NoSums;
        buckets := buckets[k := Add(v, s)];
      }
      assert ids[..|ids|] == ids;
    }

    /** One row per bucket, in no particular order. */
    method BuildRows(h: HostKey, ids: seq<nat>, interval: int, buckets: map<BucketKey, Sums>, ghost cutoff: int)
        returns (downsamples: seq<Row>, ghost groups: seq<Absorption>)
      requires interval > 0 && Lists(ids, samples, h.host, cutoff) && IsGrouping(buckets, samples, ids, h, interval)
      ensures downsamples == RowsOf(groups)
      ensures NewRows(groups, samples, h, cutoff, interval)
    {
      downsamples, groups := [], [];
      var todo := buckets.Keys;
      ghost var done: set<BucketKey> := {};
      while todo != {}
        invariant done + todo == buckets.Keys && done !! todo
        invariant downsamples == RowsOf(groups)
        invariant Grouped(groups, done, samples, h, cutoff, interval)
        decreases todo
      {
        var k :| k in todo;
        GroupNext(buckets, samples, ids, groups, done, k, h, cutoff, interval);
        var row := MakeRow(k, buckets[k]);
        ghost var group := Absorption(row, Pick(samples, ids, interval, k.bucket), interval);
        downsamples := downsamples + [row];
        groups := groups + [group];
        todo, done := todo - {k}, done + {k};
      }
      GroupsCover(samples, ids, h, cutoff, interval, groups, done);
    }

    /** downsampleOldSamples: the distinct (host, tenant) pairs are visited in no particular order. */
    method DownsampleOldSamples(cutoff: int, interval: int, listOk: bool, outcome: HostKey -> Outcome)
        returns (migrated: nat, ok: bool)
      requires Valid() && interval > 0
      modifies this
      ensures Valid() && ok == listOk && migrated == nextRow - old(nextRow)
      ensures if listOk then Downsampled(old(Value()), Value(), cutoff, interval, outcome) else Value() == old(Value())
    {
      migrated, ok := 0, listOk;
      if !listOk {
        return;
      }
      var todo := OldHosts(samples, cutoff);
      ghost var hosts: seq<HostKey> := [];
      ghost var chain := [Value()];
      while todo != {}
        invariant Valid() && todo <= OldHosts(old(samples), cutoff)
        invariant forall h :: h in hosts <==> h in OldHosts(old(samples), cutoff) - todo
        invariant forall i, j :: 0 <= i < j < |hosts| ==> hosts[i] != hosts[j]
        invariant Chain(hosts, chain, cutoff, interval, outcome)
        invariant chain[0] == old(Value()) && chain[|hosts|] == Value()
        invariant migrated == nextRow - old(nextRow)
        decreases |todo|
      {
        var h :| h in todo;
        ghost var before := chain;
        assert h !in hosts;
        var n := DownsampleHost(h, cutoff, interval, outcome(h));
        migrated := migrated + n;
        ChainGrows(hosts, before, cutoff, interval, outcome, h, Value());
        hosts := hosts + [h];
        chain := before + [Value()];
        todo := todo - {h};
      }
    }

    method DeleteOldRawSamples(before: int, ok: bool) returns (deleted: nat)
      requires Valid()
      modifies this
      ensures Valid() && Value() == if ok then WithoutOldRaw(old(Value()), before) else old(Value())
      ensures forall id :: id in samples <==> id in old(samples) && !(ok && old(samples)[id].ts < before)
      ensures forall id :: id in samples ==> samples[id] == old(samples)[id]
      ensures deleted == |old(samples)| - |samples|
    {
      deleted := 0;
      if ok {
        var kept := map id | id in samples && samples[id].ts >= before :: samples[id];
        SubmapSize(kept, samples);
        deleted := |samples| - |kept|;
        dropped := dropped + set id | id in samples && samples[id].ts < before;
        samples := kept;
      }
    }

    method DeleteOldDownsampled(before: int, ok: bool) returns (deleted: nat)
      requires Valid()
      modifies this
      ensures Valid() && Value() == if ok then WithoutOldRows(old(Value()), before) else old(Value())
      ensures forall r :: r in rows <==> r in old(rows) && !(ok && old(rows)[r].ts < before)
      ensures forall r :: r in rows ==> rows[r] == old(rows)[r]
      ensures deleted == |old(rows)| - |rows|
    {
      deleted := 0;
      if ok {
        var kept := map r | r in rows && rows[r].ts >= before :: rows[r];
        SubmapSize(kept, rows);
        deleted := |rows| - |kept|;
        rows := kept;
      }
    }

    method RunDownsampleCleanup(p: Plan)
      requires Valid()
      modifies this
      ensures Valid() && CleanupStep(old(Value()), Value(), p)
    {
      var interval := (if p.config.intervalMin <= 0 then 5 else p.config.intervalMin) * MINUTE;
      var downsampleAtDays := if p.config.downsampleAtDays <= 0 then 7 else p.config.downsampleAtDays;
      var rawRetentionDays := if p.config.rawRetentionDays <= 0 then 90 else p.config.rawRetentionDays;
      var cutoffRaw := p.now1 - rawRetentionDays * DAY;
      var cutoffDownsample := p.now2 - downsampleAtDays * DAY;
      assert interval == p.Interval() && cutoffRaw == p.RawCutoff() && cutoffDownsample == p.DownsampleCutoff();
      var _, _ := DownsampleOldSamples(cutoffDownsample, interval, p.listOk, p.outcome);
      ghost var mid := Value();
      CleanupStepBy(old(Value()), mid, p);
      DeleteExpired(cutoffRaw, p.rawDeleteOk, p.rowDeleteOk);
    }

    /** The two deletes at the end of a cleanup, which share one cutoff. */
    method DeleteExpired(before: int, rawDeleteOk: bool, rowDeleteOk: bool)
      requires Valid()
      modifies this
      ensures Valid() && Value() == WithoutExpired(old(Value()), before, rawDeleteOk, rowDeleteOk)
    {
      var _ := DeleteOldRawSamples(before, rawDeleteOk);
      var _ := DeleteOldDownsampled(before, rowDeleteOk);
    }
  }

  lemma SubmapSize<T>(small: map<nat, T>, big: map<nat, T>)
    requires small.Keys <= big.Keys
    ensures |small| <= |big|
  {
    SubsetSize(small.Keys, big.Keys);
    assert |small| == |small.Keys| && |big| == |big.Keys|;
  }

  lemma {:induction false} SubsetSize(a: set<nat>, b: set<nat>)
    requires a <= b
    ensures |a| <= |b|
  {
    if a != {} {
      var x :| x in a;
      SubsetSize(a - {x}, b - {x});
    }
  }

  lemma {:induction false} EarliestExists(samples: map<nat, Sample>, ids: set<nat>) returns (first: nat)
    requires ids != {} && ids <= samples.Keys
    ensures first in ids && forall id :: id in ids ==> samples[first].ts <= samples[id].ts
  {
    first :| first in ids;
    if ids != {first} {
      var rest := EarliestExists(samples, ids - {first});
      if samples[rest].ts < samples[first].ts { first := rest; }
    }
  }
}
