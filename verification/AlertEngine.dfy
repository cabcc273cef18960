/** Alert evaluation with suppression and silencing: server/controllers/alert_engine.go. Times are in milliseconds. */
module AlertEngine {
  import opened HostEvents

  const DEFAULT_WINDOW: int := 30

  datatype Sample = Sample(cpu: real, mem: real, diskUsed: nat, diskTotal: nat)

  /** `text` is the threshold as "%.1f" renders it. */
  datatype Rule = Rule(tenant: nat, enabled: bool, metric: string, operator: string, threshold: real, text: string, level: string)

  datatype Suppression = Suppression(tenant: nat, host: nat, metric: string, level: string, windowMinutes: int, enabled: bool)

  datatype Silence = Silence(host: nat, level: string, endAt: int, deleted: bool)

  /** One call's inputs: the host, its sample, the clock and the three rule tables in id order. */
  datatype Request = Request(tenant: nat, host: nat, sample: Sample, now: int,
                             rules: seq<Rule>, suppressions: seq<Suppression>, silences: seq<Silence>)

  /** Rendered numbers consist of digits, a sign, a point, or spell NaN or Inf. */
  predicate NumberText(text: string) {
    forall c :: c in text ==> '0' <= c <= '9' || c in ".+-NaInf"
  }

  ghost predicate Rendered(q: Request) {
    forall r :: r in q.rules ==> NumberText(r.text)
  }

  function MetricValues(s: Sample): map<string, real> {
    map["cpu" := s.cpu, "mem" := s.mem,
        "disk" := if s.diskTotal > 0 then (s.diskUsed as real) / (s.diskTotal as real) * 100.0 else 0.0]
  }

  predicate MatchOperator(op: string, value: real, threshold: real) {
    if op == "gt" then value > threshold
    else if op == "gte" then value >= threshold
    else if op == "lt" then value < threshold
    else if op == "lte" then value <= threshold
    else false
  }

  /** The rule fires for this sample. */
  predicate Fires(q: Request, r: Rule) {
    && r.tenant == q.tenant && r.enabled
    && r.metric in MetricValues(q.sample)
    && MatchOperator(r.operator, MetricValues(q.sample)[r.metric], r.threshold)
  }

  function Message(r: Rule): string {
    r.metric + " " + r.operator + " " + r.text
  }

  /** The first enabled suppression row for this host (0 for all hosts), if any. */
  function FirstWindow(rows: seq<Suppression>, tenant: nat, host: nat, metric: string, level: string): seq<int> {
    if rows == [] then []
    else if rows[0].tenant == tenant && rows[0].host == host && rows[0].metric == metric && rows[0].level == level && rows[0].enabled
    then [rows[0].windowMinutes]
    else FirstWindow(rows[1..], tenant, host, metric, level)
  }

  /** A host row wins over a global one; without either, and for non-positive values, 30 minutes. */
  function Window(q: Request, metric: string, level: string): (ms: int)
    ensures ms > 0
  {
    var own := FirstWindow(q.suppressions, q.tenant, q.host, metric, level);
    var any := FirstWindow(q.suppressions, q.tenant, 0, metric, level);
    var minutes := if own != [] then own[0] else if any != [] then any[0] else DEFAULT_WINDOW;
    (if minutes <= 0 then DEFAULT_WINDOW else minutes) * MINUTE
  }

  /** An 'alert' row for this host, metric and level. */
  predicate IsAlert(e: HostEvent, host: nat, metric: string, level: string) {
    e.host == host && e.kind == "alert" && Mentions(e.message, metric) && e.level == level
  }

  predicate Suppressed(events: seq<HostEvent>, host: nat, metric: string, level: string, since: int) {
    exists i :: 0 <= i < |events| && IsAlert(events[i], host, metric, level) && events[i].createdAt > since
  }

  predicate Silenced(silences: seq<Silence>, host: nat, level: string, now: int) {
    exists i :: 0 <= i < |silences| && silences[i].endAt > now && !silences[i].deleted
                && (silences[i].host == 0 || silences[i].host == host)
                && (level == "" || silences[i].level == level || silences[i].level == "")
  }

  function NewEvent(events: seq<HostEvent>, q: Request, kind: string, level: string, message: string): HostEvent {
    HostEvent(|events| + 1, q.tenant, q.host, kind, level, message, false, q.now)
  }

  /** The table after one rule. */
  function AfterRule(events: seq<HostEvent>, q: Request, r: Rule): seq<HostEvent> {
    if !Fires(q, r) then events
    else if Suppressed(events, q.host, r.metric, r.level, q.now - Window(q, r.metric, r.level)) then
      events + [NewEvent(events, q, "alert_suppressed", r.level, Message(r) + " [suppressed]")]
    else if Silenced(q.silences, q.host, r.level, q.now) then
      events + [NewEvent(events, q, "alert", r.level, Message(r) + " [silenced]")]
    else
      events + [NewEvent(events, q, "alert", r.level, Message(r))]
  }

  function AfterRules(events: seq<HostEvent>, q: Request, rules: seq<Rule>): seq<HostEvent> {
    if rules == [] then events else AfterRule(AfterRules(events, q, rules[..|rules| - 1]), q, rules[|rules| - 1])
  }

  class Engine {
    var events: seq<HostEvent>

    constructor ()
      ensures events == []
    {
      events := [];
    }

    method IsAlertSuppressed(host: nat, metric: string, level: string, windowMinutes: int, now: int) returns (suppressed: bool)
      ensures suppressed == Suppressed(events, host, metric, level,
                              now - (if windowMinutes <= 0 then DEFAULT_WINDOW else windowMinutes) * MINUTE)
      ensures suppressed <==> exists i, a, b ::
                0 <= i < |events| && events[i].host == host && events[i].kind == "alert" && events[i].level == level
                && events[i].message == a + metric + b
                && events[i].createdAt > now - (if windowMinutes > 0 then windowMinutes else 30) * 60_000
    {
      var minutes := windowMinutes;
      if minutes <= 0 {
        minutes := 30;
      }
      var since := now - minutes * MINUTE;
      var count := 0;
      for i := 0 to |events|
        invariant count > 0 <==> Suppressed(events[..i], host, metric, level, since)
        invariant count >= 0
      {
        SuppressedGrows(events[..i], events[i], host, metric, level, since);
        assert events[..i + 1] == events[..i] + [events[i]];
        if IsAlert(events[i], host, metric, level) && events[i].createdAt > since {
          count := count + 1;
        }
      }
      assert events[..|events|] == events;
      suppressed := count > 0;
      SuppressedInFields(events, host, metric, level, since);
    }

    method FindWindow(q: Request, metric: string, level: string) returns (minutes: int)
      ensures (if minutes <= 0 then DEFAULT_WINDOW else minutes) * MINUTE == Window(q, metric, level)
    {
      minutes := 30;
      var own := FirstWindow(q.suppressions, q.tenant, q.host, metric, level);
      if own != [] {
        minutes := own[0];
      } else {
        var any := FirstWindow(q.suppressions, q.tenant, 0, metric, level);
        if any != [] {
          minutes := any[0];
        }
      }
    }

    /** EvaluateAlertsWithEngineering */
    method EvaluateAlerts(q: Request)
      modifies this
      ensures events == AfterRules(old(events), q, q.rules)
    {
      var values := MetricValues(q.sample);
      for i := 0 to |q.rules|
        invariant events == AfterRules(old(events), q, q.rules[..i])
      {
        var r := q.rules[i];
        assert q.rules[..i + 1][..i] == q.rules[..i];
        if !(r.tenant == q.tenant && r.enabled) || r.metric !in values
           || !MatchOperator(r.operator, values[r.metric], r.threshold) {
          continue;
        }
        var message := r.metric + " " + r.operator + " " + r.text;
        var windowMinutes := FindWindow(q, r.metric, r.level);
        var suppressed := IsAlertSuppressed(q.host, r.metric, r.level, windowMinutes, q.now);
        if suppressed {
          events := events + [NewEvent(events, q, "alert_suppressed", r.level, message + " [suppressed]")];
          continue;
        }
        if Silenced(q.silences, q.host, r.level, q.now) {
          events := events + [NewEvent(events, q, "alert", r.level, message + " [silenced]")];
          continue;
        }
        events := events + [NewEvent(events, q, "alert", r.level, message)];
      }
      assert q.rules[..|q.rules|] == q.rules;
    }
  }

  lemma SuppressedInFields(events: seq<HostEvent>, host: nat, metric: string, level: string, since: int)
    ensures Suppressed(events, host, metric, level, since) <==> exists i, a, b ::
              0 <= i < |events| && events[i].host == host && events[i].kind == "alert" && events[i].level == level
              && events[i].message == a + metric + b && events[i].createdAt > since
  {
    if i :| 0 <= i < |events| && IsAlert(events[i], host, metric, level) && events[i].createdAt > since {
      MentionsIff(events[i].message, metric);
    }
    if i, a, b :| 0 <= i < |events| && events[i].host == host && events[i].kind == "alert" && events[i].level == level
                  && events[i].message == a + metric + b && events[i].createdAt > since {
      MentionsIff(events[i].message, metric);
    }
  }

  lemma SuppressedGrows(events: seq<HostEvent>, e: HostEvent, host: nat, metric: string, level: string, since: int)
    ensures Suppressed(events + [e], host, metric, level, since) <==>
            Suppressed(events, host, metric, level, since) || (IsAlert(e, host, metric, level) && e.createdAt > since)
  {
    var more := events + [e];
    assert more[|events|] == e;
    if Suppressed(events, host, metric, level, since) {
      var i :| 0 <= i < |events| && IsAlert(events[i], host, metric, level) && events[i].createdAt > since;
      assert more[i] == events[i];
    }
  }

  // ---------------------------------------------------------------- what one rule does, in the rows' own fields

  /** The sample's own number for the metric. */
  function Number(s: Sample, metric: string): real {
    if metric == "cpu" then s.cpu
    else if metric == "mem" then s.mem
    else if s.diskTotal > 0 then (s.diskUsed as real) / (s.diskTotal as real) * 100.0 else 0.0
  }

  /** The rule is enabled and of the request's tenant, and the number stands in the stated order to the threshold. */
  ghost predicate Alarms(q: Request, r: Rule) {
    && r.enabled && r.tenant == q.tenant && (r.metric == "cpu" || r.metric == "mem" || r.metric == "disk")
    && var number := Number(q.sample, r.metric);
       || (r.operator == "gt" && number > r.threshold) || (r.operator == "gte" && number >= r.threshold)
       || (r.operator == "lt" && number < r.threshold) || (r.operator == "lte" && number <= r.threshold)
  }

  /** Some alert of that host and level was raised for the metric less than the window ago. */
  ghost predicate RaisedWithin(events: seq<HostEvent>, q: Request, r: Rule, window: int) {
    exists i, a, b ::
      0 <= i < |events| && events[i].host == q.host && events[i].kind == "alert" && events[i].level == r.level
      && events[i].message == a + r.metric + b && events[i].createdAt > q.now - window
  }

  /** Some silence that has not ended covers the host and level. */
  ghost predicate Hushed(q: Request, r: Rule) {
    exists i ::
      0 <= i < |q.silences| && !q.silences[i].deleted && q.silences[i].endAt > q.now
      && (q.silences[i].host == 0 || q.silences[i].host == q.host)
      && (r.level == "" || q.silences[i].level == r.level || q.silences[i].level == "")
  }

  /** The `i`-th row is the first enabled one of the tenant for this host, metric and level. */
  ghost predicate FirstFor(rows: seq<Suppression>, i: nat, tenant: nat, host: nat, metric: string, level: string) {
    && i < |rows| && rows[i] == Suppression(tenant, host, metric, level, rows[i].windowMinutes, true)
    && forall j :: 0 <= j < i ==> rows[j] != Suppression(tenant, host, metric, level, rows[j].windowMinutes, true)
  }

  ghost predicate NoneFor(rows: seq<Suppression>, tenant: nat, host: nat, metric: string, level: string) {
    forall j :: 0 <= j < |rows| ==> rows[j] != Suppression(tenant, host, metric, level, rows[j].windowMinutes, true)
  }

  lemma {:induction false} FirstWindowIs(rows: seq<Suppression>, tenant: nat, host: nat, metric: string, level: string)
    ensures FirstWindow(rows, tenant, host, metric, level) == [] <==> NoneFor(rows, tenant, host, metric, level)
    ensures forall i: nat :: FirstFor(rows, i, tenant, host, metric, level) ==>
              FirstWindow(rows, tenant, host, metric, level) == [rows[i].windowMinutes]
    ensures |FirstWindow(rows, tenant, host, metric, level)| <= 1
  {
    if rows != [] {
      FirstWindowIs(rows[1..], tenant, host, metric, level);
      var own := rows[0] == Suppression(tenant, host, metric, level, rows[0].windowMinutes, true);
      assert forall j :: 1 <= j < |rows| ==> rows[j] == rows[1..][j - 1];
      assert forall j :: 0 <= j < |rows| - 1 ==> rows[1..][j] == rows[j + 1];
      forall i: nat | FirstFor(rows, i, tenant, host, metric, level)
        ensures FirstWindow(rows, tenant, host, metric, level) == [rows[i].windowMinutes]
      {
        if i > 0 { assert FirstFor(rows[1..], i - 1, tenant, host, metric, level); }
      }
    }
  }

  /** The window: the host's own row, else the global row, else 30 minutes; 30 as well for a row that is not positive. */
  lemma WindowIs(q: Request, metric: string, level: string)
    ensures forall i: nat :: FirstFor(q.suppressions, i, q.tenant, q.host, metric, level) ==>
              Window(q, metric, level) == 60_000 * (if q.suppressions[i].windowMinutes > 0 then q.suppressions[i].windowMinutes else 30)
    ensures NoneFor(q.suppressions, q.tenant, q.host, metric, level) ==>
              forall i: nat :: FirstFor(q.suppressions, i, q.tenant, 0, metric, level) ==>
                Window(q, metric, level) == 60_000 * (if q.suppressions[i].windowMinutes > 0 then q.suppressions[i].windowMinutes else 30)
    ensures NoneFor(q.suppressions, q.tenant, q.host, metric, level) && NoneFor(q.suppressions, q.tenant, 0, metric, level) ==>
              Window(q, metric, level) == 60_000 * 30
  {
    FirstWindowIs(q.suppressions, q.tenant, q.host, metric, level);
    FirstWindowIs(q.suppressions, q.tenant, 0, metric, level);
  }

  /**
   * One rule's turn: the table grows exactly when the rule alarms, by one row with the host, level and text of
   * the rule; suppressed if one was raised within the window, else silenced if a silence covers it, else plain.
   */
  lemma RuleWrites(events: seq<HostEvent>, q: Request, r: Rule)
    ensures !Alarms(q, r) ==> AfterRule(events, q, r) == events
    ensures Alarms(q, r) ==>
              var text := r.metric + " " + r.operator + " " + r.text;
              var suppressed := RaisedWithin(events, q, r, Window(q, r.metric, r.level));
              var e := HostEvent(|events| + 1, q.tenant, q.host, if suppressed then "alert_suppressed" else "alert", r.level,
                                 if suppressed then text + " [suppressed]" else if Hushed(q, r) then text + " [silenced]" else text,
                                 false, q.now);
              AfterRule(events, q, r) == events + [e]
  {
    AlarmsIffFires(q, r);
    SuppressedInFields(events, q.host, r.metric, r.level, q.now - Window(q, r.metric, r.level));
    assert Silenced(q.silences, q.host, r.level, q.now) <==> Hushed(q, r);
  }

  lemma AlarmsIffFires(q: Request, r: Rule)
    ensures Alarms(q, r) <==> Fires(q, r)
  {
  }

  /** Every rule has its turn, in order, each on the table the previous ones have left. */
  lemma RulesTakeTurns(events: seq<HostEvent>, q: Request, rules: seq<Rule>) returns (tables: seq<seq<HostEvent>>)
    ensures |tables| == |rules| + 1 && tables[0] == events && tables[|rules|] == AfterRules(events, q, rules)
    ensures forall n :: 0 <= n < |rules| ==> tables[n + 1] == AfterRule(tables[n], q, rules[n])
  {
    if rules == [] {
      tables := [events];
    } else {
      var init := rules[..|rules| - 1];
      var earlier := RulesTakeTurns(events, q, init);
      tables := earlier + [AfterRules(events, q, rules)];
      forall n | 0 <= n < |rules|
        ensures tables[n + 1] == AfterRule(tables[n], q, rules[n])
      {
        assert tables[n] == earlier[n] && (n < |init| ==> rules[n] == init[n] && tables[n + 1] == earlier[n + 1]);
      }
    }
  }

  // ---------------------------------------------------------------- whose alert is it

  /** A letter that occurs in this metric's alert messages and in no other metric's. */
  function Mark(metric: string): char {
    if metric == "cpu" then 'p' else if metric == "mem" then 'm' else 'k'
  }

  predicate IsMetric(metric: string) {
    metric == "cpu" || metric == "mem" || metric == "disk"
  }

  lemma ConcatHas(a: string, b: string, c: char)
    ensures c in a + b <==> c in a || c in b
  {
  }

  lemma MarkOnlyInMetric(m: string, metric: string)
    requires IsMetric(m) && IsMetric(metric)
    ensures Mark(metric) in m <==> m == metric
  {
  }

  lemma MessageMark(q: Request, r: Rule, suffix: string, metric: string)
    requires Fires(q, r) && NumberText(r.text) && IsMetric(metric) && suffix in {"", " [silenced]"}
    ensures Mark(metric) in Message(r) + suffix ==> r.metric == metric
  {
    var c := Mark(metric);
    ConcatHas(Message(r), suffix, c);
    ConcatHas(r.metric + " " + r.operator + " ", r.text, c);
    ConcatHas(r.metric + " " + r.operator, " ", c);
    ConcatHas(r.metric + " ", r.operator, c);
    ConcatHas(r.metric, " ", c);
    assert c !in r.text && c !in suffix && c !in " ";
    assert c !in "gt" && c !in "gte" && c !in "lt" && c !in "lte";
    assert r.operator == "gt" || r.operator == "gte" || r.operator == "lt" || r.operator == "lte";
    MarkOnlyInMetric(r.metric, metric);
  }

  /** An alert written for a rule is found again under that rule's metric and under no other. */
  lemma AlertFoundUnderItsMetric(q: Request, r: Rule, suffix: string, metric: string)
    requires Fires(q, r) && NumberText(r.text) && IsMetric(metric) && suffix in {"", " [silenced]"}
    ensures Mentions(Message(r) + suffix, metric) <==> r.metric == metric
  {
    if Mentions(Message(r) + suffix, metric) {
      MentionsHasChar(Message(r) + suffix, metric, Mark(metric));
      MessageMark(q, r, suffix, metric);
    }
    if r.metric == metric {
      MentionsPrefix(Message(r) + suffix, metric);
    }
  }

  // ---------------------------------------------------------------- histories

  /** What other parts of the server may do to the table: acknowledge rows and add rows of other kinds. */
  ghost predicate Unrelated(before: seq<HostEvent>, after: seq<HostEvent>) {
    && |before| <= |after|
    && (forall i :: 0 <= i < |before| ==> after[i] == before[i].(acknowledged := after[i].acknowledged))
    && (forall i :: |before| <= i < |after| ==> after[i].kind != "alert")
  }

  datatype Op = Evaluate(request: Request) | Other

  ghost predicate OpStep(before: seq<HostEvent>, op: Op, after: seq<HostEvent>) {
    match op
    case Evaluate(q) => Rendered(q) && after == AfterRules(before, q, q.rules)
    case Other => Unrelated(before, after)
  }

  /** Evaluations happen one at a time, at times that never go back. */
  ghost predicate History(tables: seq<seq<HostEvent>>, ops: seq<Op>) {
    && |tables| == |ops| + 1
    && tables[0] == []
    && (forall i {:trigger ops[i]} :: 0 <= i < |ops| ==> OpStep(tables[i], ops[i], tables[i + 1]))
    && forall i, j :: 0 <= i < j < |ops| && ops[i].Evaluate? && ops[j].Evaluate? ==> ops[i].request.now <= ops[j].request.now
  }

  /** Every evaluation of this host uses the window `w` for this metric and level. */
  ghost predicate FixedWindow(ops: seq<Op>, host: nat, metric: string, level: string, w: int) {
    forall i :: 0 <= i < |ops| && ops[i].Evaluate? && ops[i].request.host == host ==>
      Window(ops[i].request, metric, level) == w
  }

  /** Any two alerts of the host, metric and level are at least `w` apart, and none lies in the future. */
  ghost predicate Spaced(events: seq<HostEvent>, host: nat, metric: string, level: string, w: int) {
    forall i, j :: 0 <= i < j < |events| && IsAlert(events[i], host, metric, level) && IsAlert(events[j], host, metric, level)
      ==> events[j].createdAt - events[i].createdAt >= w
  }

  ghost predicate NotAfter(events: seq<HostEvent>, now: int) {
    forall i :: 0 <= i < |events| && events[i].kind == "alert" ==> events[i].createdAt <= now
  }

  lemma RuleKeepsSpaced(events: seq<HostEvent>, q: Request, r: Rule, host: nat, metric: string, level: string, w: int)
    requires NumberText(r.text) && IsMetric(metric) && NotAfter(events, q.now) && Spaced(events, host, metric, level, w)
    requires q.host == host ==> Window(q, metric, level) == w
    ensures NotAfter(AfterRule(events, q, r), q.now) && Spaced(AfterRule(events, q, r), host, metric, level, w)
  {
    if Fires(q, r) {
      AlertFoundUnderItsMetric(q, r, "", metric);
      AlertFoundUnderItsMetric(q, r, " [silenced]", metric);
      assert Message(r) + "" == Message(r);
    }
  }

  lemma {:induction false} RulesKeepSpaced(events: seq<HostEvent>, q: Request, rules: seq<Rule>, host: nat, metric: string, level: string, w: int)
    requires forall r :: r in rules ==> NumberText(r.text)
    requires IsMetric(metric) && NotAfter(events, q.now) && Spaced(events, host, metric, level, w)
    requires q.host == host ==> Window(q, metric, level) == w
    ensures NotAfter(AfterRules(events, q, rules), q.now) && Spaced(AfterRules(events, q, rules), host, metric, level, w)
  {
    if rules != [] {
      RulesKeepSpaced(events, q, rules[..|rules| - 1], host, metric, level, w);
      RuleKeepsSpaced(AfterRules(events, q, rules[..|rules| - 1]), q, rules[|rules| - 1], host, metric, level, w);
    }
  }

  ghost predicate UpTo(events: seq<HostEvent>, ops: seq<Op>, i: nat) {
    forall j :: i <= j < |ops| && ops[j].Evaluate? ==> NotAfter(events, ops[j].request.now)
  }

  /**
   * Suppression spacing: with a fixed window, in every table of every history any two alerts of the
   * same host, metric and level are at least the window apart.
   */
  lemma {:induction false} AlertsSpaced(tables: seq<seq<HostEvent>>, ops: seq<Op>, i: nat, host: nat, metric: string, level: string, w: int)
    requires History(tables, ops) && i < |tables|
    requires IsMetric(metric) && FixedWindow(ops, host, metric, level, w)
    ensures Spaced(tables[i], host, metric, level, w) && UpTo(tables[i], ops, i)
  {
    if i > 0 {
      AlertsSpaced(tables, ops, i - 1, host, metric, level, w);
      var op := ops[i - 1];
      assert OpStep(tables[i - 1], op, tables[i]);
      if op.Evaluate? {
        RulesKeepSpaced(tables[i - 1], op.request, op.request.rules, host, metric, level, w);
      } else {
        assert forall k :: 0 <= k < |tables[i]| && tables[i][k].kind == "alert" ==>
            k < |tables[i - 1]| && tables[i - 1][k].kind == "alert";
      }
    }
  }

  /** The alert at `j` was raised by this evaluation, and lies at least the window in force then after every earlier one. */
  ghost predicate RaisedBy(events: seq<HostEvent>, j: nat, q: Request, host: nat, metric: string, level: string)
    requires j < |events|
  {
    && q.host == host && events[j].createdAt == q.now
    && forall m :: 0 <= m < j && IsAlert(events[m], host, metric, level) ==> q.now - events[m].createdAt >= Window(q, metric, level)
  }

  lemma RuleRaises(events: seq<HostEvent>, q: Request, r: Rule, host: nat, metric: string, level: string)
    requires NumberText(r.text) && IsMetric(metric)
    ensures events <= AfterRule(events, q, r) && |AfterRule(events, q, r)| <= |events| + 1
    ensures |AfterRule(events, q, r)| > |events| && IsAlert(AfterRule(events, q, r)[|events|], host, metric, level) ==>
              RaisedBy(AfterRule(events, q, r), |events|, q, host, metric, level)
  {
    if Fires(q, r) {
      AlertFoundUnderItsMetric(q, r, "", metric);
      AlertFoundUnderItsMetric(q, r, " [silenced]", metric);
      assert Message(r) + "" == Message(r);
    }
  }

  lemma {:induction false} RulesRaise(events: seq<HostEvent>, q: Request, rules: seq<Rule>, host: nat, metric: string, level: string)
    requires IsMetric(metric) && forall r :: r in rules ==> NumberText(r.text)
    ensures events <= AfterRules(events, q, rules)
    ensures forall j: nat :: |events| <= j < |AfterRules(events, q, rules)| && IsAlert(AfterRules(events, q, rules)[j], host, metric, level) ==>
              RaisedBy(AfterRules(events, q, rules), j, q, host, metric, level)
  {
    if rules != [] {
      var init, last := rules[..|rules| - 1], rules[|rules| - 1];
      RulesRaise(events, q, init, host, metric, level);
      var mid := AfterRules(events, q, init);
      RuleRaises(mid, q, last, host, metric, level);
      RaisedStays(events, mid, AfterRule(mid, q, last), q, host, metric, level);
    }
  }

  lemma RaisedStays(events: seq<HostEvent>, mid: seq<HostEvent>, after: seq<HostEvent>, q: Request, host: nat, metric: string, level: string)
    requires events <= mid <= after
    requires forall j: nat :: |events| <= j < |mid| && IsAlert(mid[j], host, metric, level) ==> RaisedBy(mid, j, q, host, metric, level)
    ensures forall j: nat :: |events| <= j < |mid| && IsAlert(after[j], host, metric, level) ==> RaisedBy(after, j, q, host, metric, level)
  {
    forall j: nat | |events| <= j < |mid| && IsAlert(after[j], host, metric, level)
      ensures RaisedBy(after, j, q, host, metric, level)
    {
      assert after[j] == mid[j] && RaisedBy(mid, j, q, host, metric, level);
      assert forall m :: 0 <= m < j ==> after[m] == mid[m];
    }
  }

  /** Each alert in the table was raised by one of the first `i` operations. */
  ghost predicate AllRaised(events: seq<HostEvent>, ops: seq<Op>, i: nat, host: nat, metric: string, level: string)
    requires i <= |ops|
  {
    forall j: nat :: j < |events| && IsAlert(events[j], host, metric, level) ==>
      exists k: nat :: k < i && ops[k].Evaluate? && RaisedBy(events, j, ops[k].request, host, metric, level)
  }

  lemma EarlierStillRaised(before: seq<HostEvent>, after: seq<HostEvent>, ops: seq<Op>, i: nat, host: nat, metric: string, level: string)
    requires i < |ops| && AllRaised(before, ops, i, host, metric, level) && |before| <= |after|
    requires forall j :: 0 <= j < |before| ==> after[j] == before[j].(acknowledged := after[j].acknowledged)
    requires forall j: nat :: |before| <= j < |after| && IsAlert(after[j], host, metric, level) ==>
               ops[i].Evaluate? && RaisedBy(after, j, ops[i].request, host, metric, level)
    ensures AllRaised(after, ops, i + 1, host, metric, level)
  {
    forall j: nat | j < |after| && IsAlert(after[j], host, metric, level)
      ensures exists k: nat :: k < i + 1 && ops[k].Evaluate? && RaisedBy(after, j, ops[k].request, host, metric, level)
    {
      if j < |before| {
        assert IsAlert(before[j], host, metric, level);
        var k: nat :| k < i && ops[k].Evaluate? && RaisedBy(before, j, ops[k].request, host, metric, level);
        assert forall m :: 0 <= m < j && IsAlert(after[m], host, metric, level) ==> IsAlert(before[m], host, metric, level);
        assert RaisedBy(after, j, ops[k].request, host, metric, level);
      }
    }
  }

  /**
   * With windows that change freely: in every table of every history each alert lies at least the window in
   * force at its own evaluation after every earlier alert of the same host, metric and level.
   */
  lemma {:induction false} AlertsSpacedByWindow(tables: seq<seq<HostEvent>>, ops: seq<Op>, i: nat, host: nat, metric: string, level: string)
    requires History(tables, ops) && i < |tables| && IsMetric(metric)
    ensures AllRaised(tables[i], ops, i, host, metric, level)
  {
    if i > 0 {
      AlertsSpacedByWindow(tables, ops, i - 1, host, metric, level);
      var op := ops[i - 1];
      assert OpStep(tables[i - 1], op, tables[i]);
      if op.Evaluate? { RulesRaise(tables[i - 1], op.request, op.request.rules, host, metric, level); }
      EarlierStillRaised(tables[i - 1], tables[i], ops, i - 1, host, metric, level);
    }
  }

  /** Records of other kinds, such as 'alert_suppressed', never keep an alert suppressed. */
  lemma OnlyAlertsSuppress(before: seq<HostEvent>, after: seq<HostEvent>, host: nat, metric: string, level: string, since: int)
    requires Unrelated(before, after)
    ensures Suppressed(after, host, metric, level, since) <==> Suppressed(before, host, metric, level, since)
  {
    if Suppressed(before, host, metric, level, since) {
      var i :| 0 <= i < |before| && IsAlert(before[i], host, metric, level) && before[i].createdAt > since;
      assert IsAlert(after[i], host, metric, level) && after[i].createdAt > since;
    }
  }

  // ---------------------------------------------------------------- no self-locking

  /** The operation evaluates a sample that fires a rule of this metric and level on this host. */
  ghost predicate Firing(op: Op, host: nat, metric: string, level: string) {
    && op.Evaluate? && op.request.host == host
    && exists r :: r in op.request.rules && r.metric == metric && r.level == level && Fires(op.request, r)
  }

  lemma RuleLeavesRecent(events: seq<HostEvent>, q: Request, r: Rule)
    requires Fires(q, r)
    ensures Suppressed(AfterRule(events, q, r), q.host, r.metric, r.level, q.now - Window(q, r.metric, r.level))
  {
    var after := AfterRule(events, q, r);
    var e := after[|events|];
    assert after == events + [e];
    SuppressedGrows(events, e, q.host, r.metric, r.level, q.now - Window(q, r.metric, r.level));
    if e.kind == "alert" { MentionsPrefix(e.message, r.metric); }
  }

  lemma RuleKeepsRecent(events: seq<HostEvent>, q: Request, r: Rule, host: nat, metric: string, level: string, since: int)
    requires Suppressed(events, host, metric, level, since)
    ensures Suppressed(AfterRule(events, q, r), host, metric, level, since)
  {
    var after := AfterRule(events, q, r);
    if after != events {
      SuppressedGrows(events, after[|events|], host, metric, level, since);
      assert after == events + [after[|events|]];
    }
  }

  lemma {:induction false} RulesLeaveRecent(events: seq<HostEvent>, q: Request, rules: seq<Rule>, r: Rule)
    requires r in rules && Fires(q, r)
    ensures Suppressed(AfterRules(events, q, rules), q.host, r.metric, r.level, q.now - Window(q, r.metric, r.level))
  {
    var init := rules[..|rules| - 1];
    var last := rules[|rules| - 1];
    if last == r {
      RuleLeavesRecent(AfterRules(events, q, init), q, r);
    } else {
      assert r in init by { assert rules == init + [last]; }
      RulesLeaveRecent(events, q, init, r);
      RuleKeepsRecent(AfterRules(events, q, init), q, last, q.host, r.metric, r.level, q.now - Window(q, r.metric, r.level));
    }
  }

  /** Evaluations of a firing rule at most `d` apart; `at[k]` is the index of the k-th one. */
  ghost predicate FiringEvery(ops: seq<Op>, at: seq<nat>, host: nat, metric: string, level: string, d: int) {
    && (forall k :: 0 <= k < |at| ==> at[k] < |ops| && Firing(ops[at[k]], host, metric, level))
    && (forall k :: 0 < k < |at| ==> at[k - 1] < at[k])
    && (forall k :: 0 < k < |at| ==> ops[at[k]].request.now <= ops[at[k - 1]].request.now + d)
  }

  /** Among evaluations at most `d` apart that start by `t` and reach `t`, one falls within `d` after `t`. */
  lemma {:induction false} OneSoonAfter(ops: seq<Op>, at: seq<nat>, host: nat, metric: string, level: string, d: int, t: int) returns (k: nat)
    requires FiringEvery(ops, at, host, metric, level, d) && at != [] && d >= 0
    requires ops[at[0]].request.now <= t <= ops[at[|at| - 1]].request.now
    ensures k < |at| && t <= ops[at[k]].request.now <= t + d
  {
    if |at| == 1 || ops[at[|at| - 2]].request.now < t {
      k := |at| - 1;
    } else {
      k := OneSoonAfter(ops, at[..|at| - 1], host, metric, level, d, t);
    }
  }

  /**
   * No self-locking: while a rule keeps firing at least every `d`, an alert raised at time `a` is
   * followed by another alert later than `a` and no later than `a + w + d`.
   */
  lemma AlertsRecur(tables: seq<seq<HostEvent>>, ops: seq<Op>, at: seq<nat>, host: nat, metric: string, level: string,
                    w: int, d: int, a: int) returns (k: nat, n: nat)
    requires History(tables, ops) && IsMetric(metric) && FixedWindow(ops, host, metric, level, w) && d >= 0
    requires FiringEvery(ops, at, host, metric, level, d) && at != []
    requires ops[at[0]].request.now <= a + w <= ops[at[|at| - 1]].request.now
    ensures k < |at| && ops[at[k]].request.now <= a + w + d
    ensures at[k] + 1 < |tables| && n < |tables[at[k] + 1]| && IsAlert(tables[at[k] + 1][n], host, metric, level)
    ensures a < tables[at[k] + 1][n].createdAt <= a + w + d
  {
    k := OneSoonAfter(ops, at, host, metric, level, d, a + w);
    var q := ops[at[k]].request;
    var r :| r in q.rules && r.metric == metric && r.level == level && Fires(q, r);
    RulesLeaveRecent(tables[at[k]], q, q.rules, r);
    assert OpStep(tables[at[k]], ops[at[k]], tables[at[k] + 1]);
    var after := tables[at[k] + 1];
    n :| 0 <= n < |after| && IsAlert(after[n], host, metric, level) && after[n].createdAt > q.now - w;
    AlertsSpaced(tables, ops, at[k], host, metric, level, w);
    RulesKeepSpaced(tables[at[k]], q, q.rules, host, metric, level, w);
  }
}
