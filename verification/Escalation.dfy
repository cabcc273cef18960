/** The escalation checker: checkEscalations in server/controllers/alert_engine.go. */
module Escalation {
  import opened HostEvents

  const BATCH: nat := 10

  datatype Rule = Rule(tenant: nat, triggerLevel: string, notifyAfterMin: int, retryCount: int, enabled: bool)

  function EscalateLevel(level: string): string {
    if level == "warning" then "critical" else if level == "info" then "warning" else level
  }

  function Decimal(n: nat): string {
    if n < 10 then ["0123456789"[n]] else Decimal(n / 10) + ["0123456789"[n % 10]]
  }

  /** The message the retry count is looked up with. */
  function LookupMessage(id: nat): string {
    "ALERT #" + Decimal(id) + " ESCALATED"
  }

  /** The message that is stored. */
  function EscalationMessage(e: HostEvent): string {
    "ALERT #" + (Decimal(e.id) + (" " + LevelChange(e.level)))
  }

  function LevelChange(level: string): string {
    "ESCALATED (level: " + level + " -> " + EscalateLevel(level) + ")"
  }

  /** An unacknowledged alert that the rule's query selects. */
  predicate Overdue(e: HostEvent, r: Rule, threshold: int) {
    e.tenant == r.tenant && e.kind == "alert" && e.level == r.triggerLevel && !e.acknowledged && e.createdAt < threshold
  }

  function OverdueIds(events: seq<HostEvent>, r: Rule, threshold: int): set<nat> {
    set i | 0 <= i < |events| && Overdue(events[i], r, threshold)
  }

  function Threshold(r: Rule, now: int): int {
    now - r.notifyAfterMin * MINUTE
  }

  /** ORDER BY created_at ASC LIMIT 10; ties may fall either way. */
  ghost predicate Oldest(events: seq<HostEvent>, due: set<nat>, picks: seq<nat>) {
    && (forall i :: i in due ==> i < |events|)
    && (forall k :: 0 <= k < |picks| ==> picks[k] in due)
    && (forall j, k :: 0 <= j < k < |picks| ==> picks[j] != picks[k] && events[picks[j]].createdAt <= events[picks[k]].createdAt)
    && |picks| == (if |due| < BATCH then |due| else BATCH)
    && (forall i, k :: i in due && i !in picks && 0 <= k < |picks| ==> events[picks[k]].createdAt <= events[i].createdAt)
  }

  function EscalationCount(events: seq<HostEvent>, host: nat, message: string): nat {
    if events == [] then 0
    else
      var e := events[|events| - 1];
      EscalationCount(events[..|events| - 1], host, message)
      + if e.host == host && e.kind == "escalation" && e.message == message then 1 else 0
  }

  predicate Says(e: HostEvent, host: nat, message: string) {
    e.host == host && e.kind == "escalation" && e.message == message
  }

  ghost function Saying(events: seq<HostEvent>, n: nat, host: nat, message: string): set<nat>
    requires n <= |events|
  {
    set i | 0 <= i < n && Says(events[i], host, message)
  }

  lemma {:induction false} CountIsSize(events: seq<HostEvent>, n: nat, host: nat, message: string)
    requires n <= |events|
    ensures EscalationCount(events[..n], host, message) == |Saying(events, n, host, message)|
  {
    if n > 0 {
      CountIsSize(events, n - 1, host, message);
      assert events[..n][..n - 1] == events[..n - 1];
      var rest := Saying(events, n - 1, host, message);
      assert n - 1 !in rest;
      assert Saying(events, n, host, message) == rest + if Says(events[n - 1], host, message) then {n - 1} else {};
    }
  }

  function EscalationEvent(events: seq<HostEvent>, e: HostEvent, now: int): HostEvent {
    HostEvent(|events| + 1, e.tenant, e.host, "escalation", "critical", EscalationMessage(e), false, now)
  }

  /** One selected alert: skipped at its retry limit, otherwise escalated and acknowledged. */
  function AfterPick(events: seq<HostEvent>, i: nat, r: Rule, now: int): seq<HostEvent>
    requires i < |events|
  {
    var e := events[i];
    if EscalationCount(events, e.host, LookupMessage(e.id)) >= r.retryCount then events
    else events[i := e.(acknowledged := true)] + [EscalationEvent(events, e, now)]
  }

  function AfterPicks(events: seq<HostEvent>, picks: seq<nat>, r: Rule, now: int): (after: seq<HostEvent>)
    requires forall k :: 0 <= k < |picks| ==> picks[k] < |events|
    ensures |after| >= |events|
  {
    if picks == [] then events
    else AfterPick(AfterPicks(events, picks[..|picks| - 1], r, now), picks[|picks| - 1], r, now)
  }

  ghost predicate RuleChecked(before: seq<HostEvent>, r: Rule, now: int, after: seq<HostEvent>) {
    exists picks {:trigger Oldest(before, OverdueIds(before, r, Threshold(r, now)), picks)} ::
      && Oldest(before, OverdueIds(before, r, Threshold(r, now)), picks)
      && (forall k :: 0 <= k < |picks| ==> picks[k] < |before|)
      && after == AfterPicks(before, picks, r, now)
  }

  ghost predicate RuleStep(before: seq<HostEvent>, r: Rule, now: int, after: seq<HostEvent>) {
    if r.enabled then RuleChecked(before, r, now, after) else after == before
  }

  ghost predicate Chain(chain: seq<seq<HostEvent>>, rules: seq<Rule>, now: int) {
    && |chain| == |rules| + 1
    && forall n {:trigger rules[n]} :: 0 <= n < |rules| ==> RuleStep(chain[n], rules[n], now, chain[n + 1])
  }

  /** The enabled rules take effect one after another. */
  ghost predicate Checked(before: seq<HostEvent>, rules: seq<Rule>, now: int, after: seq<HostEvent>) {
    exists chain :: Chain(chain, rules, now) && chain[0] == before && chain[|rules|] == after
  }

  lemma ChainGrows(chain: seq<seq<HostEvent>>, rules: seq<Rule>, now: int, r: Rule, after: seq<HostEvent>)
    requires Chain(chain, rules, now) && RuleStep(chain[|rules|], r, now, after)
    ensures Chain(chain + [after], rules + [r], now)
  {
    var longer, more := chain + [after], rules + [r];
    forall n | 0 <= n < |more|
      ensures RuleStep(longer[n], more[n], now, longer[n + 1])
    {
      if n < |rules| {
        assert more[n] == rules[n] && longer[n] == chain[n] && longer[n + 1] == chain[n + 1];
      } else {
        assert more[n] == r && longer[n] == chain[n] && longer[n + 1] == after;
      }
    }
  }

  lemma RuleCheckedBy(before: seq<HostEvent>, picks: seq<nat>, r: Rule, now: int)
    requires Oldest(before, OverdueIds(before, r, Threshold(r, now)), picks)
    ensures forall k :: 0 <= k < |picks| ==> picks[k] < |before|
    ensures RuleChecked(before, r, now, AfterPicks(before, picks, r, now))
  {
  }

  /** Picking the earliest so far: the picks are in order, and none of the rest is earlier. */
  ghost predicate Picking(events: seq<HostEvent>, due: set<nat>, picks: seq<nat>, todo: set<nat>) {
    && (forall i :: i in due ==> i < |events|)
    && todo <= due && |picks| + |todo| == |due|
    && (forall i :: i in due <==> i in picks || i in todo)
    && (forall k :: 0 <= k < |picks| ==> picks[k] !in todo)
    && (forall j, k :: 0 <= j < k < |picks| ==> picks[j] != picks[k] && events[picks[j]].createdAt <= events[picks[k]].createdAt)
    && (forall i, k :: i in todo && 0 <= k < |picks| ==> events[picks[k]].createdAt <= events[i].createdAt)
  }

  lemma PickEarliest(events: seq<HostEvent>, due: set<nat>, picks: seq<nat>, todo: set<nat>, first: nat)
    requires Picking(events, due, picks, todo) && first in todo
    requires forall i :: i in todo ==> events[first].createdAt <= events[i].createdAt
    ensures Picking(events, due, picks + [first], todo - {first})
  {
    assert first in due;
  }

  /** An unacknowledged alert of the rule's tenant and level. */
  predicate DueFor(e: HostEvent, r: Rule) {
    e.tenant == r.tenant && e.level == r.triggerLevel && e.kind == "alert" && !e.acknowledged
  }

  lemma AllPicked(events: seq<HostEvent>, due: set<nat>, picks: seq<nat>)
    requires Oldest(events, due, picks) && |picks| < BATCH
    ensures forall i :: i in due ==> i in picks
  {
    var done := PickedSet(events, due, picks);
    assert |due| == |done| + |due - done| by { assert due == done + (due - done); }
    assert due - done == {};
  }

  class Checker {
    var events: seq<HostEvent>

    method OldestOverdue(r: Rule, threshold: int) returns (picks: seq<nat>)
      ensures Oldest(events, OverdueIds(events, r, threshold), picks)
      ensures forall k :: 0 <= k < |picks| ==> picks[k] < |events| && DueFor(events[picks[k]], r) && events[picks[k]].createdAt < threshold
      ensures |picks| < 10 ==> forall i: nat :: i < |events| && DueFor(events[i], r) && events[i].createdAt < threshold ==> i in picks
    {
      picks := [];
      var todo := OverdueIds(events, r, threshold);
      ghost var due := todo;
      while todo != {} && |picks| < 10
        invariant Picking(events, due, picks, todo) && |picks| <= 10
        decreases |todo|
      {
        ghost var w := EarliestExists(events, todo);
        var first :| first in todo && forall i :: i in todo ==> events[first].createdAt <= events[i].createdAt;
        PickEarliest(events, due, picks, todo, first);
        picks := picks + [first];
        todo := todo - {first};
      }
      assert Oldest(events, due, picks);
      if |picks| < 10 { AllPicked(events, due, picks); }
    }

    method CountEscalations(host: nat, message: string) returns (count: nat)
      ensures count == EscalationCount(events, host, message)
      ensures count == |set i | 0 <= i < |events| && events[i].host == host && events[i].kind == "escalation" && events[i].message == message|
    {
      CountIsSize(events, |events|, host, message);
      assert Saying(events, |events|, host, message)
          == set i | 0 <= i < |events| && events[i].host == host && events[i].kind == "escalation" && events[i].message == message;
      assert events[..|events|] == events;
      count := 0;
      for i := 0 to |events|
        invariant count == EscalationCount(events[..i], host, message)
      {
        assert events[..i + 1][..i] == events[..i];
        if events[i].host == host && events[i].kind == "escalation" && events[i].message == message {
          count := count + 1;
        }
      }
      assert events[..|events|] == events;
    }

    method CheckEscalations(rules: seq<Rule>, now: int)
      modifies this
      ensures Checked(old(events), rules, now, events)
    {
      ghost var chain := [events];
      for n := 0 to |rules|
        invariant Chain(chain, rules[..n], now) && chain[0] == old(events) && chain[n] == events
      {
        var r := rules[n];
        ghost var before := chain;
        EscalateIfEnabled(r, now);
        ChainGrows(before, rules[..n], now, r, events);
        assert rules[..n + 1] == rules[..n] + [r];
        chain := before + [events];
      }
      assert rules[..|rules|] == rules;
    }

    method EscalateIfEnabled(r: Rule, now: int)
      modifies this
      ensures RuleStep(old(events), r, now, events)
    {
      if r.enabled {
        EscalateOverdue(r, now);
      }
    }

    /** The loop body for one enabled rule. */
    method EscalateOverdue(r: Rule, now: int)
      modifies this
      ensures RuleChecked(old(events), r, now, events)
    {
      var picks := OldestOverdue(r, now - r.notifyAfterMin * MINUTE);
      RuleCheckedBy(events, picks, r, now);
      EscalateAll(picks, r, now);
    }

    method EscalateAll(picks: seq<nat>, r: Rule, now: int)
      requires forall k :: 0 <= k < |picks| ==> picks[k] < |events|
      modifies this
      ensures events == AfterPicks(old(events), picks, r, now)
    {
      for k := 0 to |picks|
        invariant |events| >= |old(events)| && events == AfterPicks(old(events), picks[..k], r, now)
      {
        assert picks[..k + 1][..k] == picks[..k];
        EscalateOne(picks[k], r, now);
      }
      assert picks[..|picks|] == picks;
    }

    method EscalateOne(i: nat, r: Rule, now: int)
      requires i < |events|
      modifies this
      ensures events == AfterPick(old(events), i, r, now)
      ensures events == old(events) || (|events| == |old(events)| + 1 && events[i].acknowledged
                && events[|old(events)|].kind == "escalation" && events[|old(events)|].level == "critical"
                && events[|old(events)|].tenant == old(events)[i].tenant && events[|old(events)|].host == old(events)[i].host
                && events[|old(events)|].createdAt == now && !events[|old(events)|].acknowledged)
    {
      var e := events[i];
      var upgradeCount := CountEscalations(e.host, "ALERT #" + Decimal(e.id) + " ESCALATED");
      if upgradeCount >= r.retryCount {
        return;
      }
      var upgrade := HostEvent(|events| + 1, e.tenant, e.host, "escalation", "critical", EscalationMessage(e), false, now);
      events := events + [upgrade];
      events := events[i := e.(acknowledged := true)];
    }
  }

  lemma {:induction false} EarliestExists(events: seq<HostEvent>, ids: set<nat>) returns (first: nat)
    requires ids != {} && forall i :: i in ids ==> i < |events|
    ensures first in ids && forall i :: i in ids ==> events[first].createdAt <= events[i].createdAt
  {
    first :| first in ids;
    if ids != {first} {
      var rest := EarliestExists(events, ids - {first});
      if events[rest].createdAt < events[first].createdAt { first := rest; }
    }
  }

  // ---------------------------------------------------------------- messages

  predicate IsDigit(c: char) {
    '0' <= c <= '9'
  }

  lemma {:induction false} DecimalDigits(n: nat)
    ensures Decimal(n) != [] && forall i :: 0 <= i < |Decimal(n)| ==> IsDigit(Decimal(n)[i])
  {
    if n >= 10 { DecimalDigits(n / 10); }
  }

  lemma DigitInjective(a: nat, b: nat)
    requires a < 10 && b < 10 && "0123456789"[a] == "0123456789"[b]
    ensures a == b
  {
  }

  lemma {:induction false} DecimalInjective(a: nat, b: nat)
    requires Decimal(a) == Decimal(b)
    ensures a == b
  {
    DecimalDigits(a / 10);
    DecimalDigits(b / 10);
    var d := Decimal(a);
    if a >= 10 && b >= 10 {
      assert d[..|d| - 1] == Decimal(a / 10) == Decimal(b / 10);
      assert d[|d| - 1] == "0123456789"[a % 10] == "0123456789"[b % 10];
      DecimalInjective(a / 10, b / 10);
      DigitInjective(a % 10, b % 10);
    } else if a < 10 && b < 10 {
      assert d[0] == "0123456789"[a] == "0123456789"[b];
      DigitInjective(a, b);
    }
  }

  /** Digits followed by a blank are read back unambiguously: ALERT #12 is not a prefix of ALERT #123. */
  lemma {:induction false} DigitsDelimited(d: string, e: string, x: string, y: string)
    requires d + (" " + x) == e + (" " + y)
    requires (forall i :: 0 <= i < |d| ==> IsDigit(d[i])) && (forall i :: 0 <= i < |e| ==> IsDigit(e[i]))
    ensures d == e
  {
    var s, t := d + (" " + x), e + (" " + y);
    assert s[|d|] == ' ' && t[|e|] == ' ';
    assert forall i :: 0 <= i < |d| ==> s[i] == d[i];
    assert forall i :: 0 <= i < |e| ==> t[i] == e[i];
    assert |d| == |e|;
  }

  lemma PrefixCancels(p: string, a: string, b: string)
    requires p + a == p + b
    ensures a == b
  {
    assert (p + a)[|p|..] == a && (p + b)[|p|..] == b;
  }

  /** Escalation messages of different alerts differ. */
  lemma MessagesDiffer(a: HostEvent, b: HostEvent)
    requires EscalationMessage(a) == EscalationMessage(b)
    ensures a.id == b.id
  {
    PrefixCancels("ALERT #", Decimal(a.id) + (" " + LevelChange(a.level)), Decimal(b.id) + (" " + LevelChange(b.level)));
    DecimalDigits(a.id);
    DecimalDigits(b.id);
    DigitsDelimited(Decimal(a.id), Decimal(b.id), LevelChange(a.level), LevelChange(b.level));
    DecimalInjective(a.id, b.id);
  }

  /** The looked-up message is never one that was stored, so the retry count is never reached above zero. */
  lemma LookupNeverStored(e: HostEvent, id: nat)
    ensures EscalationMessage(e) != LookupMessage(id)
  {
    var m, l := EscalationMessage(e), LookupMessage(id);
    assert m[|m| - 1] == ')' && l[|l| - 1] == 'D';
  }

  // ---------------------------------------------------------------- every reachable table

  /** Row ids are positions, and every escalation row names an alert that has been acknowledged. */
  ghost predicate WellFormed(events: seq<HostEvent>) {
    && (forall i :: 0 <= i < |events| ==> events[i].id == i + 1)
    && (forall j :: 0 <= j < |events| && events[j].kind == "escalation" ==> HasSource(events, j))
    && forall i :: 0 <= i < |events| ==> |EscalationsOf(events, i)| <= 1
  }

  ghost predicate HasSource(events: seq<HostEvent>, j: nat)
    requires j < |events|
  {
    exists i :: 0 <= i < |events| && events[i].kind == "alert" && events[i].acknowledged
                && events[j].message == EscalationMessage(events[i])
  }

  /** The escalation rows written for row `i`. */
  ghost function EscalationsOf(events: seq<HostEvent>, i: nat): set<nat>
    requires i < |events|
  {
    set j | 0 <= j < |events| && events[j].kind == "escalation" && events[j].message == EscalationMessage(events[i])
  }

  lemma {:induction false} LookupCountsZero(events: seq<HostEvent>, all: seq<HostEvent>, host: nat, id: nat)
    requires WellFormed(all) && events <= all
    ensures EscalationCount(events, host, LookupMessage(id)) == 0
  {
    if events != [] {
      var n := |events| - 1;
      LookupCountsZero(events[..n], all, host, id);
      assert events[n] == all[n];
      if all[n].kind == "escalation" {
        var i :| 0 <= i < |all| && all[i].kind == "alert" && all[i].acknowledged && all[n].message == EscalationMessage(all[i]);
        LookupNeverStored(all[i], id);
      }
    }
  }

  /** An unacknowledged alert has no escalation row yet. */
  lemma UnacknowledgedUnescalated(events: seq<HostEvent>, i: nat)
    requires WellFormed(events) && i < |events| && events[i].kind == "alert" && !events[i].acknowledged
    ensures EscalationsOf(events, i) == {}
  {
    forall j | 0 <= j < |events| && events[j].kind == "escalation"
      ensures events[j].message != EscalationMessage(events[i])
    {
      assert HasSource(events, j);
      var s :| 0 <= s < |events| && events[s].kind == "alert" && events[s].acknowledged
               && events[j].message == EscalationMessage(events[s]);
      if EscalationMessage(events[s]) == EscalationMessage(events[i]) { MessagesDiffer(events[s], events[i]); }
    }
  }

  /** What escalating one unacknowledged alert does, in terms of the rows. */
  ghost predicate Escalated(before: seq<HostEvent>, i: nat, after: seq<HostEvent>) {
    && i < |before| && |after| == |before| + 1
    && after[i] == before[i].(acknowledged := true)
    && (forall k :: 0 <= k < |before| && k != i ==> after[k] == before[k])
    && after[|before|].id == |before| + 1 && after[|before|].kind == "escalation"
    && after[|before|].message == EscalationMessage(before[i])
  }

  lemma EscalatedRowGetsOne(before: seq<HostEvent>, i: nat, after: seq<HostEvent>)
    requires WellFormed(before) && Escalated(before, i, after) && before[i].kind == "alert" && !before[i].acknowledged
    ensures EscalationsOf(after, i) == {|before|}
  {
    UnacknowledgedUnescalated(before, i);
    assert EscalationMessage(after[i]) == EscalationMessage(before[i]);
    forall j | 0 <= j < |before|
      ensures j !in EscalationsOf(after, i)
    {
      assert j !in EscalationsOf(before, i);
      assert after[j].message == before[j].message && after[j].kind == before[j].kind;
    }
  }

  lemma OtherRowsKeepTheirs(before: seq<HostEvent>, i: nat, after: seq<HostEvent>, k: nat)
    requires WellFormed(before) && Escalated(before, i, after) && k < |before| && k != i
    ensures EscalationsOf(after, k) == EscalationsOf(before, k)
  {
    if EscalationMessage(before[k]) == EscalationMessage(before[i]) { MessagesDiffer(before[k], before[i]); }
    forall j | 0 <= j < |before|
      ensures j in EscalationsOf(after, k) <==> j in EscalationsOf(before, k)
    {
      assert after[j].message == before[j].message && after[j].kind == before[j].kind;
    }
  }

  lemma EscalatedKeepsOne(before: seq<HostEvent>, i: nat, after: seq<HostEvent>, k: nat)
    requires WellFormed(before) && Escalated(before, i, after) && before[i].kind == "alert" && !before[i].acknowledged
    requires k < |after|
    ensures |EscalationsOf(after, k)| <= 1
  {
    if k == i {
      EscalatedRowGetsOne(before, i, after);
    } else if k < |before| {
      OtherRowsKeepTheirs(before, i, after, k);
    } else {
      NewRowUnescalated(before, after, i);
    }
  }

  /** The alert an escalation row was written for. */
  lemma SourceOf(events: seq<HostEvent>, j: nat) returns (s: nat)
    requires WellFormed(events) && j < |events| && events[j].kind == "escalation"
    ensures s < |events| && events[s].kind == "alert" && events[s].acknowledged && events[s].id <= |events|
    ensures events[j].message == EscalationMessage(events[s])
  {
    assert HasSource(events, j);
    s :| 0 <= s < |events| && events[s].kind == "alert" && events[s].acknowledged
         && events[j].message == EscalationMessage(events[s]);
  }

  lemma NewRowUnescalated(before: seq<HostEvent>, after: seq<HostEvent>, i: nat)
    requires WellFormed(before) && Escalated(before, i, after)
    ensures EscalationsOf(after, |before|) == {}
  {
    var fresh1 := after[|before|];
    if EscalationMessage(before[i]) == EscalationMessage(fresh1) { MessagesDiffer(before[i], fresh1); }
    forall j | 0 <= j < |before| && after[j].kind == "escalation"
      ensures after[j].message != EscalationMessage(fresh1)
    {
      assert after[j].message == before[j].message && after[j].kind == before[j].kind;
      var s := SourceOf(before, j);
      if EscalationMessage(before[s]) == EscalationMessage(fresh1) { MessagesDiffer(before[s], fresh1); }
    }
  }

  lemma EscalatedKeepsSources(before: seq<HostEvent>, i: nat, after: seq<HostEvent>)
    requires WellFormed(before) && Escalated(before, i, after) && before[i].kind == "alert"
    ensures forall j :: 0 <= j < |after| && after[j].kind == "escalation" ==> HasSource(after, j)
  {
    forall j | 0 <= j < |after| && after[j].kind == "escalation"
      ensures HasSource(after, j)
    {
      if j < |before| {
        assert HasSource(before, j);
        var s :| 0 <= s < |before| && before[s].kind == "alert" && before[s].acknowledged
                 && before[j].message == EscalationMessage(before[s]);
        assert EscalationMessage(after[s]) == EscalationMessage(before[s]) && after[s].acknowledged;
      } else {
        assert EscalationMessage(after[i]) == EscalationMessage(before[i]) && after[i].acknowledged;
      }
    }
  }

  /** A picked alert that is still unacknowledged is escalated exactly when the rule allows any retry. */
  lemma PickEscalatesIff(events: seq<HostEvent>, i: nat, r: Rule, now: int)
    requires WellFormed(events) && i < |events|
    ensures if r.retryCount <= 0 then AfterPick(events, i, r, now) == events
            else Escalated(events, i, AfterPick(events, i, r, now))
  {
    LookupCountsZero(events, events, events[i].host, events[i].id);
  }

  lemma PickKeepsWellFormed(events: seq<HostEvent>, i: nat, r: Rule, now: int)
    requires WellFormed(events) && i < |events| && events[i].kind == "alert" && !events[i].acknowledged
    ensures WellFormed(AfterPick(events, i, r, now))
  {
    PickEscalatesIff(events, i, r, now);
    if r.retryCount > 0 {
      var after := AfterPick(events, i, r, now);
      EscalatedKeepsSources(events, i, after);
      forall k | 0 <= k < |after|
        ensures |EscalationsOf(after, k)| <= 1
      {
        EscalatedKeepsOne(events, i, after, k);
      }
    }
  }

  /** The old rows after the picks: acknowledged if picked by a rule that allows any retry, else unchanged. */
  ghost predicate Acknowledged(events: seq<HostEvent>, picks: seq<nat>, r: Rule, after: seq<HostEvent>) {
    && |after| >= |events|
    && (forall i :: 0 <= i < |events| ==>
         after[i] == if i in picks && r.retryCount > 0 then events[i].(acknowledged := true) else events[i])
    && (forall i :: |events| <= i < |after| ==> after[i].kind == "escalation")
  }

  lemma OneMoreAcknowledged(events: seq<HostEvent>, init: seq<nat>, last: nat, r: Rule, mid: seq<HostEvent>, after: seq<HostEvent>)
    requires Acknowledged(events, init, r, mid) && last < |events| && last !in init
    requires if r.retryCount <= 0 then after == mid else Escalated(mid, last, after)
    ensures Acknowledged(events, init + [last], r, after)
  {
  }

  /** Working through the selected alerts keeps the table well formed and acknowledges exactly them. */
  lemma {:induction false} PicksAcknowledge(events: seq<HostEvent>, picks: seq<nat>, r: Rule, now: int)
    requires WellFormed(events)
    requires forall k :: 0 <= k < |picks| ==> picks[k] < |events| && events[picks[k]].kind == "alert" && !events[picks[k]].acknowledged
    requires forall j, k :: 0 <= j < k < |picks| ==> picks[j] != picks[k]
    ensures WellFormed(AfterPicks(events, picks, r, now)) && Acknowledged(events, picks, r, AfterPicks(events, picks, r, now))
  {
    if picks != [] {
      var init := picks[..|picks| - 1];
      var last := picks[|picks| - 1];
      PicksAcknowledge(events, init, r, now);
      var mid := AfterPicks(events, init, r, now);
      assert last !in init;
      assert picks == init + [last];
      PickEscalatesIff(mid, last, r, now);
      PickKeepsWellFormed(mid, last, r, now);
      OneMoreAcknowledged(events, init, last, r, mid, AfterPick(mid, last, r, now));
    }
  }

  lemma RuleKeepsWellFormed(before: seq<HostEvent>, r: Rule, now: int, after: seq<HostEvent>)
    requires WellFormed(before) && RuleChecked(before, r, now, after)
    ensures WellFormed(after)
  {
    var picks :|
      && Oldest(before, OverdueIds(before, r, Threshold(r, now)), picks)
      && (forall k :: 0 <= k < |picks| ==> picks[k] < |before|)
      && after == AfterPicks(before, picks, r, now);
    PicksAcknowledge(before, picks, r, now);
  }

  lemma {:induction false} ChainKeepsWellFormed(chain: seq<seq<HostEvent>>, rules: seq<Rule>, now: int, n: nat)
    requires Chain(chain, rules, now) && WellFormed(chain[0]) && n <= |rules|
    ensures WellFormed(chain[n])
  {
    if n > 0 {
      ChainKeepsWellFormed(chain, rules, now, n - 1);
      var r := rules[n - 1];
      if r.enabled { RuleKeepsWellFormed(chain[n - 1], r, now, chain[n]); }
    }
  }

  lemma CheckKeepsWellFormed(before: seq<HostEvent>, rules: seq<Rule>, now: int, after: seq<HostEvent>)
    requires WellFormed(before) && Checked(before, rules, now, after)
    ensures WellFormed(after)
  {
    var chain :| Chain(chain, rules, now) && chain[0] == before && chain[|rules|] == after;
    ChainKeepsWellFormed(chain, rules, now, |rules|);
  }

  /** What the rest of the server may do: add rows that are not escalations, and acknowledge rows. */
  ghost predicate Unrelated(before: seq<HostEvent>, after: seq<HostEvent>) {
    && |before| <= |after|
    && (forall i :: 0 <= i < |before| ==>
         after[i] == before[i].(acknowledged := after[i].acknowledged) && (before[i].acknowledged ==> after[i].acknowledged))
    && (forall i :: |before| <= i < |after| ==> after[i].kind != "escalation" && after[i].id == i + 1)
  }

  lemma UnrelatedKeepsWellFormed(before: seq<HostEvent>, after: seq<HostEvent>)
    requires WellFormed(before) && Unrelated(before, after)
    ensures WellFormed(after)
  {
    forall j | 0 <= j < |after| && after[j].kind == "escalation"
      ensures HasSource(after, j)
    {
      assert HasSource(before, j);
      var s :| 0 <= s < |before| && before[s].kind == "alert" && before[s].acknowledged
               && before[j].message == EscalationMessage(before[s]);
      assert EscalationMessage(after[s]) == EscalationMessage(before[s]) && after[s].acknowledged;
    }
    forall i | 0 <= i < |after|
      ensures |EscalationsOf(after, i)| <= 1
    {
      if i < |before| {
        assert EscalationMessage(after[i]) == EscalationMessage(before[i]);
        assert EscalationsOf(after, i) == EscalationsOf(before, i);
      } else {
        forall j | 0 <= j < |after| && after[j].kind == "escalation"
          ensures after[j].message != EscalationMessage(after[i])
        {
          assert HasSource(before, j);
          var s :| 0 <= s < |before| && before[s].kind == "alert" && before[s].acknowledged
                   && before[j].message == EscalationMessage(before[s]);
          if EscalationMessage(before[s]) == EscalationMessage(after[i]) { MessagesDiffer(before[s], after[i]); }
        }
        assert EscalationsOf(after, i) == {};
      }
    }
  }

  datatype Op = Check(rules: seq<Rule>, now: int) | Other

  ghost predicate OpStep(before: seq<HostEvent>, op: Op, after: seq<HostEvent>) {
    match op
    case Check(rules, now) => Checked(before, rules, now, after)
    case Other => Unrelated(before, after)
  }

  ghost predicate History(tables: seq<seq<HostEvent>>, ops: seq<Op>) {
    && |tables| == |ops| + 1
    && tables[0] == []
    && forall i {:trigger ops[i]} :: 0 <= i < |ops| ==> OpStep(tables[i], ops[i], tables[i + 1])
  }

  /** Over every history, with any rules, each row gets at most one escalation row. */
  lemma {:induction false} EscalatedAtMostOnce(tables: seq<seq<HostEvent>>, ops: seq<Op>, n: nat)
    requires History(tables, ops) && n < |tables|
    ensures WellFormed(tables[n])
    ensures forall i :: 0 <= i < |tables[n]| ==> |EscalationsOf(tables[n], i)| <= 1
  {
    if n > 0 {
      EscalatedAtMostOnce(tables, ops, n - 1);
      match ops[n - 1]
      case Check(rules, now) => CheckKeepsWellFormed(tables[n - 1], rules, now, tables[n]);
      case Other => UnrelatedKeepsWellFormed(tables[n - 1], tables[n]);
    }
  }

  // ---------------------------------------------------------------- draining

  /** Exactly one rule is enabled, and it allows at least one retry. */
  ghost predicate OnlyRule(rules: seq<Rule>, r: Rule) {
    && r.enabled && r.retryCount >= 1
    && exists n :: 0 <= n < |rules| && rules[n] == r && forall m :: 0 <= m < |rules| && m != n ==> !rules[m].enabled
  }

  /** Rules that are not enabled leave the table alone. */
  lemma {:induction false} DisabledSpan(chain: seq<seq<HostEvent>>, rules: seq<Rule>, now: int, lo: nat, hi: nat)
    requires Chain(chain, rules, now) && lo <= hi <= |rules|
    requires forall m :: lo <= m < hi ==> !rules[m].enabled
    ensures chain[hi] == chain[lo]
  {
    if lo < hi {
      DisabledSpan(chain, rules, now, lo, hi - 1);
      assert !rules[hi - 1].enabled;
    }
  }

  lemma ChainAt(chain: seq<seq<HostEvent>>, rules: seq<Rule>, now: int, n: nat)
    requires Chain(chain, rules, now) && n < |rules|
    ensures RuleStep(chain[n], rules[n], now, chain[n + 1])
  {
  }

  /** The other rules change nothing before the only enabled one, nor after it. */
  lemma OthersChangeNothing(chain: seq<seq<HostEvent>>, rules: seq<Rule>, now: int, n: nat)
    requires Chain(chain, rules, now) && n < |rules|
    requires forall m :: 0 <= m < |rules| && m != n ==> !rules[m].enabled
    ensures chain[0] == chain[n] && chain[|rules|] == chain[n + 1]
  {
    DisabledSpan(chain, rules, now, 0, n);
    DisabledSpan(chain, rules, now, n + 1, |rules|);
  }

  lemma OnlyRuleChecks(before: seq<HostEvent>, rules: seq<Rule>, r: Rule, now: int, after: seq<HostEvent>)
    requires Checked(before, rules, now, after) && OnlyRule(rules, r)
    ensures RuleChecked(before, r, now, after)
  {
    var n :| 0 <= n < |rules| && rules[n] == r && forall m :: 0 <= m < |rules| && m != n ==> !rules[m].enabled;
    var chain :| Chain(chain, rules, now) && chain[0] == before && chain[|rules|] == after;
    OthersChangeNothing(chain, rules, now, n);
    ChainAt(chain, rules, now, n);
  }

  function Min(a: nat, b: nat): nat {
    if a < b then a else b
  }

  /** The set of picks is the oldest min(10, k) of the due alerts. */
  lemma PickedSet(events: seq<HostEvent>, due: set<nat>, picks: seq<nat>) returns (done: set<nat>)
    requires Oldest(events, due, picks)
    ensures done <= due && |done| == Min(BATCH, |due|) && forall i :: i in done <==> i in picks
    ensures forall i, j :: i in done && j in due - done ==> events[i].createdAt <= events[j].createdAt
  {
    done := set k | 0 <= k < |picks| :: picks[k];
    PicksSize(picks, done);
    forall i, j | i in done && j in due - done
      ensures events[i].createdAt <= events[j].createdAt
    {
      var k :| 0 <= k < |picks| && picks[k] == i;
      assert j !in picks;
    }
  }

  /**
   * One check acknowledges min(10, k) of the k overdue alerts, none of them younger than one it
   * leaves, and nothing else.
   */
  lemma CheckAcknowledgesOldest(before: seq<HostEvent>, rules: seq<Rule>, r: Rule, now: int, after: seq<HostEvent>) returns (done: set<nat>)
    requires WellFormed(before) && Checked(before, rules, now, after) && OnlyRule(rules, r)
    ensures var due := OverdueIds(before, r, Threshold(r, now));
            && done <= due && |done| == Min(BATCH, |due|)
            && (forall i, j :: i in done && j in due - done ==> before[i].createdAt <= before[j].createdAt)
    ensures |after| >= |before|
    ensures forall i :: 0 <= i < |before| ==>
              after[i] == if i in done then before[i].(acknowledged := true) else before[i]
    ensures forall i :: |before| <= i < |after| ==> after[i].kind == "escalation"
    ensures WellFormed(after)
  {
    OnlyRuleChecks(before, rules, r, now, after);
    done := RuleAcknowledgesOldest(before, r, now, after);
  }

  lemma RuleAcknowledgesOldest(before: seq<HostEvent>, r: Rule, now: int, after: seq<HostEvent>) returns (done: set<nat>)
    requires WellFormed(before) && RuleChecked(before, r, now, after) && r.retryCount >= 1
    ensures var due := OverdueIds(before, r, Threshold(r, now));
            && done <= due && |done| == Min(BATCH, |due|)
            && (forall i, j :: i in done && j in due - done ==> before[i].createdAt <= before[j].createdAt)
    ensures |after| >= |before|
    ensures forall i :: 0 <= i < |before| ==>
              after[i] == if i in done then before[i].(acknowledged := true) else before[i]
    ensures forall i :: |before| <= i < |after| ==> after[i].kind == "escalation"
    ensures WellFormed(after)
  {
    var due := OverdueIds(before, r, Threshold(r, now));
    var picks :|
      && Oldest(before, due, picks)
      && (forall k :: 0 <= k < |picks| ==> picks[k] < |before|)
      && after == AfterPicks(before, picks, r, now);
    PicksAcknowledge(before, picks, r, now);
    done := PickedSet(before, due, picks);
  }

  lemma {:induction false} PicksSize(picks: seq<nat>, done: set<nat>)
    requires forall j, k :: 0 <= j < k < |picks| ==> picks[j] != picks[k]
    requires done == set k | 0 <= k < |picks| :: picks[k]
    ensures |done| == |picks|
  {
    if picks != [] {
      var init := picks[..|picks| - 1];
      var rest := set k | 0 <= k < |init| :: init[k];
      PicksSize(init, rest);
      assert picks[|picks| - 1] !in rest;
      assert done == rest + {picks[|picks| - 1]} by {
        assert picks == init + [picks[|picks| - 1]];
        forall x | x in done
          ensures x in rest + {picks[|picks| - 1]}
        {
          var k :| 0 <= k < |picks| && picks[k] == x;
          if k < |init| { assert init[k] == x; }
        }
        forall x | x in rest
          ensures x in done
        {
          var k :| 0 <= k < |init| && init[k] == x;
          assert picks[k] == x;
        }
      }
    }
  }

  /** Taking min(10, |due|) from `due`, all of `early` before any of the rest, leaves ten fewer of `early`. */
  lemma OldestFirst(early: set<nat>, due: set<nat>, done: set<nat>)
    requires early <= due && done <= due && |done| == Min(BATCH, |due|)
    requires early <= done || done <= early
    ensures |early - done| == |early| - Min(BATCH, |early|)
  {
    assert |due| == |done| + |due - done| by { assert due == done + (due - done); }
    assert |due| == |early| + |due - early| by { assert due == early + (due - early); }
    if early <= done {
      assert early - done == {};
      assert |done| == |early| + |done - early| by { assert done == early + (done - early); }
    } else {
      assert |early| == |done| + |early - done| by { assert early == done + (early - done); }
      var x :| x in early - done;
      assert x in due - done;
    }
  }

  lemma AcknowledgedNotOverdue(before: seq<HostEvent>, after: seq<HostEvent>, done: set<nat>, r: Rule, since: int)
    requires |after| >= |before|
    requires forall i :: 0 <= i < |before| ==>
               after[i] == if i in done then before[i].(acknowledged := true) else before[i]
    requires forall i :: |before| <= i < |after| ==> after[i].kind == "escalation"
    ensures OverdueIds(after, r, since) == OverdueIds(before, r, since) - done
  {
  }

  /** Of the alerts already overdue at a fixed time, one later check leaves ten fewer, or none. */
  lemma CheckDrainsTen(before: seq<HostEvent>, rules: seq<Rule>, r: Rule, now: int, after: seq<HostEvent>, since: int)
    requires WellFormed(before) && Checked(before, rules, now, after) && OnlyRule(rules, r)
    requires since <= Threshold(r, now)
    ensures WellFormed(after)
    ensures |OverdueIds(after, r, since)| == |OverdueIds(before, r, since)| - Min(BATCH, |OverdueIds(before, r, since)|)
  {
    OnlyRuleChecks(before, rules, r, now, after);
    RuleDrainsTen(before, r, now, after, since);
  }

  ghost function Backlog(events: seq<HostEvent>, r: Rule, since: int): nat {
    |OverdueIds(events, r, since)|
  }

  /** Consecutive checks with the single rule, each no earlier than the time `since` was overdue. */
  ghost predicate Checks(tables: seq<seq<HostEvent>>, ops: seq<Op>, r: Rule, since: int) {
    && |tables| == |ops| + 1 && WellFormed(tables[0])
    && forall i {:trigger ops[i]} :: 0 <= i < |ops| ==>
         ops[i].Check? && OnlyRule(ops[i].rules, r) && since <= Threshold(r, ops[i].now)
         && Checked(tables[i], ops[i].rules, ops[i].now, tables[i + 1])
  }

  lemma BacklogStep(tables: seq<seq<HostEvent>>, ops: seq<Op>, r: Rule, since: int, n: nat)
    requires Checks(tables, ops, r, since) && n < |ops| && WellFormed(tables[n])
    ensures WellFormed(tables[n + 1])
    ensures Backlog(tables[n + 1], r, since) == Backlog(tables[n], r, since) - Min(BATCH, Backlog(tables[n], r, since))
  {
    var op := ops[n];
    CheckDrainsTen(tables[n], op.rules, r, op.now, tables[n + 1], since);
  }

  lemma {:induction false} BacklogAfter(tables: seq<seq<HostEvent>>, ops: seq<Op>, r: Rule, since: int, n: nat)
    requires Checks(tables, ops, r, since) && n < |tables|
    ensures WellFormed(tables[n])
    ensures var k := Backlog(tables[0], r, since);
            Backlog(tables[n], r, since) == if k <= BATCH * n then 0 else k - BATCH * n
  {
    if n > 0 {
      BacklogAfter(tables, ops, r, since, n - 1);
      BacklogStep(tables, ops, r, since, n - 1);
    }
  }

  /** A backlog of k overdue alerts is fully acknowledged after ceil(k / 10) checks, and not before. */
  lemma BacklogDrained(tables: seq<seq<HostEvent>>, ops: seq<Op>, r: Rule, since: int, n: nat)
    requires Checks(tables, ops, r, since) && n < |tables|
    ensures OverdueIds(tables[n], r, since) == {} <==> n >= (Backlog(tables[0], r, since) + BATCH - 1) / BATCH
  {
    BacklogAfter(tables, ops, r, since, n);
  }

  // ---------------------------------------------------------------- several enabled rules

  /** Another rule only takes alerts away from a backlog. */
  lemma RuleOnlyTakes(before: seq<HostEvent>, other: Rule, now: int, after: seq<HostEvent>, r: Rule, since: int)
    requires WellFormed(before) && RuleStep(before, other, now, after)
    ensures WellFormed(after) && OverdueIds(after, r, since) <= OverdueIds(before, r, since)
  {
    if other.enabled {
      var picks :|
        && Oldest(before, OverdueIds(before, other, Threshold(other, now)), picks)
        && (forall k :: 0 <= k < |picks| ==> picks[k] < |before|)
        && after == AfterPicks(before, picks, other, now);
      PicksAcknowledge(before, picks, other, now);
      AcknowledgingOnlyTakes(before, picks, other, after, r, since);
    }
  }

  lemma AcknowledgingOnlyTakes(before: seq<HostEvent>, picks: seq<nat>, other: Rule, after: seq<HostEvent>, r: Rule, since: int)
    requires Acknowledged(before, picks, other, after)
    ensures OverdueIds(after, r, since) <= OverdueIds(before, r, since)
  {
  }

  lemma {:induction false} SpanOnlyTakes(chain: seq<seq<HostEvent>>, rules: seq<Rule>, now: int, lo: nat, hi: nat, r: Rule, since: int)
    requires Chain(chain, rules, now) && lo <= hi <= |rules| && WellFormed(chain[lo])
    ensures WellFormed(chain[hi]) && OverdueIds(chain[hi], r, since) <= OverdueIds(chain[lo], r, since)
  {
    if lo < hi {
      SpanOnlyTakes(chain, rules, now, lo, hi - 1, r, since);
      ChainAt(chain, rules, now, hi - 1);
      RuleOnlyTakes(chain[hi - 1], rules[hi - 1], now, chain[hi], r, since);
    }
  }

  lemma SubsetSize(a: set<nat>, b: set<nat>)
    requires a <= b
    ensures |a| <= |b|
  {
    assert |b| == |a| + |b - a| by { assert b == a + (b - a); }
  }

  /** One rule's own turn, at its place among the others, drains at least ten of its backlog. */
  lemma RuleDrainsTen(before: seq<HostEvent>, r: Rule, now: int, after: seq<HostEvent>, since: int)
    requires WellFormed(before) && RuleChecked(before, r, now, after) && r.retryCount >= 1 && since <= Threshold(r, now)
    ensures WellFormed(after)
    ensures Backlog(after, r, since) == Backlog(before, r, since) - Min(BATCH, Backlog(before, r, since))
  {
    var done := RuleAcknowledgesOldest(before, r, now, after);
    EarlyOrDone(before, r, now, since, done);
    AcknowledgedNotOverdue(before, after, done, r, since);
    OldestFirst(OverdueIds(before, r, since), OverdueIds(before, r, Threshold(r, now)), done);
  }

  lemma EarlyOrDone(before: seq<HostEvent>, r: Rule, now: int, since: int, done: set<nat>)
    requires since <= Threshold(r, now) && done <= OverdueIds(before, r, Threshold(r, now))
    requires forall i, j :: i in done && j in OverdueIds(before, r, Threshold(r, now)) - done ==> before[i].createdAt <= before[j].createdAt
    ensures OverdueIds(before, r, since) <= done || done <= OverdueIds(before, r, since)
  {
    var early := OverdueIds(before, r, since);
    if i :| i in early && i !in done {
      forall j | j in done
        ensures j in early
      {
        assert before[j].createdAt <= before[i].createdAt;
      }
    }
  }

  /** Whatever other rules are enabled, a check leaves at least ten fewer of an enabled rule's backlog, or none. */
  lemma AnyCheckDrainsTen(before: seq<HostEvent>, rules: seq<Rule>, r: Rule, now: int, after: seq<HostEvent>, since: int)
    requires WellFormed(before) && Checked(before, rules, now, after)
    requires r in rules && r.enabled && r.retryCount >= 1 && since <= Threshold(r, now)
    ensures WellFormed(after)
    ensures Backlog(after, r, since) <= Backlog(before, r, since) - Min(BATCH, Backlog(before, r, since))
  {
    var chain :| Chain(chain, rules, now) && chain[0] == before && chain[|rules|] == after;
    var n :| 0 <= n < |rules| && rules[n] == r;
    SpanOnlyTakes(chain, rules, now, 0, n, r, since);
    SubsetSize(OverdueIds(chain[n], r, since), OverdueIds(before, r, since));
    ChainAt(chain, rules, now, n);
    RuleDrainsTen(chain[n], r, now, chain[n + 1], since);
    SpanOnlyTakes(chain, rules, now, n + 1, |rules|, r, since);
    SubsetSize(OverdueIds(after, r, since), OverdueIds(chain[n + 1], r, since));
  }

  /** Consecutive checks with any rules among which `r` is enabled, each no earlier than the time `since` was overdue. */
  ghost predicate MixedChecks(tables: seq<seq<HostEvent>>, ops: seq<Op>, r: Rule, since: int) {
    && |tables| == |ops| + 1 && WellFormed(tables[0]) && r.enabled && r.retryCount >= 1
    && forall i: nat :: i < |ops| ==> MixedAt(tables, ops, r, since, i)
  }

  ghost predicate MixedAt(tables: seq<seq<HostEvent>>, ops: seq<Op>, r: Rule, since: int, i: nat)
    requires i < |ops| < |tables|
  {
    ops[i].Check? && r in ops[i].rules && since <= Threshold(r, ops[i].now)
    && Checked(tables[i], ops[i].rules, ops[i].now, tables[i + 1])
  }

  /** With several enabled rules each backlog of k is still fully acknowledged after ceil(k / 10) checks, if not before. */
  lemma {:induction false} MixedBacklogDrained(tables: seq<seq<HostEvent>>, ops: seq<Op>, r: Rule, since: int, n: nat)
    requires MixedChecks(tables, ops, r, since) && n < |tables|
    ensures WellFormed(tables[n])
    ensures var k := Backlog(tables[0], r, since);
            Backlog(tables[n], r, since) <= (if k <= BATCH * n then 0 else k - BATCH * n)
            && (n >= (k + BATCH - 1) / BATCH ==> OverdueIds(tables[n], r, since) == {})
  {
    if n > 0 {
      MixedBacklogDrained(tables, ops, r, since, n - 1);
      assert MixedAt(tables, ops, r, since, n - 1);
      AnyCheckDrainsTen(tables[n - 1], ops[n - 1].rules, r, ops[n - 1].now, tables[n], since);
    }
  }

  // ---------------------------------------------------------------- which alerts a check may take

  /** Some enabled rule is for this alert, and the alert has waited longer than the rule says. */
  ghost predicate Warranted(e: HostEvent, rules: seq<Rule>, now: int) {
    exists r :: r in rules && r.enabled && r.tenant == e.tenant && r.triggerLevel == e.level
                && e.createdAt + r.notifyAfterMin * 60_000 < now
  }

  /** The row was acknowledged since, as an alert that some enabled rule warrants. */
  ghost predicate NewlyAcknowledged(start: seq<HostEvent>, after: seq<HostEvent>, rules: seq<Rule>, now: int, i: nat)
    requires i < |start| <= |after|
  {
    && start[i].kind == "alert" && !start[i].acknowledged && Warranted(start[i], rules, now)
    && after[i] == start[i].(acknowledged := true)
  }

  /** The row was written for that alert. */
  ghost predicate WrittenFor(e: HostEvent, alert: HostEvent, now: int) {
    && e.kind == "escalation" && e.level == "critical" && e.tenant == alert.tenant && e.host == alert.host
    && e.createdAt == now && !e.acknowledged
    && e.message == "ALERT #" + (Decimal(alert.id) + (" ESCALATED (level: " + alert.level + " -> " + EscalateLevel(alert.level) + ")"))
  }

  /** Every old row is as it was or newly acknowledged, and every new one was written for a newly acknowledged alert. */
  ghost predicate Explained(start: seq<HostEvent>, rules: seq<Rule>, now: int, after: seq<HostEvent>) {
    && |start| <= |after|
    && (forall i: nat :: i < |start| ==> after[i] == start[i] || NewlyAcknowledged(start, after, rules, now, i))
    && (forall j: nat :: |start| <= j < |after| ==> HasAlert(start, after, rules, now, j))
  }

  ghost predicate HasAlert(start: seq<HostEvent>, after: seq<HostEvent>, rules: seq<Rule>, now: int, j: nat)
    requires |start| <= |after| && j < |after|
  {
    after[j].kind == "escalation"
    && exists i: nat :: i < |start| && NewlyAcknowledged(start, after, rules, now, i) && WrittenFor(after[j], start[i], now)
  }

  lemma MessageReads(e: HostEvent)
    ensures EscalationMessage(e)
         == "ALERT #" + (Decimal(e.id) + (" ESCALATED (level: " + e.level + " -> " + EscalateLevel(e.level) + ")"))
  {
    assert " " + LevelChange(e.level) == " ESCALATED (level: " + e.level + " -> " + EscalateLevel(e.level) + ")";
  }

  /** Levels rise by one step, and critical stays. */
  lemma LevelsRise()
    ensures EscalateLevel("info") == "warning" && EscalateLevel("warning") == "critical" && EscalateLevel("critical") == "critical"
    ensures forall level :: level != "info" && level != "warning" ==> EscalateLevel(level) == level
    ensures Decimal(0) == "0" && Decimal(120) == "120"
  {
    assert Decimal(12) == Decimal(1) + ["0123456789"[2]] == "12";
    assert Decimal(120) == Decimal(12) + ["0123456789"[0]] == "120";
  }

  lemma PickExplained(start: seq<HostEvent>, rules: seq<Rule>, now: int, mid: seq<HostEvent>, i: nat, r: Rule)
    requires Explained(start, rules, now, mid) && i < |mid| && mid[i].kind == "alert" && !mid[i].acknowledged
    requires r in rules && r.enabled && r.tenant == mid[i].tenant && r.triggerLevel == mid[i].level
    requires mid[i].createdAt + r.notifyAfterMin * 60_000 < now
    ensures Explained(start, rules, now, AfterPick(mid, i, r, now))
  {
    var after := AfterPick(mid, i, r, now);
    if after != mid {
      assert i >= |start| ==> HasAlert(start, mid, rules, now, i);
      assert i < |start| && mid[i] == start[i];
      assert NewlyAcknowledged(start, after, rules, now, i);
      MessageReads(start[i]);
      assert WrittenFor(after[|mid|], start[i], now);
      forall j: nat | |start| <= j < |after|
        ensures HasAlert(start, after, rules, now, j)
      {
        if j < |mid| { AlertStays(start, mid, after, rules, now, i, j); }
      }
      forall k: nat | k < |start|
        ensures after[k] == start[k] || NewlyAcknowledged(start, after, rules, now, k)
      {
        if k != i { assert after[k] == mid[k]; }
      }
    }
  }

  lemma AlertStays(start: seq<HostEvent>, mid: seq<HostEvent>, after: seq<HostEvent>, rules: seq<Rule>, now: int, i: nat, j: nat)
    requires |start| <= |mid| <= |after| && |start| <= j < |mid| && i < |start| && mid[i] == start[i] && !start[i].acknowledged
    requires HasAlert(start, mid, rules, now, j)
    requires forall k: nat :: k < |mid| && k != i ==> after[k] == mid[k]
    ensures HasAlert(start, after, rules, now, j)
  {
    var k: nat :| k < |start| && NewlyAcknowledged(start, mid, rules, now, k) && WrittenFor(mid[j], start[k], now);
    assert k != i;
    assert NewlyAcknowledged(start, after, rules, now, k);
  }

  /** The picks still to be worked through are due in their original fields. */
  ghost predicate PicksDue(events: seq<HostEvent>, picks: seq<nat>, r: Rule, now: int) {
    && (forall j, k :: 0 <= j < k < |picks| ==> picks[j] != picks[k])
    && forall k :: 0 <= k < |picks| ==>
         picks[k] < |events| && DueFor(events[picks[k]], r) && events[picks[k]].createdAt + r.notifyAfterMin * 60_000 < now
  }

  lemma {:induction false} PicksExplained(start: seq<HostEvent>, rules: seq<Rule>, now: int, mid: seq<HostEvent>, picks: seq<nat>, r: Rule)
    requires Explained(start, rules, now, mid) && r in rules && r.enabled && PicksDue(mid, picks, r, now)
    ensures Explained(start, rules, now, AfterPicks(mid, picks, r, now))
    ensures forall i: nat :: i < |mid| && i !in picks ==> AfterPicks(mid, picks, r, now)[i] == mid[i]
  {
    if picks != [] {
      var init, last := picks[..|picks| - 1], picks[|picks| - 1];
      PicksExplained(start, rules, now, mid, init, r);
      assert last !in init && picks == init + [last];
      var next := AfterPicks(mid, init, r, now);
      assert next[last] == mid[last];
      PickExplained(start, rules, now, next, last, r);
      PickLeavesOthers(next, last, r, now);
    }
  }

  lemma PickLeavesOthers(events: seq<HostEvent>, i: nat, r: Rule, now: int)
    requires i < |events|
    ensures forall k: nat :: k < |events| && k != i ==> AfterPick(events, i, r, now)[k] == events[k]
  {
  }

  lemma RuleExplained(start: seq<HostEvent>, rules: seq<Rule>, now: int, mid: seq<HostEvent>, r: Rule, after: seq<HostEvent>)
    requires Explained(start, rules, now, mid) && r in rules && RuleStep(mid, r, now, after)
    ensures Explained(start, rules, now, after)
  {
    if r.enabled {
      var picks :|
        && Oldest(mid, OverdueIds(mid, r, Threshold(r, now)), picks)
        && (forall k :: 0 <= k < |picks| ==> picks[k] < |mid|)
        && after == AfterPicks(mid, picks, r, now);
      PicksExplained(start, rules, now, mid, picks, r);
    }
  }

  lemma {:induction false} ChainExplained(chain: seq<seq<HostEvent>>, rules: seq<Rule>, now: int, n: nat)
    requires Chain(chain, rules, now) && n <= |rules|
    ensures Explained(chain[0], rules, now, chain[n])
  {
    if n > 0 {
      ChainExplained(chain, rules, now, n - 1);
      ChainAt(chain, rules, now, n - 1);
      RuleExplained(chain[0], rules, now, chain[n - 1], rules[n - 1], chain[n]);
    }
  }

  /**
   * Every check, with any rules and from any table: a row it acknowledges is an unacknowledged alert for which
   * some enabled rule has the row's own tenant and level and has waited long enough, and every row it adds is
   * an escalation of such an alert, for the alert's own tenant and host. Nothing else changes.
   */
  lemma CheckTakesOnlyWarranted(before: seq<HostEvent>, rules: seq<Rule>, now: int, after: seq<HostEvent>)
    requires Checked(before, rules, now, after)
    ensures Explained(before, rules, now, after)
  {
    var chain :| Chain(chain, rules, now) && chain[0] == before && chain[|rules|] == after;
    ChainExplained(chain, rules, now, |rules|);
  }

  lemma DueInFields(events: seq<HostEvent>, r: Rule, now: int)
    ensures OverdueIds(events, r, Threshold(r, now))
         == set i | 0 <= i < |events| && DueFor(events[i], r) && events[i].createdAt + r.notifyAfterMin * 60_000 < now
  {
  }

  /** Conversely, with a single enabled rule and at most ten alerts that it warrants, all of them are acknowledged. */
  lemma CheckTakesAllWarranted(before: seq<HostEvent>, rules: seq<Rule>, r: Rule, now: int, after: seq<HostEvent>)
    requires WellFormed(before) && Checked(before, rules, now, after) && OnlyRule(rules, r)
    requires |set i | 0 <= i < |before| && DueFor(before[i], r) && before[i].createdAt + r.notifyAfterMin * 60_000 < now| <= 10
    ensures |after| >= |before|
    ensures forall i: nat :: i < |before| && DueFor(before[i], r) && before[i].createdAt + r.notifyAfterMin * 60_000 < now ==>
              after[i] == before[i].(acknowledged := true)
  {
    var done := CheckAcknowledgesOldest(before, rules, r, now, after);
    var due := OverdueIds(before, r, Threshold(r, now));
    DueInFields(before, r, now);
    assert |due| == |done| + |due - done| by { assert due == done + (due - done); }
    assert due - done == {};
    forall i: nat | i < |before| && DueFor(before[i], r) && before[i].createdAt + r.notifyAfterMin * 60_000 < now
      ensures after[i] == before[i].(acknowledged := true)
    {
      assert i in due;
      assert i in done;
    }
  }
}
