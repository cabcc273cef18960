/** The per-IP request limiter and login lockout: server/controllers/login_lockout.go. Times are in milliseconds. */
module RateLimit {
  const WINDOW: int := 60_000
  const SECOND: int := 1_000

  /** rateCounters and rateWindows. */
  datatype Limiter = Limiter(counters: map<string, int>, windows: map<string, int>)

  ghost predicate SameKeys(l: Limiter) {
    l.counters.Keys == l.windows.Keys
  }

  predicate OpensWindow(l: Limiter, ip: string, now: int) {
    ip !in l.windows || now - l.windows[ip] > WINDOW
  }

  function AfterCheck(l: Limiter, ip: string, max: int, now: int): Limiter
    requires SameKeys(l)
  {
    if max <= 0 then l
    else if OpensWindow(l, ip, now) then Limiter(l.counters[ip := 1], l.windows[ip := now])
    else l.(counters := l.counters[ip := l.counters[ip] + 1])
  }

  predicate Allowed(l: Limiter, ip: string, max: int, now: int)
    requires SameKeys(l)
  {
    max <= 0 || OpensWindow(l, ip, now) || l.counters[ip] + 1 <= max
  }

  class RateLimiter {
    var counters: map<string, int>
    var windows: map<string, int>

    ghost function Value(): Limiter
      reads this
    {
      Limiter(counters, windows)
    }

    ghost predicate Valid()
      reads this
    {
      SameKeys(Value())
    }

    constructor ()
      ensures Valid() && Value() == Limiter(map[], map[])
    {
      counters, windows := map[], map[];
    }

    method CheckRateLimit(ip: string, maxPerMin: int, now: int) returns (allowed: bool)
      requires Valid()
      modifies this
      ensures Valid() && Value() == AfterCheck(old(Value()), ip, maxPerMin, now)
      ensures allowed == Allowed(old(Value()), ip, maxPerMin, now)
      ensures maxPerMin <= 0 ==> allowed && counters == old(counters) && windows == old(windows)
      ensures maxPerMin > 0 && (ip !in old(windows) || now - old(windows)[ip] > 60_000) ==>
                allowed && counters == old(counters)[ip := 1] && windows == old(windows)[ip := now]
      ensures maxPerMin > 0 && ip in old(windows) && now - old(windows)[ip] <= 60_000 ==>
                counters == old(counters)[ip := old(counters)[ip] + 1] && windows == old(windows)
                && (allowed <==> counters[ip] <= maxPerMin)
    {
      if maxPerMin <= 0 {
        return true;
      }
      if ip !in windows || now - windows[ip] > WINDOW {
        counters := counters[ip := 1];
        windows := windows[ip := now];
        return true;
      }
      counters := counters[ip := counters[ip] + 1];
      return counters[ip] <= maxPerMin;
    }

    method ResetRateLimit(ip: string)
      requires Valid()
      modifies this
      ensures Valid() && Value() == Limiter(old(counters) - {ip}, old(windows) - {ip})
    {
      counters := counters - {ip};
      windows := windows - {ip};
    }
  }

  // ---------------------------------------------------------------- the rate bound

  datatype Request = Request(ip: string, now: int)

  /** A monotone clock. */
  ghost predicate Timely(reqs: seq<Request>) {
    forall i, j :: 0 <= i < j < |reqs| ==> reqs[i].now <= reqs[j].now
  }

  /** The limiter after a list of checks with a fixed maximum and no resets. */
  function After(reqs: seq<Request>, max: int): (l: Limiter)
    ensures SameKeys(l)
  {
    if reqs == [] then Limiter(map[], map[])
    else AfterCheck(After(reqs[..|reqs| - 1], max), reqs[|reqs| - 1].ip, max, reqs[|reqs| - 1].now)
  }

  /** How many requests of `ip` between `from` and a window later were allowed. */
  function AllowedBetween(reqs: seq<Request>, max: int, ip: string, from: int): nat {
    if reqs == [] then 0
    else
      var before := reqs[..|reqs| - 1];
      var r := reqs[|reqs| - 1];
      AllowedBetween(before, max, ip, from)
      + if r.ip == ip && from <= r.now <= from + WINDOW && Allowed(After(before, max), ip, max, r.now) then 1 else 0
  }

  /** Of those, the ones allowed in the limiter window that is current at the end. */
  function AllowedInCurrent(reqs: seq<Request>, max: int, ip: string, from: int): nat {
    if reqs == [] then 0
    else
      var before := reqs[..|reqs| - 1];
      var r := reqs[|reqs| - 1];
      var l := After(before, max);
      var one := if from <= r.now <= from + WINDOW && Allowed(l, ip, max, r.now) then 1 else 0;
      if r.ip != ip then AllowedInCurrent(before, max, ip, from)
      else if OpensWindow(l, ip, r.now) then one
      else AllowedInCurrent(before, max, ip, from) + one
  }

  ghost predicate Bounded(reqs: seq<Request>, max: int, ip: string, from: int) {
    var l := After(reqs, max);
    var all, current := AllowedBetween(reqs, max, ip, from), AllowedInCurrent(reqs, max, ip, from);
    && (all > 0 ==> reqs != [] && reqs[|reqs| - 1].now >= from)
    && if ip !in l.windows then all == 0
    else
      var w, c := l.windows[ip], l.counters[ip];
      && c >= 1 && current <= all <= 2 * max - 1
      && current <= max && current + (if w < from then 1 else 0) <= c
      && (w < from ==> all == current <= max - 1)
      && (w <= from + WINDOW ==> all - current <= max - 1)
      && exists i :: 0 <= i < |reqs| && reqs[i].now == w
  }

  lemma {:induction false} BoundHolds(reqs: seq<Request>, max: int, ip: string, from: int)
    requires max >= 1 && Timely(reqs)
    ensures Bounded(reqs, max, ip, from)
  {
    if reqs != [] {
      var before := reqs[..|reqs| - 1];
      var r := reqs[|reqs| - 1];
      BoundHolds(before, max, ip, from);
      BoundStep(before, r, max, ip, from);
      assert reqs == before + [r];
    }
  }

  lemma BoundStep(before: seq<Request>, r: Request, max: int, ip: string, from: int)
    requires max >= 1 && Timely(before + [r]) && Bounded(before, max, ip, from)
    ensures Bounded(before + [r], max, ip, from)
  {
    var reqs := before + [r];
    assert reqs[..|reqs| - 1] == before && reqs[|reqs| - 1] == r;
    var l := After(before, max);
    if ip in l.windows {
      var i :| 0 <= i < |before| && before[i].now == l.windows[ip];
      assert reqs[i].now == l.windows[ip];
      assert reqs[i].now <= reqs[|before|].now;
    }
    assert reqs[|before|].now == r.now;
    if before != [] { assert reqs[|before| - 1] == before[|before| - 1]; }
    assert r.ip != ip ==> (ip in After(reqs, max).windows <==> ip in l.windows);
  }

  /**
   * The rate bound: with a fixed maximum m >= 1, a monotone clock and no resets, at most 2m - 1
   * requests of one IP are allowed in any interval of sixty seconds.
   */
  lemma AtMostTwiceTheMaximum(reqs: seq<Request>, max: int, ip: string, from: int)
    requires max >= 1 && Timely(reqs)
    ensures AllowedBetween(reqs, max, ip, from) <= 2 * max - 1
  {
    BoundHolds(reqs, max, ip, from);
  }

  function Burst(ip: string, now: int, k: nat): (b: seq<Request>)
    ensures |b| == k && forall i :: 0 <= i < k ==> b[i] == Request(ip, now)
  {
    if k == 0 then [] else Burst(ip, now, k - 1) + [Request(ip, now)]
  }

  /** The address's current window opened at `w` and holds `c` requests. */
  ghost predicate InWindow(reqs: seq<Request>, max: int, ip: string, w: int, c: int) {
    var l := After(reqs, max);
    ip in l.windows && l.windows[ip] == w && l.counters[ip] == c
  }

  lemma OneMoreAllowed(reqs: seq<Request>, max: int, ip: string, from: int, now: int, w: int, c: int)
    requires max >= 1 && from <= now <= from + WINDOW
    requires InWindow(reqs, max, ip, w, c) && now - w <= WINDOW && c + 1 <= max
    ensures InWindow(reqs + [Request(ip, now)], max, ip, w, c + 1)
    ensures AllowedBetween(reqs + [Request(ip, now)], max, ip, from) == AllowedBetween(reqs, max, ip, from) + 1
  {
    var all := reqs + [Request(ip, now)];
    assert all[..|all| - 1] == reqs;
  }

  /** As long as the counter stays within the maximum, a burst inside the open window is allowed whole. */
  lemma {:induction false} BurstAllowed(reqs: seq<Request>, max: int, ip: string, from: int, now: int, k: nat, w: int, c: int)
    requires max >= 1 && from <= now <= from + WINDOW
    requires InWindow(reqs, max, ip, w, c) && now - w <= WINDOW && c + k <= max
    ensures InWindow(reqs + Burst(ip, now, k), max, ip, w, c + k)
    ensures AllowedBetween(reqs + Burst(ip, now, k), max, ip, from) == AllowedBetween(reqs, max, ip, from) + k
  {
    var all := reqs + Burst(ip, now, k);
    if k == 0 {
      assert all == reqs;
    } else {
      var before := reqs + Burst(ip, now, k - 1);
      BurstAllowed(reqs, max, ip, from, now, k - 1, w, c);
      OneMoreAllowed(before, max, ip, from, now, w, c + k - 1);
      assert all == before + [Request(ip, now)];
    }
  }

  /** A request that opens a window is allowed and starts the count at one. */
  lemma OpeningAllowed(reqs: seq<Request>, max: int, ip: string, from: int, now: int)
    requires max >= 1 && OpensWindow(After(reqs, max), ip, now)
    ensures InWindow(reqs + [Request(ip, now)], max, ip, now, 1)
    ensures AllowedBetween(reqs + [Request(ip, now)], max, ip, from)
         == AllowedBetween(reqs, max, ip, from) + if from <= now <= from + WINDOW then 1 else 0
  {
    var all := reqs + [Request(ip, now)];
    assert all[..|all| - 1] == reqs;
  }

  lemma LaterKeepsTimely(reqs: seq<Request>, more: seq<Request>, t: int, now: int)
    requires Timely(reqs) && t <= now && forall i :: 0 <= i < |reqs| ==> reqs[i].now <= t
    requires forall i :: 0 <= i < |more| ==> more[i].now == now
    ensures Timely(reqs + more) && forall i :: 0 <= i < |reqs + more| ==> (reqs + more)[i].now <= now
  {
  }

  /** The bound is exact for every maximum: one early request, m - 1 at the window's end, m just after it. */
  lemma BoundAttained(max: int, ip: string) returns (reqs: seq<Request>, from: int)
    requires max >= 1
    ensures Timely(reqs) && AllowedBetween(reqs, max, ip, from) == 2 * max - 1
  {
    from := WINDOW;
    var first: seq<Request> := [] + [Request(ip, 0)];
    OpeningAllowed([], max, ip, from, 0);
    var atEnd := Burst(ip, WINDOW, max - 1);
    BurstAllowed(first, max, ip, from, WINDOW, max - 1, 0, 1);
    LaterKeepsTimely(first, atEnd, 0, WINDOW);
    reqs := SecondWindow(first + atEnd, max, ip, from, WINDOW + 1);
  }

  /** A whole maximum more, at one instant, once a window has passed. */
  lemma SecondWindow(reqs: seq<Request>, max: int, ip: string, from: int, now: int) returns (all: seq<Request>)
    requires max >= 1 && from <= now <= from + WINDOW && OpensWindow(After(reqs, max), ip, now)
    requires Timely(reqs) && forall i :: 0 <= i < |reqs| ==> reqs[i].now <= now
    ensures Timely(all) && AllowedBetween(all, max, ip, from) == AllowedBetween(reqs, max, ip, from) + max
  {
    WindowAllowed(reqs, max, ip, from, now);
    var opening, more := [Request(ip, now)], Burst(ip, now, max - 1);
    LaterKeepsTimely(reqs, opening, now, now);
    LaterKeepsTimely(reqs + opening, more, now, now);
    all := reqs + opening + more;
  }

  lemma WindowAllowed(reqs: seq<Request>, max: int, ip: string, from: int, now: int)
    requires max >= 1 && from <= now <= from + WINDOW && OpensWindow(After(reqs, max), ip, now)
    ensures AllowedBetween(reqs + [Request(ip, now)] + Burst(ip, now, max - 1), max, ip, from)
         == AllowedBetween(reqs, max, ip, from) + max
  {
    var next, more := reqs + [Request(ip, now)], max - 1;
    OpeningAllowed(reqs, max, ip, from, now);
    assert AllowedBetween(next, max, ip, from) == AllowedBetween(reqs, max, ip, from) + 1;
    BurstAllowed(next, max, ip, from, now, more, now, 1);
    assert AllowedBetween(next + Burst(ip, now, more), max, ip, from) == AllowedBetween(next, max, ip, from) + more;
  }

  // ---------------------------------------------------------------- login lockout

  datatype Attempt = Attempt(count: nat, lastFail: int)

  type Attempts = map<string, Attempt>

  predicate Lapsed(a: Attempt, seconds: int, now: int) {
    now - a.lastFail > seconds * SECOND
  }

  predicate Locked(t: Attempts, ip: string, max: int, seconds: int, now: int) {
    ip in t && !Lapsed(t[ip], seconds, now) && t[ip].count >= max
  }

  function AfterLockoutCheck(t: Attempts, ip: string, seconds: int, now: int): Attempts {
    if ip in t && Lapsed(t[ip], seconds, now) then t - {ip} else t
  }

  function AfterFailure(t: Attempts, ip: string, now: int): Attempts {
    t[ip := Attempt((if ip in t then t[ip].count else 0) + 1, now)]
  }

  function AfterClean(t: Attempts, seconds: int, now: int): Attempts {
    map ip | ip in t && !Lapsed(t[ip], seconds, now) :: t[ip]
  }

  class LoginLockout {
    var failedAttempts: Attempts

    method CheckLoginLockout(ip: string, maxAttempts: int, lockoutSec: int, now: int) returns (locked: bool)
      modifies this
      ensures locked == Locked(old(failedAttempts), ip, maxAttempts, lockoutSec, now)
      ensures failedAttempts == AfterLockoutCheck(old(failedAttempts), ip, lockoutSec, now)
      ensures locked <==> ip in old(failedAttempts) && old(failedAttempts)[ip].count >= maxAttempts
                          && now - old(failedAttempts)[ip].lastFail <= lockoutSec * 1_000
      ensures failedAttempts == if ip in old(failedAttempts) && now - old(failedAttempts)[ip].lastFail > lockoutSec * 1_000
                                then old(failedAttempts) - {ip} else old(failedAttempts)
    {
      if ip !in failedAttempts {
        return false;
      }
      var attempt := failedAttempts[ip];
      if now - attempt.lastFail > lockoutSec * SECOND {
        failedAttempts := failedAttempts - {ip};
        return false;
      }
      return attempt.count >= maxAttempts;
    }

    method RecordLoginFailure(ip: string, now: int)
      modifies this
      ensures failedAttempts == AfterFailure(old(failedAttempts), ip, now)
      ensures failedAttempts == old(failedAttempts)[ip := Attempt(1 + if ip in old(failedAttempts) then old(failedAttempts)[ip].count else 0, now)]
    {
      var attempt := Attempt(0, 0);
      if ip in failedAttempts {
        attempt := failedAttempts[ip];
      }
      failedAttempts := failedAttempts[ip := Attempt(attempt.count + 1, now)];
    }

    method CleanExpiredAttempts(lockoutSec: int, now: int)
      modifies this
      ensures failedAttempts == AfterClean(old(failedAttempts), lockoutSec, now)
      ensures forall ip :: ip in failedAttempts <==> ip in old(failedAttempts) && now - old(failedAttempts)[ip].lastFail <= lockoutSec * 1_000
      ensures forall ip :: ip in failedAttempts ==> failedAttempts[ip] == old(failedAttempts)[ip]
    {
      var todo := failedAttempts.Keys;
      while todo != {}
        invariant todo <= failedAttempts.Keys <= old(failedAttempts).Keys
        invariant forall ip :: ip in failedAttempts ==> failedAttempts[ip] == old(failedAttempts)[ip]
        invariant forall ip :: ip in old(failedAttempts) && ip !in todo ==>
                    (ip in failedAttempts <==> !Lapsed(old(failedAttempts)[ip], lockoutSec, now))
        decreases |todo|
      {
        var ip :| ip in todo;
        if now - failedAttempts[ip].lastFail > lockoutSec * SECOND {
          failedAttempts := failedAttempts - {ip};
        }
        todo := todo - {ip};
      }
      assert failedAttempts == AfterClean(old(failedAttempts), lockoutSec, now);
    }
  }

  /** A login attempt, its password wrong or right, or a run of the periodic cleaner. */
  datatype Event = Login(ip: string, now: int, wrong: bool) | Clean(cleanNow: int)

  function Time(e: Event): int {
    match e
    case Login(_, now, _) => now
    case Clean(now) => now
  }

  /** LoginHandler checks first; a locked address stops there, a wrong password is recorded, a right one clears. */
  function AfterEvent(t: Attempts, e: Event, max: int, seconds: int, cleanSeconds: int): Attempts {
    match e
    case Login(ip, now, wrong) =>
      var u := AfterLockoutCheck(t, ip, seconds, now);
      if Locked(t, ip, max, seconds, now) then u else if wrong then AfterFailure(u, ip, now) else u - {ip}
    case Clean(now) => AfterClean(t, cleanSeconds, now)
  }

  /** What a login leaves: a locked address stays as it is, a wrong password is recorded, a right one clears the record. */
  lemma LoginLeaves(t: Attempts, ip: string, now: int, wrong: bool, max: int, seconds: int, cleanSeconds: int)
    ensures var after := AfterEvent(t, Login(ip, now, wrong), max, seconds, cleanSeconds);
            var recent := ip in t && now - t[ip].lastFail <= seconds * 1_000;
            && after - {ip} == t - {ip}
            && (recent && t[ip].count >= max ==> ip in after && after[ip] == t[ip])
            && (!(recent && t[ip].count >= max) && wrong ==> ip in after && after[ip] == Attempt((if recent then t[ip].count else 0) + 1, now))
            && (!(recent && t[ip].count >= max) && !wrong ==> ip !in after)
  {
  }

  function Attempted(es: seq<Event>, max: int, seconds: int, cleanSeconds: int): Attempts {
    if es == [] then map[]
    else AfterEvent(Attempted(es[..|es| - 1], max, seconds, cleanSeconds), es[|es| - 1], max, seconds, cleanSeconds)
  }

  function WithoutCleaning(es: seq<Event>): seq<Event> {
    if es == [] then []
    else WithoutCleaning(es[..|es| - 1]) + if es[|es| - 1].Clean? then [] else [es[|es| - 1]]
  }

  /** Both tables agree on every entry that has not lapsed by `now`. */
  ghost predicate Agree(t: Attempts, u: Attempts, seconds: int, now: int) {
    forall ip ::
      && (ip in t && !Lapsed(t[ip], seconds, now) ==> ip in u && u[ip] == t[ip])
      && (ip in u && !Lapsed(u[ip], seconds, now) ==> ip in t && t[ip] == u[ip])
  }

  lemma AgreeStep(t: Attempts, u: Attempts, e: Event, max: int, seconds: int, cleanSeconds: int, now: int)
    requires seconds <= cleanSeconds && Agree(t, u, seconds, now) && now <= Time(e)
    ensures Agree(AfterEvent(t, e, max, seconds, cleanSeconds),
                  if e.Clean? then u else AfterEvent(u, e, max, seconds, cleanSeconds), seconds, Time(e))
    ensures e.Login? ==> Locked(t, e.ip, max, seconds, e.now) == Locked(u, e.ip, max, seconds, e.now)
  {
  }

  lemma {:induction false} CleaningAgrees(es: seq<Event>, max: int, seconds: int, cleanSeconds: int, now: int)
    requires seconds <= cleanSeconds
    requires forall i, j :: 0 <= i < j < |es| ==> Time(es[i]) <= Time(es[j])
    requires forall i :: 0 <= i < |es| ==> Time(es[i]) <= now
    ensures Agree(Attempted(es, max, seconds, cleanSeconds),
                  Attempted(WithoutCleaning(es), max, seconds, cleanSeconds), seconds, now)
  {
    if es != [] {
      var init, e := es[..|es| - 1], es[|es| - 1];
      CleaningAgrees(init, max, seconds, cleanSeconds, Time(e));
      AgreeStep(Attempted(init, max, seconds, cleanSeconds), Attempted(WithoutCleaning(init), max, seconds, cleanSeconds),
                e, max, seconds, cleanSeconds, Time(e));
      if e.Login? {
        assert WithoutCleaning(es)[..|WithoutCleaning(es)| - 1] == WithoutCleaning(init);
      } else {
        assert WithoutCleaning(es) == WithoutCleaning(init);
      }
    }
  }

  /** Events in time order, none after `now`. */
  ghost predicate InOrder(es: seq<Event>, now: int) {
    && (forall i, j :: 0 <= i < j < |es| ==> Time(es[i]) <= Time(es[j]))
    && (forall i :: 0 <= i < |es| ==> Time(es[i]) <= now)
  }

  /** At `now` the address is locked exactly when it would be had nothing been cleaned. */
  ghost predicate VerdictKept(es: seq<Event>, max: int, seconds: int, cleanSeconds: int, ip: string, now: int) {
    Locked(Attempted(es, max, seconds, cleanSeconds), ip, max, seconds, now) <==>
    Locked(Attempted(WithoutCleaning(es), max, seconds, cleanSeconds), ip, max, seconds, now)
  }

  /** Cleaning with a threshold no shorter than the lockout never changes a verdict. */
  lemma CleaningInvisible(es: seq<Event>, max: int, seconds: int, cleanSeconds: int, ip: string, now: int)
    requires seconds <= cleanSeconds && InOrder(es, now)
    ensures VerdictKept(es, max, seconds, cleanSeconds, ip, now)
  {
    CleaningAgrees(es, max, seconds, cleanSeconds, now);
  }

  /** `k` wrong passwords from one address at time 0. */
  function WrongLogins(ip: string, k: nat): (es: seq<Event>)
    ensures |es| == k && forall i :: 0 <= i < k ==> es[i] == Login(ip, 0, true)
  {
    if k == 0 then [] else WrongLogins(ip, k - 1) + [Login(ip, 0, true)]
  }

  function Counted(ip: string, k: nat): Attempts {
    if k == 0 then map[] else map[ip := Attempt(k, 0)]
  }

  lemma OneMoreWrong(ip: string, k: nat, max: int, seconds: int, cleanSeconds: int)
    requires k < max && 0 <= seconds
    ensures AfterEvent(Counted(ip, k), Login(ip, 0, true), max, seconds, cleanSeconds) == Counted(ip, k + 1)
  {
  }

  lemma WrongLoginCounts(es: seq<Event>, ip: string, k: nat, max: int, seconds: int, cleanSeconds: int)
    requires k < max && 0 <= seconds && Attempted(es, max, seconds, cleanSeconds) == Counted(ip, k)
    ensures Attempted(es + [Login(ip, 0, true)], max, seconds, cleanSeconds) == Counted(ip, k + 1)
  {
    var e := Login(ip, 0, true);
    assert (es + [e])[..|es|] == es;
    OneMoreWrong(ip, k, max, seconds, cleanSeconds);
  }

  lemma {:induction false} WrongLoginsCount(ip: string, k: nat, max: int, seconds: int, cleanSeconds: int)
    requires k <= max && 0 <= seconds
    ensures Attempted(WrongLogins(ip, k), max, seconds, cleanSeconds) == Counted(ip, k)
  {
    if k > 0 {
      var before := WrongLogins(ip, k - 1);
      assert WrongLogins(ip, k) == before + [Login(ip, 0, true)];
      WrongLoginsCount(ip, k - 1, max, seconds, cleanSeconds);
      WrongLoginCounts(before, ip, k - 1, max, seconds, cleanSeconds);
    }
  }

  lemma {:induction false} LoginsAreNotCleaned(ip: string, k: nat)
    ensures WithoutCleaning(WrongLogins(ip, k)) == WrongLogins(ip, k)
  {
    if k > 0 {
      LoginsAreNotCleaned(ip, k - 1);
      var es := WrongLogins(ip, k);
      assert es[..|es| - 1] == WrongLogins(ip, k - 1);
    }
  }

  /**
   * With any longer lockout (the server cleans with 600 s whatever is configured), and for every maximum,
   * an address that has just been locked is released by a cleaning run before its lockout is over.
   */
  lemma CleaningUnlocksEarly(ip: string, max: int, seconds: int, cleanSeconds: int) returns (es: seq<Event>, now: int)
    requires max >= 1 && 0 <= cleanSeconds < seconds
    ensures InOrder(es, now)
    ensures Locked(Attempted(WithoutCleaning(es), max, seconds, cleanSeconds), ip, max, seconds, now)
    ensures !Locked(Attempted(es, max, seconds, cleanSeconds), ip, max, seconds, now)
  {
    now := cleanSeconds * SECOND + 1;
    var logins := WrongLogins(ip, max);
    WrongLoginsCount(ip, max, max, seconds, cleanSeconds);
    LoginsAreNotCleaned(ip, max);
    es := logins + [Clean(now)];
    assert es[..|es| - 1] == logins;
    assert WithoutCleaning(es) == logins;
    var table := Counted(ip, max);
    assert Attempted(es, max, seconds, cleanSeconds) == AfterClean(table, cleanSeconds, now);
    assert !Lapsed(Attempt(max, 0), seconds, now) && Lapsed(Attempt(max, 0), cleanSeconds, now);
  }

  /** For every maximum the condition is exact: cleaning changes no verdict in any history iff it waits out the lockout. */
  lemma CleaningInvisibleIff(max: int, seconds: int, cleanSeconds: int)
    requires max >= 1 && 0 <= cleanSeconds
    ensures seconds <= cleanSeconds <==>
            forall es, ip, now :: InOrder(es, now) ==> VerdictKept(es, max, seconds, cleanSeconds, ip, now)
  {
    if seconds <= cleanSeconds {
      forall es, ip, now | InOrder(es, now)
        ensures VerdictKept(es, max, seconds, cleanSeconds, ip, now)
      {
        CleaningInvisible(es, max, seconds, cleanSeconds, ip, now);
      }
    } else {
      var es, now := CleaningUnlocksEarly("", max, seconds, cleanSeconds);
      assert !VerdictKept(es, max, seconds, cleanSeconds, "", now);
    }
  }
}
