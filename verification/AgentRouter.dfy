/** The agent's failover router: ClusterRouter in agent/common/router.go. Times are in milliseconds. */
module AgentRouter {
  import opened Addresses

  const MAX_FAILURES: nat := 3
  const BREAK_TIME: int := 60_000

  /** The value of a ClusterRouter with `n` nodes. Missing map keys read as zero. */
  datatype Router = Router(n: nat, index: nat, failCount: map<nat, nat>, successCnt: map<nat, nat>, disabledUntil: map<nat, int>)

  function Get(m: map<nat, nat>, i: nat): nat {
    if i in m then m[i] else 0
  }

  /** A node with three failures always has a time until which it is disabled. */
  ghost predicate WellFormed(r: Router) {
    && r.index < r.n
    && forall i: nat :: i < r.n && Get(r.failCount, i) >= MAX_FAILURES ==> i in r.disabledUntil
  }

  predicate Eligible(r: Router, i: nat, now: int) {
    Get(r.failCount, i) < MAX_FAILURES || (i in r.disabledUntil && now > r.disabledUntil[i])
  }

  /** The node `d` places after the index, cyclically. */
  function Slot(r: Router, d: nat): nat
    requires r.index < r.n && d < r.n
  {
    if r.index + d < r.n then r.index + d else r.index + d - r.n
  }

  function After(r: Router, i: nat): nat
    requires i < r.n
  {
    if i + 1 < r.n then i + 1 else 0
  }

  /** How far ahead of the index a node is. */
  function Distance(r: Router, i: nat): (d: nat)
    requires r.index < r.n && i < r.n
    ensures d < r.n && Slot(r, d) == i
  {
    if i >= r.index then i - r.index else i + r.n - r.index
  }

  /** `i` is the first eligible node at or after the index. */
  ghost predicate FirstEligible(r: Router, i: nat, now: int)
    requires r.index < r.n && i < r.n
  {
    Eligible(r, i, now) && forall d :: 0 <= d < Distance(r, i) ==> !Eligible(r, Slot(r, d), now)
  }

  ghost predicate NoneEligible(r: Router, now: int) {
    forall i: nat :: i < r.n ==> !Eligible(r, i, now)
  }

  /** NextNode chose node `i` and left the router in `r'`. */
  ghost predicate Next(r: Router, now: int, i: nat, r': Router)
    requires WellFormed(r)
  {
    && i < r.n
    && (FirstEligible(r, i, now) || (NoneEligible(r, now) && i == r.index))
    && r' == Moved(r, now, i)
  }

  /** The index moves just past the chosen node, and a broken node that is due again starts afresh. */
  function Moved(r: Router, now: int, i: nat): Router
    requires i < r.n
  {
    r.(index := After(r, i),
       failCount := if Eligible(r, i, now) && Get(r.failCount, i) >= MAX_FAILURES then r.failCount[i := 0] else r.failCount)
  }

  /** RecordSuccess and RecordFailure charge the node at the index. */
  function Succeeded(r: Router): Router {
    r.(failCount := r.failCount[r.index := 0], successCnt := r.successCnt[r.index := Get(r.successCnt, r.index) + 1])
  }

  function Failed(r: Router, now: int): Router {
    var count := Get(r.failCount, r.index) + 1;
    r.(failCount := r.failCount[r.index := count],
       disabledUntil := if count >= MAX_FAILURES then r.disabledUntil[r.index := now + BREAK_TIME] else r.disabledUntil)
  }

  lemma ModOnce(k: nat, n: nat)
    requires 0 < n && k < 2 * n
    ensures k % n == if k < n then k else k - n
  {
    if k >= n {
      assert k == 1 * n + (k - n);
    }
  }

  // ---------------------------------------------------------------- the configured addresses

  /** unicode.IsSpace */
  predicate IsSpace(c: char) {
    || c == ' ' || '\t' <= c <= '\r' || c == '\U{85}' || c == '\U{A0}' || c == '\U{1680}' || '\U{2000}' <= c <= '\U{200A}'
    || c == '\U{2028}' || c == '\U{2029}' || c == '\U{202F}' || c == '\U{205F}' || c == '\U{3000}'
  }

  function TrimSpace(s: string): string {
    if s != "" && IsSpace(s[0]) then TrimSpace(s[1..])
    else if s != "" && IsSpace(s[|s| - 1]) then TrimSpace(s[..|s| - 1])
    else s
  }

  /** strings.Split at commas: always at least one part. */
  function Split(s: string): (parts: seq<string>)
    ensures parts != []
  {
    if s == "" then [""]
    else
      var rest := Split(s[1..]);
      if s[0] == ',' then [""] + rest else [[s[0]] + rest[0]] + rest[1..]
  }

  function AsURL(address: string): string {
    var u := TrimSlash(address);
    if "http" <= u then u else "http://" + u
  }

  /** The non-blank parts, in order. */
  function URLs(parts: seq<string>): seq<string> {
    if parts == [] then []
    else
      var rest := URLs(parts[..|parts| - 1]);
      var u := TrimSpace(parts[|parts| - 1]);
      if u == "" then rest else rest + [AsURL(u)]
  }

  function Configured(serverURLs: string): seq<string> {
    URLs(Split(TrimSpace(serverURLs)))
  }

  lemma {:induction false} SplitHasNoCommas(s: string)
    ensures forall i :: 0 <= i < |Split(s)| ==> ',' !in Split(s)[i]
  {
    if s != "" { SplitHasNoCommas(s[1..]); }
  }

  lemma {:induction false} TrimSpaceKeeps(s: string)
    ensures forall c :: c in TrimSpace(s) ==> c in s
    ensures TrimSpace(s) != "" ==> !IsSpace(TrimSpace(s)[0]) && !IsSpace(TrimSpace(s)[|TrimSpace(s)| - 1])
  {
    if s != "" && IsSpace(s[0]) {
      TrimSpaceKeeps(s[1..]);
    } else if s != "" && IsSpace(s[|s| - 1]) {
      TrimSpaceKeeps(s[..|s| - 1]);
    }
  }

  lemma {:induction false} TrimSlashKeeps(s: string)
    ensures TrimSlash(s) <= s
  {
    if !SlashFree(s) { TrimSlashKeeps(s[..|s| - 1]); }
  }

  /** Every node's address starts with "http", has no comma, and ends in a slash only when nothing but slashes was configured. */
  predicate IsAddress(u: string) {
    "http" <= u && ',' !in u && (SlashFree(u) || u == "http://")
  }

  predicate HasScheme(u: string) {
    "http://" <= u || "https://" <= u
  }

  /**
   * A configured part ends up with a scheme exactly when, its trailing slashes cut, it has one or does not
   * start with "http": "httpserver:8080" stays as it is.
   */
  lemma SchemeIff(address: string)
    ensures HasScheme(AsURL(address)) <==> HasScheme(TrimSlash(address)) || !("http" <= TrimSlash(address))
  {
    var u := TrimSlash(address);
    if !("http" <= u) {
      assert ("http://" + u)[..7] == "http://";
    }
  }

  lemma AsURLIsAddress(address: string)
    requires ',' !in address
    ensures IsAddress(AsURL(address))
  {
    TrimSlashKeeps(address);
    TrimIsSlashFree(address);
    var u := TrimSlash(address);
    if !("http" <= u) && u != "" {
      var r := "http://" + u;
      assert r[|r| - 1] == u[|u| - 1];
    }
  }

  lemma {:induction false} URLsAreAddresses(parts: seq<string>)
    requires forall i :: 0 <= i < |parts| ==> ',' !in parts[i]
    ensures forall i :: 0 <= i < |URLs(parts)| ==> IsAddress(URLs(parts)[i])
  {
    if parts != [] {
      URLsAreAddresses(parts[..|parts| - 1]);
      var last := parts[|parts| - 1];
      TrimSpaceKeeps(last);
      AsURLIsAddress(TrimSpace(last));
    }
  }

  lemma ConfiguredAreAddresses(serverURLs: string)
    ensures forall i :: 0 <= i < |Configured(serverURLs)| ==> IsAddress(Configured(serverURLs)[i])
  {
    SplitHasNoCommas(TrimSpace(serverURLs));
    URLsAreAddresses(Split(TrimSpace(serverURLs)));
  }

  // ---------------------------------------------------------------- every configured host, in order

  function Joined(parts: seq<string>): string {
    if |parts| == 0 then "" else if |parts| == 1 then parts[0] else parts[0] + "," + Joined(parts[1..])
  }

  /** A part as one would write it: not empty, no comma, no white space around it, no slash at the end. */
  ghost predicate IsHost(part: string) {
    && part != "" && ',' !in part && !IsSpace(part[0]) && !IsSpace(part[|part| - 1]) && part[|part| - 1] != '/'
  }

  ghost predicate IsBlank(part: string) {
    forall c :: c in part ==> IsSpace(c)
  }

  ghost predicate AllSlashes(s: string) {
    forall i :: 0 <= i < |s| ==> s[i] == '/'
  }

  /** `part` is `host` with white space around it and slashes after it. */
  ghost predicate Wraps(part: string, host: string) {
    exists lead, slashes, trail :: WrapsAs(part, lead, host, slashes, trail)
  }

  ghost predicate WrapsAs(part: string, lead: string, host: string, slashes: string, trail: string) {
    IsBlank(lead) && AllSlashes(slashes) && IsBlank(trail) && part == lead + host + slashes + trail
  }

  /** `part` gives the node `host`, or is blank and gives none, which "" stands for. */
  ghost predicate PartFor(part: string, host: string) {
    ',' !in part && if host == "" then IsBlank(part) else IsHost(host) && Wraps(part, host)
  }

  /** The addresses of a list of hosts: one for each, with a scheme where "http" is missing. */
  ghost function AddressesOf(hosts: seq<string>): seq<string> {
    if hosts == [] then []
    else if hosts[0] == "" then AddressesOf(hosts[1..])
    else [if "http" <= hosts[0] then hosts[0] else "http://" + hosts[0]] + AddressesOf(hosts[1..])
  }

  /** Where no part is blank that is the list itself, in its order. */
  lemma {:induction false} AddressesInOrder(parts: seq<string>)
    requires forall i :: 0 <= i < |parts| ==> IsHost(parts[i])
    ensures |AddressesOf(parts)| == |parts|
    ensures forall i :: 0 <= i < |parts| ==>
              AddressesOf(parts)[i] == if "http" <= parts[i] then parts[i] else "http://" + parts[i]
  {
    if parts != [] {
      AddressesInOrder(parts[1..]);
    }
  }

  /** Splitting undoes joining. */
  lemma {:induction false} SplitJoined(parts: seq<string>)
    requires parts != [] && forall i :: 0 <= i < |parts| ==> ',' !in parts[i]
    ensures Split(Joined(parts)) == parts
    decreases |parts|
  {
    if |parts| == 1 {
      SplitFirst(parts[0], "");
      assert parts[0] + "" == parts[0];
    } else {
      SplitJoined(parts[1..]);
      SplitAtComma(parts[0], Joined(parts[1..]));
      assert parts[0] + ("," + Joined(parts[1..])) == Joined(parts);
      assert parts == [parts[0]] + parts[1..];
    }
  }

  lemma {:induction false} SplitFirst(part: string, rest: string)
    requires ',' !in part
    ensures Split(part + rest) == [part + Split(rest)[0]] + Split(rest)[1..]
  {
    if part == "" {
      assert part + rest == rest && part + Split(rest)[0] == Split(rest)[0];
      assert Split(rest) == [Split(rest)[0]] + Split(rest)[1..];
    } else {
      SplitFirst(part[1..], rest);
      assert (part + rest)[1..] == part[1..] + rest;
      assert [part[0]] + (part[1..] + Split(rest)[0]) == part + Split(rest)[0];
    }
  }

  lemma SplitAtComma(part: string, rest: string)
    requires ',' !in part
    ensures Split(part + ("," + rest)) == [part] + Split(rest)
  {
    var tail := "," + rest;
    assert tail[1..] == rest;
    assert Split(tail) == [""] + Split(rest);
    SplitFirst(part, tail);
    assert part + "" == part;
  }

  lemma {:induction false} BlankTrims(part: string)
    requires IsBlank(part)
    ensures TrimSpace(part) == ""
  {
    if part != "" {
      assert part[0] in part;
      BlankTrims(part[1..]);
    }
  }

  /** One part in front of the others. */
  lemma {:induction false} URLsFront(part: string, rest: seq<string>)
    ensures URLs([part] + rest) == URLs([part]) + URLs(rest)
    decreases |rest|
  {
    if rest == [] {
      assert [part] + rest == [part];
    } else {
      var init, last := rest[..|rest| - 1], rest[|rest| - 1];
      URLsFront(part, init);
      assert [part] + rest == [part] + init + [last] && rest == init + [last];
      URLsBack([part] + init, last);
      URLsBack(init, last);
      assert URLs([part]) + (URLs(init) + OneOrNone(last)) == URLs([part]) + URLs(init) + OneOrNone(last);
    }
  }

  function OneOrNone(part: string): seq<string> {
    if TrimSpace(part) == "" then [] else [AsURL(TrimSpace(part))]
  }

  lemma URLsBack(init: seq<string>, last: string)
    ensures URLs(init + [last]) == URLs(init) + OneOrNone(last)
  {
    assert (init + [last])[..|init|] == init;
  }

  /** White space goes from both ends and nothing else does. */
  lemma {:induction false} TrimmedIs(lead: string, core: string, trail: string)
    requires IsBlank(lead) && IsBlank(trail) && core != "" && !IsSpace(core[0]) && !IsSpace(core[|core| - 1])
    ensures TrimSpace(lead + core + trail) == core
    decreases |lead| + |trail|
  {
    var s := lead + core + trail;
    if lead != "" {
      assert lead[0] in lead && s[1..] == lead[1..] + core + trail;
      TrimmedIs(lead[1..], core, trail);
    } else if trail != "" {
      var last := |trail| - 1;
      assert s[0] == core[0] && s[|s| - 1] == trail[last];
      assert trail[last] in trail && s[..|s| - 1] == lead + core + trail[..last];
      TrimmedIs(lead, core, trail[..last]);
    } else {
      assert s == core;
    }
  }

  lemma {:induction false} SlashesCut(host: string, slashes: string)
    requires host != "" && host[|host| - 1] != '/' && AllSlashes(slashes)
    ensures TrimSlash(host + slashes) == host
    decreases |slashes|
  {
    if slashes == "" {
      assert host + slashes == host;
    } else {
      var last := |slashes| - 1;
      assert (host + slashes)[..|host| + last] == host + slashes[..last];
      SlashesCut(host, slashes[..last]);
    }
  }

  lemma URLsOne(part: string)
    ensures URLs([part]) == OneOrNone(part)
  {
    var none: seq<string> := [];
    assert none + [part] == [part];
    URLsBack(none, part);
  }

  lemma OneURL(part: string, host: string)
    requires PartFor(part, host)
    ensures URLs([part]) == if host == "" then [] else [if "http" <= host then host else "http://" + host]
  {
    URLsOne(part);
    if host == "" {
      BlankTrims(part);
    } else {
      var lead, slashes, trail :| WrapsAs(part, lead, host, slashes, trail);
      SpacesAre();
      var core := host + slashes;
      assert part == lead + core + trail;
      TrimmedIs(lead, core, trail);
      SlashesCut(host, slashes);
    }
  }

  lemma {:induction false} URLsAreAddressesOf(parts: seq<string>, hosts: seq<string>)
    requires |parts| == |hosts| && forall i :: 0 <= i < |parts| ==> PartFor(parts[i], hosts[i])
    ensures URLs(parts) == AddressesOf(hosts)
  {
    if parts != [] {
      URLsAreAddressesOf(parts[1..], hosts[1..]);
      URLsFront(parts[0], parts[1..]);
      OneURL(parts[0], hosts[0]);
      assert parts == [parts[0]] + parts[1..];
    }
  }

  // ----- White space around the whole setting is white space around its outer parts -----

  lemma {:induction false} TrimTail(s: string, c: char)
    requires IsSpace(c)
    ensures TrimSpace(s + [c]) == TrimSpace(s)
  {
    if s != "" && IsSpace(s[0]) {
      assert (s + [c])[1..] == s[1..] + [c];
      TrimTail(s[1..], c);
    } else {
      assert (s + [c])[..|s|] == s;
      assert s == "" ==> (s + [c])[1..] == "";
    }
  }

  lemma {:induction false} SplitTail(s: string, c: char)
    requires c != ','
    ensures var parts := Split(s);
            Split(s + [c]) == parts[..|parts| - 1] + [parts[|parts| - 1] + [c]]
  {
    if s == "" {
      assert s + [c] == [c] && [c][1..] == "";
      assert Split([c][1..]) == [""];
      assert [c] + "" == "" + [c];
    } else {
      assert (s + [c])[1..] == s[1..] + [c];
      SplitTail(s[1..], c);
      var rest, parts := Split(s[1..]), Split(s);
      var n := |rest| - 1;
      if s[0] == ',' {
        assert [""] + (rest[..n] + [rest[n] + [c]]) == parts[..n + 1] + [parts[n + 1] + [c]];
      } else if n == 0 {
        assert rest == [rest[0]] && parts == [[s[0]] + rest[0]];
        assert [s[0]] + (rest[0] + [c]) == [s[0]] + rest[0] + [c];
      } else {
        assert parts[..n] == [[s[0]] + rest[0]] + rest[1..n];
        assert (rest[..n] + [rest[n] + [c]])[1..] == rest[1..n] + [rest[n] + [c]];
      }
    }
  }

  lemma HeadSpace(s: string)
    requires s != "" && IsSpace(s[0])
    ensures URLs(Split(s)) == URLs(Split(s[1..]))
  {
    SpacesAre();
    var parts := Split(s[1..]);
    var first := [s[0]] + parts[0];
    assert first[1..] == parts[0];
    assert parts == [parts[0]] + parts[1..];
    URLsFront(first, parts[1..]);
    URLsFront(parts[0], parts[1..]);
    URLsOne(first);
    URLsOne(parts[0]);
  }

  lemma TailSpace(s: string, c: char)
    requires IsSpace(c)
    ensures URLs(Split(s + [c])) == URLs(Split(s))
  {
    SpacesAre();
    var parts := Split(s);
    var init, last := parts[..|parts| - 1], parts[|parts| - 1];
    assert parts == init + [last];
    SplitTail(s, c);
    TrimTail(last, c);
    URLsBack(init, last);
    URLsBack(init, last + [c]);
  }

  lemma {:induction false} OuterTrim(s: string)
    ensures Configured(s) == URLs(Split(s))
    decreases |s|
  {
    if s != "" && IsSpace(s[0]) {
      HeadSpace(s);
      OuterTrim(s[1..]);
    } else if s != "" && IsSpace(s[|s| - 1]) {
      var init := s[..|s| - 1];
      assert s == init + [s[|s| - 1]];
      TailSpace(init, s[|s| - 1]);
      OuterTrim(init);
    }
  }

  /** Hosts, with white space around them and slashes after them, and blank parts, joined by commas, come out as those
      hosts in their order. */
  lemma ConfiguredList(parts: seq<string>, hosts: seq<string>)
    requires parts != [] && |parts| == |hosts| && forall i :: 0 <= i < |parts| ==> PartFor(parts[i], hosts[i])
    ensures Configured(Joined(parts)) == AddressesOf(hosts)
  {
    OuterTrim(Joined(parts));
    SplitJoined(parts);
    URLsAreAddressesOf(parts, hosts);
  }

  /** If the setting is a list of hosts joined by commas, these are the nodes: all of them, in that order. */
  ghost predicate HostsGive(serverURLs: string, nodes: seq<string>) {
    forall parts {:trigger Joined(parts)} ::
      parts != [] && (forall i :: 0 <= i < |parts| ==> IsHost(parts[i])) && serverURLs == Joined(parts) ==>
        |nodes| == |parts|
        && forall i :: 0 <= i < |parts| ==> nodes[i] == if "http" <= parts[i] then parts[i] else "http://" + parts[i]
  }

  lemma HostsAreNodes(serverURLs: string)
    ensures HostsGive(serverURLs, if Configured(serverURLs) == [] then ["http://localhost:8080"] else Configured(serverURLs))
    ensures IsBlank(serverURLs) ==> Configured(serverURLs) == []
  {
    forall parts {:trigger Joined(parts)} | parts != [] && (forall i :: 0 <= i < |parts| ==> IsHost(parts[i])) && serverURLs == Joined(parts)
      ensures Configured(serverURLs) == AddressesOf(parts) && |AddressesOf(parts)| == |parts|
      ensures forall i :: 0 <= i < |parts| ==>
                AddressesOf(parts)[i] == if "http" <= parts[i] then parts[i] else "http://" + parts[i]
    {
      forall i | 0 <= i < |parts|
        ensures PartFor(parts[i], parts[i])
      {
        assert WrapsAs(parts[i], "", parts[i], "", "");
      }
      ConfiguredList(parts, parts);
      AddressesInOrder(parts);
    }
    if IsBlank(serverURLs) {
      BlankTrims(serverURLs);
      URLsOne("");
      assert Split("") == [""];
    }
  }

  /** The white space that is cut off includes blanks, tabs and line breaks, and no letter, digit, colon, dot, comma or slash. */
  lemma SpacesAre()
    ensures IsSpace(' ') && IsSpace('\t') && IsSpace('\n') && IsSpace('\r')
    ensures forall c: char :: '!' <= c <= '~' ==> !IsSpace(c)
  {
  }

  class ClusterRouter {
    const nodes: seq<string>
    var index: nat
    var failCount: map<nat, nat>
    var successCnt: map<nat, nat>
    var disabledUntil: map<nat, int>

    ghost function Value(): Router
      reads this
    {
      Router(|nodes|, index, failCount, successCnt, disabledUntil)
    }

    ghost predicate Valid()
      reads this
    {
      WellFormed(Value())
    }

    constructor (serverURLs: string)
      ensures Valid() && index == 0 && failCount == map[] && successCnt == map[] && disabledUntil == map[]
      ensures nodes == if Configured(serverURLs) == [] then ["http://localhost:8080"] else Configured(serverURLs)
      ensures forall i :: 0 <= i < |nodes| ==> IsAddress(nodes[i])
      ensures HostsGive(serverURLs, nodes)
      ensures IsBlank(serverURLs) ==> nodes == ["http://localhost:8080"]
    {
      var raw := Split(TrimSpace(serverURLs));
      var made: seq<string> := [];
      for i := 0 to |raw|
        invariant made == URLs(raw[..i])
      {
        assert raw[..i + 1][..i] == raw[..i];
        var u := TrimSpace(raw[i]);
        if u == "" {
          continue;
        }
        u := TrimSlash(u);
        if !("http" <= u) {
          u := "http://" + u;
        }
        made := made + [u];
      }
      assert raw[..|raw|] == raw;
      ConfiguredAreAddresses(serverURLs);
      HostsAreNodes(serverURLs);
      nodes := if |made| == 0 then ["http://localhost:8080"] else made;
      index, failCount, successCnt, disabledUntil := 0, map[], map[], map[];
    }

    method NextNode(now: int) returns (url: string, ghost chosen: nat)
      requires Valid()
      modifies this
      ensures Valid() && Next(old(Value()), now, chosen, Value()) && url == nodes[chosen]
      ensures index == (chosen + 1) % |nodes| && successCnt == old(successCnt) && disabledUntil == old(disabledUntil)
      ensures failCount == old(failCount) || (failCount == old(failCount)[chosen := 0]
                && chosen in old(failCount) && old(failCount)[chosen] >= 3 && chosen in disabledUntil && now > disabledUntil[chosen])
    {
      ghost var r := Value();
      var fallback := -1;
      var i := 0;
      while i < |nodes|
        invariant 0 <= i <= |nodes| && Value() == r
        invariant forall d :: 0 <= d < i ==> !Eligible(r, Slot(r, d), now)
        invariant if i == 0 then fallback == -1 else fallback == index
      {
        ModOnce(index + i, |nodes|);
        var idx := (index + i) % |nodes|;
        assert idx == Slot(r, i) && Distance(r, idx) == i;
        ModOnce(idx + 1, |nodes|);
        if Get(failCount, idx) < 3 {
          index := (idx + 1) % |nodes|;
          return nodes[idx], idx;
        }
        if idx in disabledUntil && now > disabledUntil[idx] {
          failCount := failCount[idx := 0];
          index := (idx + 1) % |nodes|;
          return nodes[idx], idx;
        }
        if fallback < 0 {
          fallback := idx;
        }
        i := i + 1;
      }
      forall k: nat | k < r.n
        ensures !Eligible(r, k, now)
      {
        assert Slot(r, Distance(r, k)) == k;
      }
      ModOnce(fallback + 1, |nodes|);
      index := (fallback + 1) % |nodes|;
      return nodes[fallback], fallback;
    }

    method RecordSuccess()
      requires Valid()
      modifies this
      ensures Valid() && Value() == Succeeded(old(Value()))
      ensures index == old(index) && disabledUntil == old(disabledUntil)
      ensures failCount == old(failCount)[index := 0]
      ensures successCnt == old(successCnt)[index := 1 + if index in old(successCnt) then old(successCnt)[index] else 0]
    {
      var idx := index;
      if 0 <= idx < |nodes| {
        failCount := failCount[idx := 0];
        successCnt := successCnt[idx := Get(successCnt, idx) + 1];
      }
    }

    method RecordFailure(now: int)
      requires Valid()
      modifies this
      ensures Valid() && Value() == Failed(old(Value()), now)
      ensures index == old(index) && successCnt == old(successCnt)
      ensures failCount == old(failCount)[index := 1 + if index in old(failCount) then old(failCount)[index] else 0]
      ensures disabledUntil == if failCount[index] >= 3 then old(disabledUntil)[index := now + 60_000] else old(disabledUntil)
    {
      var idx := index;
      if 0 <= idx < |nodes| {
        failCount := failCount[idx := Get(failCount, idx) + 1];
        if failCount[idx] >= 3 {
          disabledUntil := disabledUntil[idx := now + BREAK_TIME];
        }
      }
    }

    method SelectNext() returns (url: string)
      requires Valid()
      modifies this
      ensures Valid() && Value() == old(Value()).(index := After(old(Value()), old(index))) && url == nodes[index]
      ensures index == (old(index) + 1) % |nodes|
    {
      ModOnce(index + 1, |nodes|);
      index := (index + 1) % |nodes|;
      url := nodes[index];
    }
  }

  // ---------------------------------------------------------------- choosing

  /** A circuit-broken node is returned only when every node is broken and unexpired. */
  lemma BrokenOnlyAsLastResort(r: Router, now: int, i: nat, r': Router)
    requires WellFormed(r) && Next(r, now, i, r')
    ensures !Eligible(r, i, now) <==> NoneEligible(r, now)
    ensures WellFormed(r')
  {
  }

  lemma ChargesKeepWellFormed(r: Router, now: int)
    requires WellFormed(r)
    ensures WellFormed(Succeeded(r)) && Succeeded(r).index == r.index
    ensures WellFormed(Failed(r, now)) && Failed(r, now).index == r.index
  {
  }

  datatype Call = Call(before: Router, now: int, chosen: nat, after: Router)

  ghost predicate IsCall(n: nat, c: Call) {
    c.before.n == n && WellFormed(c.before) && Next(c.before, c.now, c.chosen, c.after)
  }

  /** Consecutive NextNode calls; whatever is recorded in between does not move the index. */
  ghost predicate Calls(n: nat, calls: seq<Call>) {
    && (forall k :: 0 <= k < |calls| ==> IsCall(n, calls[k]))
    && forall k {:trigger calls[k].after} :: 0 <= k < |calls| - 1 ==> calls[k + 1].before.index == calls[k].after.index
  }

  /** A call that passes over an eligible node brings it strictly closer. */
  lemma PassingComesCloser(n: nat, c: Call, j: nat)
    requires IsCall(n, c) && j < n && Eligible(c.before, j, c.now) && c.chosen != j
    ensures c.after.n == n && c.after.index < n && Distance(c.after, j) < Distance(c.before, j)
  {
    assert FirstEligible(c.before, c.chosen, c.now);
    assert Slot(c.before, Distance(c.before, j)) == j;
  }

  lemma LaterCalls(n: nat, calls: seq<Call>)
    requires Calls(n, calls) && calls != []
    ensures IsCall(n, calls[0]) && Calls(n, calls[1..])
    ensures |calls| > 1 ==> IsCall(n, calls[1]) && calls[1].before.index == calls[0].after.index
  {
    var rest := calls[1..];
    forall i | 0 <= i < |rest| - 1
      ensures rest[i + 1].before.index == rest[i].after.index
    {
      assert calls[i + 1].after == rest[i].after;
    }
    if |calls| > 1 {
      assert calls[0].after.index == calls[0 + 1].before.index;
    }
  }

  lemma {:induction false} ServedWithin(n: nat, calls: seq<Call>, j: nat) returns (k: nat)
    requires Calls(n, calls) && j < n && calls != [] && Distance(calls[0].before, j) < |calls|
    requires forall i :: 0 <= i < |calls| ==> Eligible(calls[i].before, j, calls[i].now)
    ensures k <= Distance(calls[0].before, j) && calls[k].chosen == j
    decreases |calls|
  {
    if calls[0].chosen == j {
      k := 0;
    } else {
      LaterCalls(n, calls);
      PassingComesCloser(n, calls[0], j);
      var rest := calls[1..];
      assert forall i {:trigger rest[i]} :: 0 <= i < |rest| ==> rest[i] == calls[i + 1];
      k := ServedWithin(n, rest, j);
      k := k + 1;
    }
  }

  /** Fairness: a node that stays eligible is returned within `n` consecutive calls. */
  lemma EligibleIsServed(n: nat, calls: seq<Call>, j: nat) returns (k: nat)
    requires Calls(n, calls) && j < n && |calls| >= n
    requires forall i :: 0 <= i < |calls| ==> Eligible(calls[i].before, j, calls[i].now)
    ensures k < n && calls[k].chosen == j
  {
    k := ServedWithin(n, calls, j);
  }

  // ---------------------------------------------------------------- charging

  /**
   * NextNode has already moved the index when the outcome is recorded, so an outcome is charged to
   * the node that produced it exactly when there is only one node.
   */
  lemma ChargedToServerIff(r: Router, now: int, i: nat, r': Router, later: int)
    requires WellFormed(r) && Next(r, now, i, r')
    ensures Get(Failed(r', later).failCount, i) == Get(r'.failCount, i) + 1 <==> r.n == 1
    ensures Get(Succeeded(r').successCnt, i) == Get(r'.successCnt, i) + 1 <==> r.n == 1
  {
  }

  function FreshRouter(n: nat): Router {
    Router(n, 0, map[], map[], map[])
  }

  /** The outcomes of one round, all for the node that NextNode returned, recorded one after another. */
  function Recorded(r: Router, ok: bool, times: seq<int>): Router {
    if times == [] then r
    else
      var before := Recorded(r, ok, times[..|times| - 1]);
      if ok then Succeeded(before) else Failed(before, times[|times| - 1])
  }

  /** One round of the agent's loop: when NextNode was called, what it returned, and when outcomes were recorded. */
  datatype Round = Round(now: int, chosen: nat, times: seq<int>)

  /** Requests to `down` fail and all others succeed; every round records at least its heartbeat. */
  ghost predicate RoundStep(r: Router, round: Round, down: nat, r': Router) {
    && WellFormed(r) && round.times != [] && round.chosen < r.n
    && Next(r, round.now, round.chosen, Moved(r, round.now, round.chosen))
    && r' == Recorded(Moved(r, round.now, round.chosen), round.chosen != down, round.times)
  }

  /** The time of the last outcome recorded before round `k`. */
  function LastDone(rounds: seq<Round>, k: nat): int
    requires k <= |rounds| && forall i :: 0 <= i < |rounds| ==> rounds[i].times != []
  {
    if k == 0 then 0 else rounds[k - 1].times[|rounds[k - 1].times| - 1]
  }

  /**
   * The agent's main loop with node `down` unreachable: registration calls NextNode once on a fresh router
   * and records nothing, then rounds follow, each at most a breaker period after the previous one ended.
   */
  ghost predicate Loop(n: nat, down: nat, states: seq<Router>, rounds: seq<Round>) {
    && down < n && |states| == |rounds| + 1
    && (forall k :: 0 <= k < |rounds| ==> rounds[k].times != [])
    && (exists t, i :: Next(FreshRouter(n), t, i, states[0]))
    && (forall k: nat :: k < |rounds| ==> RoundAt(states, rounds, down, k))
    && forall k: nat :: 0 < k < |rounds| ==> SoonAfter(rounds, k)
  }

  ghost predicate SoonAfter(rounds: seq<Round>, k: nat)
    requires k < |rounds| && forall i :: 0 <= i < |rounds| ==> rounds[i].times != []
  {
    rounds[k].now <= LastDone(rounds, k) + BREAK_TIME
  }

  ghost predicate RoundAt(states: seq<Router>, rounds: seq<Round>, down: nat, k: nat)
    requires k < |rounds| < |states|
  {
    RoundStep(states[k], rounds[k], down, states[k + 1])
  }

  function Successor(n: nat, i: nat): nat {
    if i + 1 < n then i + 1 else 0
  }

  /** How many failures node `down` has produced in the first `k` rounds. */
  function Failures(rounds: seq<Round>, down: nat, k: nat): nat
    requires k <= |rounds|
  {
    if k == 0 then 0
    else Failures(rounds, down, k - 1) + if rounds[k - 1].chosen == down then |rounds[k - 1].times| else 0
  }

  /**
   * Every failure of the dead node is on its successor's account and nothing on any other, the dead
   * node's included; once broken, the successor is still disabled whenever its turn comes.
   */
  ghost predicate Shadowed(r: Router, n: nat, down: nat, failures: nat, done: int) {
    var s := Successor(n, down);
    && r.n == n && WellFormed(r)
    && (forall j: nat :: j < n && j != s ==> Get(r.failCount, j) == 0)
    && Get(r.failCount, s) == failures
    && (failures >= MAX_FAILURES && r.index == s ==> s in r.disabledUntil && r.disabledUntil[s] == done + BREAK_TIME)
  }

  lemma {:induction false} RecordedCharges(r: Router, ok: bool, times: seq<int>)
    requires WellFormed(r) && times != []
    ensures var r' := Recorded(r, ok, times);
            && WellFormed(r') && r'.n == r.n && r'.index == r.index
            && (forall j: nat :: j != r.index ==> Get(r'.failCount, j) == Get(r.failCount, j))
            && Get(r'.failCount, r.index) == (if ok then 0 else Get(r.failCount, r.index) + |times|)
            && (!ok && Get(r'.failCount, r.index) >= MAX_FAILURES ==>
                  r.index in r'.disabledUntil && r'.disabledUntil[r.index] == times[|times| - 1] + BREAK_TIME)
  {
    var init := times[..|times| - 1];
    if init == [] {
      assert Recorded(r, ok, init) == r;
    } else {
      RecordedCharges(r, ok, init);
    }
    ChargesKeepWellFormed(Recorded(r, ok, init), times[|times| - 1]);
  }

  /** While the successor is not broken every node is eligible; afterwards only its own turn is passed over. */
  lemma ChosenInShadow(r: Router, n: nat, down: nat, failures: nat, done: int, now: int, i: nat)
    requires n >= 2 && down < n && Shadowed(r, n, down, failures, done)
    requires now <= done + BREAK_TIME || failures == 0
    requires i < n && Next(r, now, i, Moved(r, now, i))
    ensures failures >= MAX_FAILURES ==> i != Successor(n, down)
    ensures i == if failures >= MAX_FAILURES && r.index == Successor(n, down) then Successor(n, r.index) else r.index
    ensures Moved(r, now, i) == r.(index := After(r, i))
  {
    assert Slot(r, 0) == r.index && Slot(r, 1) == Successor(n, r.index);
    if failures >= MAX_FAILURES && r.index == Successor(n, down) {
      assert !Eligible(r, r.index, now) && Eligible(r, Slot(r, 1), now);
    } else {
      assert Eligible(r, r.index, now);
    }
    assert FirstEligible(r, i, now);
  }

  lemma RoundKeepsShadowed(r: Router, n: nat, down: nat, failures: nat, done: int, round: Round, r': Router)
    requires n >= 2 && down < n && Shadowed(r, n, down, failures, done) && RoundStep(r, round, down, r')
    requires round.now <= done + BREAK_TIME || failures == 0
    ensures failures >= MAX_FAILURES ==> round.chosen != Successor(n, down)
    ensures Shadowed(r', n, down, failures + (if round.chosen == down then |round.times| else 0), round.times[|round.times| - 1])
  {
    ChosenInShadow(r, n, down, failures, done, round.now, round.chosen);
    var mid := Moved(r, round.now, round.chosen);
    assert mid.index == Successor(n, round.chosen);
    assert mid.index == Successor(n, down) <==> round.chosen == down;
    RecordedCharges(mid, round.chosen != down, round.times);
  }

  /** In every round the successor's failure count is the failure streak of the dead node before it. */
  lemma {:induction false} SuccessorIsCharged(n: nat, down: nat, states: seq<Router>, rounds: seq<Round>, k: nat)
    requires n >= 2 && Loop(n, down, states, rounds) && k < |states|
    ensures Shadowed(states[k], n, down, Failures(rounds, down, k), LastDone(rounds, k))
  {
    if k > 0 {
      SuccessorIsCharged(n, down, states, rounds, k - 1);
      assert RoundAt(states, rounds, down, k - 1) && (k > 1 ==> SoonAfter(rounds, k - 1));
      RoundKeepsShadowed(states[k - 1], n, down, Failures(rounds, down, k - 1), LastDone(rounds, k - 1), rounds[k - 1], states[k]);
    }
  }

  /** Once the successor is broken, no round returns it. */
  lemma BrokenIsNeverReturned(n: nat, down: nat, states: seq<Router>, rounds: seq<Round>, k: nat)
    requires n >= 2 && Loop(n, down, states, rounds) && k < |rounds|
    requires Failures(rounds, down, k) >= MAX_FAILURES
    ensures rounds[k].chosen != Successor(n, down)
  {
    SuccessorIsCharged(n, down, states, rounds, k);
    assert RoundAt(states, rounds, down, k) && (k > 0 ==> SoonAfter(rounds, k));
    RoundKeepsShadowed(states[k], n, down, Failures(rounds, down, k), LastDone(rounds, k), rounds[k], states[k + 1]);
  }

  ghost function CallOf(states: seq<Router>, rounds: seq<Round>, k: nat): Call
    requires k < |rounds| < |states| && rounds[k].chosen < states[k].n
  {
    Call(states[k], rounds[k].now, rounds[k].chosen, Moved(states[k], rounds[k].now, rounds[k].chosen))
  }

  lemma NextKeepsWellFormed(r: Router, now: int, i: nat)
    requires WellFormed(r) && i < r.n && Next(r, now, i, Moved(r, now, i))
    ensures WellFormed(Moved(r, now, i))
  {
  }

  /** A round is one NextNode call, and the outcomes recorded in it do not move the index. */
  lemma RoundIsCall(n: nat, down: nat, states: seq<Router>, rounds: seq<Round>, k: nat)
    requires n >= 2 && Loop(n, down, states, rounds) && k < |rounds|
    ensures states[k].n == n && rounds[k].chosen < n && Eligible(states[k], down, rounds[k].now)
    ensures IsCall(n, CallOf(states, rounds, k)) && states[k + 1].index == CallOf(states, rounds, k).after.index
  {
    SuccessorIsCharged(n, down, states, rounds, k);
    assert RoundAt(states, rounds, down, k);
    var c := CallOf(states, rounds, k);
    NextKeepsWellFormed(c.before, c.now, c.chosen);
    RecordedCharges(c.after, c.chosen != down, rounds[k].times);
  }

  lemma CallsOf(n: nat, down: nat, states: seq<Router>, rounds: seq<Round>, a: nat) returns (calls: seq<Call>)
    requires n >= 2 && Loop(n, down, states, rounds) && a + n <= |rounds|
    ensures |calls| == n && Calls(n, calls)
    ensures forall i :: 0 <= i < n ==> calls[i].chosen == rounds[a + i].chosen && Eligible(calls[i].before, down, calls[i].now)
  {
    forall k: nat | k < |rounds|
      ensures rounds[k].chosen < states[k].n
    {
      RoundIsCall(n, down, states, rounds, k);
    }
    calls := seq(n, i requires 0 <= i < n => CallOf(states, rounds, a + i));
    forall i | 0 <= i < n
      ensures IsCall(n, calls[i]) && Eligible(calls[i].before, down, calls[i].now)
      ensures calls[i].before == states[a + i] && calls[i].chosen == rounds[a + i].chosen
      ensures states[a + i + 1].index == calls[i].after.index
    {
      RoundIsCall(n, down, states, rounds, a + i);
      assert calls[i] == CallOf(states, rounds, a + i);
    }
    forall i | 0 <= i < n - 1
      ensures calls[i + 1].before.index == calls[i].after.index
    {
      assert calls[i + 1].before == states[a + i + 1];
    }
  }

  /** The dead node itself is never broken, so it is returned within every `n` rounds. */
  lemma DeadNodeIsServed(n: nat, down: nat, states: seq<Router>, rounds: seq<Round>, a: nat) returns (k: nat)
    requires n >= 2 && Loop(n, down, states, rounds) && a + n <= |rounds|
    ensures a <= k < a + n && rounds[k].chosen == down
  {
    var calls := CallsOf(n, down, states, rounds, a);
    var j := EligibleIsServed(n, calls, down);
    k := a + j;
  }

  lemma {:induction false} FailuresGrow(rounds: seq<Round>, down: nat, i: nat, j: nat)
    requires i <= j <= |rounds|
    ensures Failures(rounds, down, i) <= Failures(rounds, down, j)
  {
    if i < j { FailuresGrow(rounds, down, i, j - 1); }
  }

  lemma FailsWithin(n: nat, down: nat, states: seq<Router>, rounds: seq<Round>, a: nat)
    requires n >= 2 && Loop(n, down, states, rounds) && a + n <= |rounds|
    ensures Failures(rounds, down, a + n) >= Failures(rounds, down, a) + 1
  {
    var k := DeadNodeIsServed(n, down, states, rounds, a);
    FailuresGrow(rounds, down, a, k);
    FailuresGrow(rounds, down, k + 1, a + n);
  }

  lemma FailsThreeTimes(n: nat, down: nat, states: seq<Router>, rounds: seq<Round>, k: nat)
    requires n >= 2 && Loop(n, down, states, rounds) && 3 * n <= k < |rounds|
    ensures Failures(rounds, down, k) >= MAX_FAILURES
  {
    FailsWithin(n, down, states, rounds, 0);
    FailsWithin(n, down, states, rounds, n);
    FailsWithin(n, down, states, rounds, n + n);
    FailuresGrow(rounds, down, n + n + n, k);
  }

  /**
   * The failover promise fails for every number of nodes: with one node down, from round 3n on the healthy
   * node after it is never used again, while the dead one keeps being returned.
   */
  lemma HealthyNodeStarves(n: nat, down: nat, states: seq<Router>, rounds: seq<Round>, k: nat)
    requires n >= 2 && Loop(n, down, states, rounds) && 3 * n <= k < |rounds|
    ensures rounds[k].chosen != Successor(n, down)
    ensures k + n <= |rounds| ==> exists d :: k <= d < k + n && rounds[d].chosen == down
  {
    FailsThreeTimes(n, down, states, rounds, k);
    BrokenIsNeverReturned(n, down, states, rounds, k);
    if k + n <= |rounds| {
      var d := DeadNodeIsServed(n, down, states, rounds, k);
    }
  }

  // ---------------------------------------------------------------- such loops exist

  /** Some node is always chosen: the first eligible one, or the one at the index. */
  lemma NextExists(r: Router, now: int) returns (i: nat)
    requires WellFormed(r)
    ensures i < r.n && Next(r, now, i, Moved(r, now, i))
  {
    var d := 0;
    while d < r.n && !Eligible(r, Slot(r, d), now)
      invariant d <= r.n && forall c :: 0 <= c < d ==> !Eligible(r, Slot(r, c), now)
    {
      d := d + 1;
    }
    if d < r.n {
      i := Slot(r, d);
      assert Distance(r, i) == d;
    } else {
      i := r.index;
      forall k: nat | k < r.n
        ensures !Eligible(r, k, now)
      {
        assert Slot(r, Distance(r, k)) == k;
      }
    }
  }

  lemma LoopGrows(n: nat, down: nat, states: seq<Router>, rounds: seq<Round>, round: Round, r': Router)
    requires Loop(n, down, states, rounds) && RoundStep(states[|rounds|], round, down, r')
    requires round.now <= LastDone(rounds, |rounds|) + BREAK_TIME
    ensures Loop(n, down, states + [r'], rounds + [round])
  {
    var longer, more := states + [r'], rounds + [round];
    forall k: nat | k < |more|
      ensures RoundAt(longer, more, down, k) && (k > 0 ==> SoonAfter(more, k))
    {
      if k < |rounds| {
        assert RoundAt(states, rounds, down, k) && (k > 0 ==> SoonAfter(rounds, k));
        assert longer[k] == states[k] && longer[k + 1] == states[k + 1] && more[k] == rounds[k];
        assert k > 0 ==> more[k - 1] == rounds[k - 1];
      } else {
        assert longer[k] == states[k] && longer[k + 1] == r' && more[k] == round;
        assert k > 0 ==> more[k - 1] == rounds[k - 1];
      }
    }
    assert longer[0] == states[0];
  }

  /** For every number of nodes and every dead one the loop runs on for any number of rounds. */
  lemma {:induction false} LoopExists(n: nat, down: nat, m: nat) returns (states: seq<Router>, rounds: seq<Round>)
    requires n >= 2 && down < n
    ensures Loop(n, down, states, rounds) && |rounds| == m
  {
    if m == 0 {
      var fresh' := FreshRouter(n);
      var i := NextExists(fresh', 0);
      states, rounds := [Moved(fresh', 0, i)], [];
      assert Next(FreshRouter(n), 0, i, states[0]);
    } else {
      states, rounds := LoopExists(n, down, m - 1);
      SuccessorIsCharged(n, down, states, rounds, m - 1);
      var r, now := states[m - 1], LastDone(rounds, m - 1);
      var i := NextExists(r, now);
      var round := Round(now, i, [now]);
      var r' := Recorded(Moved(r, now, i), i != down, [now]);
      LoopGrows(n, down, states, rounds, round, r');
      states, rounds := states + [r'], rounds + [round];
    }
  }

  /** So for every n >= 2 and every dead node there is a run in which the healthy node after it is starved. */
  lemma StarvationHappens(n: nat, down: nat) returns (states: seq<Router>, rounds: seq<Round>)
    requires n >= 2 && down < n
    ensures Loop(n, down, states, rounds) && |rounds| == 4 * n
    ensures forall k :: 3 * n <= k < 4 * n ==> rounds[k].chosen != Successor(n, down)
    ensures exists k :: 3 * n <= k < 4 * n && rounds[k].chosen == down
  {
    states, rounds := LoopExists(n, down, 4 * n);
    forall k | 3 * n <= k < 4 * n
      ensures rounds[k].chosen != Successor(n, down)
    {
      HealthyNodeStarves(n, down, states, rounds, k);
    }
    var d := DeadNodeIsServed(n, down, states, rounds, 3 * n);
  }
}
