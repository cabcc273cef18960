/** The host_events table shared by the alert engine and the escalation checker. */
module HostEvents {
  const MINUTE: int := 60_000

  datatype HostEvent = HostEvent(
    id: nat, tenant: nat, host: nat, kind: string, level: string, message: string, acknowledged: bool, createdAt: int)

  /** SQL's `message LIKE '%sub%'` for a `sub` without wildcards. */
  predicate Mentions(s: string, sub: string) {
    exists i :: 0 <= i <= |s| && sub <= s[i..]
  }

  lemma MentionsHasChar(s: string, sub: string, c: char)
    requires Mentions(s, sub) && c in sub
    ensures c in s
  {
    var i :| 0 <= i <= |s| && sub <= s[i..];
    var j :| 0 <= j < |sub| && sub[j] == c;
    assert s[i + j] == s[i..][j];
  }

  lemma MentionsPrefix(s: string, sub: string)
    requires sub <= s
    ensures Mentions(s, sub)
  {
    assert s[0..] == s;
  }

  /** It is mentioned exactly when the text is made of it and what surrounds it. */
  lemma MentionsIff(s: string, sub: string)
    ensures Mentions(s, sub) <==> exists a, b :: s == a + sub + b
  {
    if i :| 0 <= i <= |s| && sub <= s[i..] {
      assert s == s[..i] + sub + s[i + |sub|..];
    }
    if a, b :| s == a + sub + b {
      assert s[|a|..] == sub + b;
    }
  }
}
