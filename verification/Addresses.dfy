/** Node addresses: the lexicographic order `sort.Strings` uses and the trailing-slash trimming of cluster.go. */
module Addresses {

  /** Go's string order. */
  predicate LexLeq(a: string, b: string) {
    if a == [] then true
    else if b == [] then false
    else a[0] < b[0] || (a[0] == b[0] && LexLeq(a[1..], b[1..]))
  }

  /** The first character in which the two differ, at `i`, is the smaller one in `a`. */
  ghost predicate FirstSmaller(a: string, b: string, i: nat) {
    i < |a| && i < |b| && a[..i] == b[..i] && a[i] < b[i]
  }

  /** It is the dictionary order. */
  lemma {:induction false} LexIsDictionary(a: string, b: string)
    ensures LexLeq(a, b) <==> a <= b || exists i: nat :: FirstSmaller(a, b, i)
  {
    if a != [] && b != [] {
      var s, t := a[1..], b[1..];
      assert a == [a[0]] + s && b == [b[0]] + t;
      LexIsDictionary(s, t);
      if a[0] < b[0] {
        assert FirstSmaller(a, b, 0);
      }
      if a[0] == b[0] {
        if i: nat :| FirstSmaller(s, t, i) {
          assert a[..i + 1] == [a[0]] + s[..i] && b[..i + 1] == [b[0]] + t[..i];
          assert FirstSmaller(a, b, i + 1);
        }
      }
      if i: nat :| FirstSmaller(a, b, i) && i > 0 {
        assert a[..i][0] == b[..i][0];
        assert s[..i - 1] == a[..i][1..] && t[..i - 1] == b[..i][1..];
        assert FirstSmaller(s, t, i - 1);
      }
    }
  }

  /** strings.TrimRight(s, "/") */
  function TrimSlash(s: string): string {
    if s != [] && s[|s| - 1] == '/' then TrimSlash(s[..|s| - 1]) else s
  }

  predicate SlashFree(s: string) {
    s == [] || s[|s| - 1] != '/'
  }

  /** cluster.go's `contains`: equality up to trailing slashes. */
  predicate Contains(list: seq<string>, target: string) {
    exists i :: 0 <= i < |list| && TrimSlash(list[i]) == TrimSlash(target)
  }

  ghost predicate IsLeast(a: string, s: set<string>) {
    a in s && forall b :: b in s ==> LexLeq(a, b)
  }

  lemma {:induction false} LexReflexive(a: string)
    ensures LexLeq(a, a)
  {
    if a != [] { LexReflexive(a[1..]); }
  }

  lemma {:induction false} LexTotal(a: string, b: string)
    ensures LexLeq(a, b) || LexLeq(b, a)
  {
    if a != [] && b != [] { LexTotal(a[1..], b[1..]); }
  }

  lemma {:induction false} LexAntisymmetric(a: string, b: string)
    requires LexLeq(a, b) && LexLeq(b, a)
    ensures a == b
  {
    if a != [] && b != [] {
      LexAntisymmetric(a[1..], b[1..]);
      assert a == [a[0]] + a[1..] && b == [b[0]] + b[1..];
    }
  }

  lemma {:induction false} LexTransitive(a: string, b: string, c: string)
    requires LexLeq(a, b) && LexLeq(b, c)
    ensures LexLeq(a, c)
  {
    if a != [] && b != [] && c != [] && a[0] == b[0] == c[0] {
      LexTransitive(a[1..], b[1..], c[1..]);
    }
  }

  /** Trimming never makes an address larger. */
  lemma {:induction false} TrimLeq(s: string)
    ensures LexLeq(TrimSlash(s), s)
  {
    LexReflexive(s);
    if !SlashFree(s) {
      TrimLeq(s[..|s| - 1]);
      PrefixLeq(s[..|s| - 1], s);
      LexTransitive(TrimSlash(s), s[..|s| - 1], s);
    }
  }

  lemma {:induction false} PrefixLeq(p: string, s: string)
    requires p <= s
    ensures LexLeq(p, s)
  {
    if p != [] { PrefixLeq(p[1..], s[1..]); }
  }

  lemma {:induction false} TrimIsSlashFree(s: string)
    ensures SlashFree(TrimSlash(s))
    ensures TrimSlash(TrimSlash(s)) == TrimSlash(s)
    ensures SlashFree(s) <==> TrimSlash(s) == s
    ensures TrimSlash(s) <= s && forall i :: |TrimSlash(s)| <= i < |s| ==> s[i] == '/'
  {
    if !SlashFree(s) {
      TrimIsSlashFree(s[..|s| - 1]);
      TrimShorter(s);
    }
  }

  lemma {:induction false} TrimShorter(s: string)
    ensures |TrimSlash(s)| <= |s|
    ensures !SlashFree(s) ==> |TrimSlash(s)| < |s|
  {
    if !SlashFree(s) { TrimShorter(s[..|s| - 1]); }
  }

  /** Every non-empty finite set of addresses has a least one. */
  lemma {:induction false} LeastExists(s: set<string>) returns (a: string)
    requires s != {}
    ensures IsLeast(a, s)
  {
    var x :| x in s;
    if s == {x} {
      a := x;
      LexReflexive(x);
    } else {
      var rest := s - {x};
      assert rest != {} by { assert s == rest + {x}; }
      var y := LeastExists(rest);
      LexTotal(x, y);
      LexReflexive(x);
      a := if LexLeq(x, y) then x else y;
      forall b | b in s
        ensures LexLeq(a, b)
      {
        if b != x {
          assert b in rest;
          if a == x { LexTransitive(x, y, b); }
        }
      }
    }
  }
}
