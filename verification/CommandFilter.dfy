/** Command normalisation and the danger check: server/services/mcp_tools.go.
    The source walks the UTF-8 bytes; every byte of a non-ASCII character is outside the kept range, so characters do as well. */
module CommandFilter {
  import opened Options

  predicate Printable(c: char) {
    32 as char <= c < 127 as char
  }

  predicate Upper(c: char) {
    'A' <= c <= 'Z'
  }

  function ToLower(c: char): (l: char)
    ensures !Upper(l) && (Printable(l) <==> Printable(c)) && (l == ' ' <==> c == ' ')
    ensures !Upper(c) ==> l == c
    ensures Upper(c) ==> l as int == c as int + 32
  {
    if Upper(c) then c - 'A' + 'a' else c
  }

  function Kept(s: string): string {
    if s == "" then "" else (if Printable(s[0]) then [s[0]] else "") + Kept(s[1..])
  }

  function Lower(s: string): (l: string)
    ensures |l| == |s|
  {
    seq(|s|, i requires 0 <= i < |s| => ToLower(s[i]))
  }

  /** Each run of spaces shortened to one. */
  function Squeezed(s: string): (q: string)
    ensures s != "" ==> q != "" && q[0] == s[0]
    ensures q != "" ==> s != ""
  {
    if |s| >= 2 && s[0] == ' ' && s[1] == ' ' then Squeezed(s[1..])
    else if s == "" then "" else [s[0]] + Squeezed(s[1..])
  }

  function NormalForm(cmd: string): string {
    Squeezed(Lower(Kept(cmd)))
  }

  // ----- The two byte loops -----

  lemma {:induction false} KeptAppend(a: string, b: string)
    ensures Kept(a + b) == Kept(a) + Kept(b)
  {
    if a == "" {
      assert a + b == b;
    } else {
      var first := if Printable(a[0]) then [a[0]] else "";
      KeptAppend(a[1..], b);
      KeptCons(a[0], a[1..]);
      KeptCons(a[0], a[1..] + b);
      assert a == [a[0]] + a[1..] && a + b == [a[0]] + (a[1..] + b);
      assert first + (Kept(a[1..]) + Kept(b)) == first + Kept(a[1..]) + Kept(b);
    }
  }

  lemma KeptCons(c: char, s: string)
    ensures Kept([c] + s) == (if Printable(c) then [c] else "") + Kept(s)
  {
    assert ([c] + s)[1..] == s;
  }

  /** What is left to write when `prevSpace` says a space has just been written. */
  function Remaining(rest: string, prevSpace: bool): string {
    if prevSpace then Squeezed(" " + rest)[1..] else Squeezed(rest)
  }

  /** What reading `c` writes. */
  function Written(c: char, prevSpace: bool): string {
    if c == ' ' && prevSpace then "" else [c]
  }

  lemma RemainingStep(rest: string, prevSpace: bool)
    requires rest != ""
    ensures Remaining(rest, prevSpace) == Written(rest[0], prevSpace) + Remaining(rest[1..], rest[0] == ' ')
  {
    assert (" " + rest)[1..] == rest;
    if rest[0] == ' ' {
      assert rest == " " + rest[1..];
      var q := Squeezed(rest);
      assert q == [' '] + q[1..];
    } else if prevSpace {
      assert Squeezed(" " + rest) == [' '] + Squeezed(rest);
    }
  }

  method KeepPrintable(cmd: string) returns (sb: string)
    ensures sb == Kept(cmd)
  {
    sb := "";
    for i := 0 to |cmd|
      invariant sb == Kept(cmd[..i])
    {
      assert cmd[..i + 1] == cmd[..i] + [cmd[i]];
      KeptAppend(cmd[..i], [cmd[i]]);
      if Printable(cmd[i]) {
        sb := sb + [cmd[i]];
      }
    }
    assert cmd[..|cmd|] == cmd;
  }

  lemma SqueezeStep(out: string, s: string, i: nat, prevSpace: bool)
    requires i < |s|
    ensures out + Remaining(s[i..], prevSpace)
         == (if s[i] == ' ' && prevSpace then out else out + [s[i]]) + Remaining(s[i + 1..], s[i] == ' ')
  {
    var rest := s[i..];
    assert rest[1..] == s[i + 1..];
    RemainingStep(rest, prevSpace);
  }

  method SqueezeSpaces(s: string) returns (out: string)
    ensures out == Squeezed(s)
  {
    var prevSpace := false;
    out := "";
    assert s[0..] == s;
    for i := 0 to |s|
      invariant out + Remaining(s[i..], prevSpace) == Squeezed(s)
    {
      SqueezeStep(out, s, i, prevSpace);
      if s[i] == ' ' {
        if !prevSpace {
          out := out + " ";
        }
        prevSpace := true;
      } else {
        out := out + [s[i]];
        prevSpace := false;
      }
    }
  }

  method NormalizeCommand(cmd: string) returns (normal: string)
    ensures normal == NormalForm(cmd)
  {
    var sb := KeepPrintable(cmd);
    normal := SqueezeSpaces(Lower(sb));
  }

  // ----- The normal form -----

  /** Printable, lower-case, no two adjacent spaces. */
  predicate IsNormal(s: string) {
    forall i :: 0 <= i < |s| ==> Printable(s[i]) && !Upper(s[i]) && !SpacePair(s, i)
  }

  predicate SpacePair(s: string, i: int)
    requires 0 <= i < |s|
  {
    i + 1 < |s| && s[i] == ' ' && s[i + 1] == ' '
  }

  lemma {:induction false} KeptPrintable(s: string)
    ensures forall i :: 0 <= i < |Kept(s)| ==> Printable(Kept(s)[i])
    ensures (forall i :: 0 <= i < |s| ==> Printable(s[i])) ==> Kept(s) == s
  {
    if s != "" {
      KeptPrintable(s[1..]);
    }
  }

  lemma {:induction false} SqueezedNormal(s: string)
    requires forall i :: 0 <= i < |s| ==> Printable(s[i]) && !Upper(s[i])
    ensures IsNormal(Squeezed(s))
    ensures s != "" ==> Squeezed(s) != "" && Squeezed(s)[0] == s[0]
  {
    if s != "" {
      SqueezedNormal(s[1..]);
      if !SpacePair(s, 0) {
        var q := Squeezed(s[1..]);
        forall i | 0 <= i < |q| + 1
          ensures Printable(([s[0]] + q)[i]) && !Upper(([s[0]] + q)[i]) && !SpacePair([s[0]] + q, i)
        {
          assert i > 0 ==> !SpacePair(q, i - 1);
        }
      }
    }
  }

  lemma {:induction false} SqueezedSame(s: string)
    requires forall i :: 0 <= i < |s| ==> !SpacePair(s, i)
    ensures Squeezed(s) == s
  {
    if s != "" {
      assert !SpacePair(s, 0);
      forall i | 0 <= i < |s[1..]|
        ensures !SpacePair(s[1..], i)
      {
        assert !SpacePair(s, i + 1);
      }
      SqueezedSame(s[1..]);
    }
  }

  /** Normalising yields a normal command, and leaves alone exactly the normal ones; so it is idempotent. */
  lemma NormalFormFixedIff(cmd: string)
    ensures IsNormal(NormalForm(cmd))
    ensures NormalForm(cmd) == cmd <==> IsNormal(cmd)
    ensures NormalForm(NormalForm(cmd)) == NormalForm(cmd)
    ensures IsNormal(cmd) <==> forall i :: 0 <= i < |cmd| ==>
              ' ' <= cmd[i] <= '~' && !('A' <= cmd[i] <= 'Z') && (i + 1 < |cmd| ==> cmd[i] != ' ' || cmd[i + 1] != ' ')
  {
    KeptPrintable(cmd);
    SqueezedNormal(Lower(Kept(cmd)));
    NormalStays(NormalForm(cmd));
    if IsNormal(cmd) {
      NormalStays(cmd);
    }
  }

  lemma NormalStays(s: string)
    requires IsNormal(s)
    ensures NormalForm(s) == s
  {
    KeptPrintable(s);
    assert Lower(s) == s;
    SqueezedSame(s);
  }

  // ----- Disguises: the edits that the normal form undoes, and no others -----

  /** `plain` is `cmd` with one letter lowered, or one character dropped that says nothing, at position `i`. */
  predicate Undoes(cmd: string, plain: string, i: int) {
    && 0 <= i < |cmd|
    && ((Upper(cmd[i]) && plain == cmd[..i] + [ToLower(cmd[i])] + cmd[i + 1..])
       || (!Printable(cmd[i]) && plain == cmd[..i] + cmd[i + 1..])
       || (SpacePair(cmd, i) && plain == cmd[..i] + cmd[i + 1..]))
  }

  lemma {:induction false} SqueezedDrop(a: string, b: string)
    ensures Squeezed(a + "  " + b) == Squeezed(a + " " + b)
    decreases |a|
  {
    var two, one := a + "  " + b, a + " " + b;
    if a == "" {
      assert two[1..] == one;
    } else {
      SqueezedDrop(a[1..], b);
      assert two[1..] == a[1..] + "  " + b && one[1..] == a[1..] + " " + b;
      assert two[0] == one[0] && two[1] == one[1];
    }
  }

  lemma LowerAppend(a: string, b: string)
    ensures Lower(a + b) == Lower(a) + Lower(b)
  {
  }

  /** Lower-casing what is kept goes piece by piece. */
  lemma LowerKeptAppend(a: string, m: string, b: string)
    ensures Lower(Kept(a + m + b)) == Lower(Kept(a)) + Lower(Kept(m)) + Lower(Kept(b))
  {
    KeptAppend(a + m, b);
    KeptAppend(a, m);
    LowerAppend(Kept(a) + Kept(m), Kept(b));
    LowerAppend(Kept(a), Kept(m));
  }

  lemma SpaceDropKeepsForm(a: string, c: string)
    ensures NormalForm(a + "  " + c) == NormalForm(a + " " + c)
  {
    LowerKeptAppend(a, "  ", c);
    LowerKeptAppend(a, " ", c);
    assert " "[1..] == "" && "  "[1..] == " ";
    assert Kept(" ") == " " && Kept("  ") == "  ";
    assert Lower(" ") == " " && Lower("  ") == "  ";
    SqueezedDrop(Lower(Kept(a)), Lower(Kept(c)));
  }

  /** Replacing a character by one that is kept alike and lowers to the same keeps the form. */
  lemma SwapKeepsForm(a: string, m: string, n: string, b: string)
    requires Lower(Kept(m)) == Lower(Kept(n))
    ensures NormalForm(a + m + b) == NormalForm(a + n + b)
  {
    LowerKeptAppend(a, m, b);
    LowerKeptAppend(a, n, b);
  }

  lemma UndoesKeepsForm(cmd: string, plain: string, i: int)
    requires Undoes(cmd, plain, i)
    ensures NormalForm(plain) == NormalForm(cmd)
  {
    var a, b, c := cmd[..i], cmd[i + 1..], cmd[i];
    assert cmd == a + [c] + b;
    if Upper(c) && plain == a + [ToLower(c)] + b {
      assert Lower(Kept([c])) == Lower(Kept([ToLower(c)]));
      SwapKeepsForm(a, [c], [ToLower(c)], b);
    } else if Printable(c) {
      assert cmd == a + "  " + b[1..] && plain == a + " " + b[1..];
      SpaceDropKeepsForm(a, b[1..]);
    } else {
      assert plain == a + "" + b;
      SwapKeepsForm(a, [c], "", b);
    }
  }

  /** Consecutive commands differ by one edit, made or undone. */
  ghost predicate Disguises(path: seq<string>) {
    && path != []
    && forall k :: 0 < k < |path| ==> OneEdit(path[k - 1], path[k])
  }

  ghost predicate OneEdit(a: string, b: string) {
    exists i :: Undoes(a, b, i) || Undoes(b, a, i)
  }

  ghost predicate Connected(a: string, b: string) {
    exists path :: Disguises(path) && path[0] == a && path[|path| - 1] == b
  }

  lemma {:induction false} PathKeepsForm(path: seq<string>)
    requires Disguises(path)
    ensures NormalForm(path[0]) == NormalForm(path[|path| - 1])
    decreases |path|
  {
    if |path| > 1 {
      var n := |path| - 1;
      PathKeepsForm(path[..n]);
      assert OneEdit(path[n - 1], path[n]);
      var i :| Undoes(path[n - 1], path[n], i) || Undoes(path[n], path[n - 1], i);
      if Undoes(path[n - 1], path[n], i) {
        UndoesKeepsForm(path[n - 1], path[n], i);
      } else {
        UndoesKeepsForm(path[n], path[n - 1], i);
      }
    }
  }

  function UpperCount(s: string): nat {
    if s == "" then 0 else (if Upper(s[0]) then 1 else 0) + UpperCount(s[1..])
  }

  lemma {:induction false} UpperCountAppend(a: string, b: string)
    ensures UpperCount(a + b) == UpperCount(a) + UpperCount(b)
  {
    if a == "" {
      assert a + b == b;
    } else {
      assert (a + b)[1..] == a[1..] + b;
      UpperCountAppend(a[1..], b);
    }
  }

  /** A command that is not normal has an edit to undo. */
  lemma UndoOne(cmd: string) returns (plain: string, i: int)
    requires !IsNormal(cmd)
    ensures Undoes(cmd, plain, i)
    ensures |plain| + UpperCount(plain) < |cmd| + UpperCount(cmd)
  {
    i :| 0 <= i < |cmd| && !(Printable(cmd[i]) && !Upper(cmd[i]) && !SpacePair(cmd, i));
    var a, b, c := cmd[..i], cmd[i + 1..], cmd[i];
    var mid := if Upper(c) then [ToLower(c)] else "";
    plain := a + mid + b;
    assert cmd == a + [c] + b;
    assert !Upper(c) ==> plain == a + b;
    UpperCountAppend(a, [c]);
    UpperCountAppend(a + [c], b);
    UpperCountAppend(a, mid);
    UpperCountAppend(a + mid, b);
  }

  lemma {:induction false} PathToNormalForm(cmd: string) returns (path: seq<string>)
    ensures Disguises(path) && path[0] == cmd && path[|path| - 1] == NormalForm(cmd)
    decreases |cmd| + UpperCount(cmd)
  {
    if IsNormal(cmd) {
      NormalStays(cmd);
      path := [cmd];
    } else {
      var plain, i := UndoOne(cmd);
      UndoesKeepsForm(cmd, plain, i);
      var later := PathToNormalForm(plain);
      path := [cmd] + later;
      ExtendPath(cmd, later);
    }
  }

  lemma ExtendPath(a: string, path: seq<string>)
    requires Disguises(path) && OneEdit(a, path[0])
    ensures Disguises([a] + path)
  {
    var more := [a] + path;
    forall k | 0 < k < |more|
      ensures OneEdit(more[k - 1], more[k])
    {
      assert more[k] == path[k - 1];
      if k > 1 {
        assert more[k - 1] == path[k - 2] && OneEdit(path[k - 2], path[k - 1]);
      }
    }
  }

  lemma JoinPaths(p: seq<string>, q: seq<string>) returns (path: seq<string>)
    requires Disguises(p) && Disguises(q) && p[|p| - 1] == q[|q| - 1]
    ensures Disguises(path) && path[0] == p[0] && path[|path| - 1] == q[0]
  {
    path := p + seq(|q| - 1, k requires 0 <= k < |q| - 1 => q[|q| - 2 - k]);
    forall k | 0 < k < |path|
      ensures OneEdit(path[k - 1], path[k])
    {
      if k < |p| {
        assert OneEdit(p[k - 1], p[k]);
      } else {
        var j := |q| - 1 - (k - |p|);
        assert path[k - 1] == q[j] && path[k] == q[j - 1];
        assert OneEdit(q[j - 1], q[j]);
      }
    }
  }

  /** Two commands have one normal form exactly when changes of letter case, unprintable characters and
      extra spaces beside a space lead from one to the other. */
  lemma SameFormIff(a: string, b: string)
    ensures NormalForm(a) == NormalForm(b) <==> Connected(a, b)
  {
    if Connected(a, b) {
      var path :| Disguises(path) && path[0] == a && path[|path| - 1] == b;
      PathKeepsForm(path);
    }
    if NormalForm(a) == NormalForm(b) {
      var p := PathToNormalForm(a);
      var q := PathToNormalForm(b);
      var path := JoinPaths(p, q);
    }
  }

  // ----- The danger check -----

  datatype Verdict =
    | Passed
    | BadCacheType
    | MissingCommand
    | Banned(fragment: string)
    | PipeToShell
    | DangerInSequence

  const BannedFragments: seq<string> :=
    ["rm -rf", "rm -r ", "rm -fr", "rm -rf /", "mkfs", "dd if=", "dd of=", ":(){:|:&};:", ":(){:|:&}"]

  const Shells: seq<string> := ["sh", "bash", "csh", "zsh", "ksh"]
  const Separators: seq<string> := [";", "&&", "||"]
  const Destroyers: seq<string> := ["rm", "dd", "mkfs", "reboot", "shutdown"]
  const CacheTypes: seq<string> := ["", "pages", "dentries", "inodes", "all"]

  predicate At(s: string, i: int, word: string) {
    0 <= i <= |s| && word <= s[i..]
  }

  predicate Contains(s: string, word: string) {
    exists i :: 0 <= i <= |s| && At(s, i, word)
  }

  predicate WordChar(c: char) {
    'a' <= c <= 'z' || Upper(c) || '0' <= c <= '9' || c == '_'
  }

  predicate White(c: char) {
    c == ' ' || c == '\t' || c == '\n' || c == '\r' || c == 12 as char
  }

  function SkipWhite(s: string, i: nat): (j: nat)
    requires i <= |s|
    ensures i <= j <= |s|
    ensures j < |s| ==> !White(s[j])
    ensures forall k :: i <= k < j ==> White(s[k])
    decreases |s| - i
  {
    if i < |s| && White(s[i]) then SkipWhite(s, i + 1) else i
  }

  /** One of `words` ends at a word boundary after starting at `i`. */
  predicate WholeWordAt(s: string, i: nat, words: seq<string>) {
    exists k :: 0 <= k < |words| && At(s, i, words[k])
                && (i + |words[k]| == |s| || (i + |words[k]| < |s| && !WordChar(s[i + |words[k]|])))
  }

  /** (opener)\s*(word)\b matches with its opener at `i`. */
  predicate MatchAt(s: string, i: nat, opener: string, words: seq<string>) {
    At(s, i, opener) && WholeWordAt(s, SkipWhite(s, i + |opener|), words)
  }

  /** A match of (opener)\s*(word)\b. */
  predicate Follows(s: string, openers: seq<string>, words: seq<string>) {
    exists i, k :: 0 <= i <= |s| && 0 <= k < |openers| && MatchAt(s, i, openers[k], words)
  }

  ghost predicate IsFirstBanned(s: string, k: nat, j: int) {
    && k <= j < |BannedFragments| && Contains(s, BannedFragments[j])
    && forall m :: k <= m < j ==> !Contains(s, BannedFragments[m])
  }

  /** The first listed fragment the command contains, from the `k`-th on. */
  function FirstBanned(s: string, k: nat): (r: Option<string>)
    requires k <= |BannedFragments|
    ensures r.Some? <==> exists j :: k <= j < |BannedFragments| && Contains(s, BannedFragments[j])
    ensures r.Some? ==> exists j :: IsFirstBanned(s, k, j) && r.value == BannedFragments[j]
    decreases |BannedFragments| - k
  {
    if k == |BannedFragments| then None
    else if Contains(s, BannedFragments[k]) then
      assert IsFirstBanned(s, k, k);
      Some(BannedFragments[k])
    else FirstBanned(s, k + 1)
  }

  function Judged(normal: string): Verdict {
    match FirstBanned(normal, 0)
    case Some(b) => Banned(b)
    case None =>
      if Follows(normal, ["|"], Shells) then PipeToShell
      else if Follows(normal, Separators, Destroyers) then DangerInSequence
      else Passed
  }

  /** `command` is None when the argument is missing or not a string; an absent cache type reads as "". */
  method CheckDangerousCommand(name: string, cacheType: string, command: Option<string>) returns (v: Verdict)
    ensures name == "flush_caches" ==> v == if cacheType in CacheTypes then Passed else BadCacheType
    ensures name == "flush_caches" ==> (v == Passed <==> cacheType in {"", "pages", "dentries", "inodes", "all"})
    ensures name != "flush_caches" && name != "execute_command" ==> v == Passed
    ensures name == "execute_command" ==>
              v == if command == None || command == Some("") then MissingCommand else Judged(NormalForm(command.value))
  {
    if name == "flush_caches" {
      if cacheType != "" && cacheType != "pages" && cacheType != "dentries" && cacheType != "inodes" && cacheType != "all" {
        return BadCacheType;
      }
      return Passed;
    }
    if name != "execute_command" {
      return Passed;
    }
    if command == None || command == Some("") {
      return MissingCommand;
    }
    var normalized := NormalizeCommand(command.value);
    for k := 0 to |BannedFragments|
      invariant FirstBanned(normalized, 0) == FirstBanned(normalized, k)
    {
      if Contains(normalized, BannedFragments[k]) {
        return Banned(BannedFragments[k]);
      }
    }
    if Follows(normalized, ["|"], Shells) {
      return PipeToShell;
    }
    if Follows(normalized, Separators, Destroyers) {
      return DangerInSequence;
    }
    return Passed;
  }

  // ----- The verdict without positions -----

  ghost predicate Has(s: string, word: string) {
    exists a, b :: IsSplit(s, a, word, b)
  }

  ghost predicate IsSplit(s: string, a: string, word: string, b: string) {
    s == a + word + b
  }

  /** The opener, white space and the word stand between `a` and `b`, and the word ends there. */
  ghost predicate Matched(s: string, a: string, opener: string, gap: string, word: string, b: string) {
    && s == a + opener + gap + word + b
    && (forall i :: 0 <= i < |gap| ==> gap[i] == ' ' || gap[i] == '\t' || gap[i] == '\n' || gap[i] == '\r' || gap[i] as int == 12)
    && (b == "" || !('a' <= b[0] <= 'z' || 'A' <= b[0] <= 'Z' || '0' <= b[0] <= '9' || b[0] == '_'))
  }

  ghost predicate Damaging(s: string) {
    || Has(s, "rm -rf") || Has(s, "rm -r ") || Has(s, "rm -fr") || Has(s, "mkfs") || Has(s, "dd if=") || Has(s, "dd of=")
    || Has(s, ":(){:|:&}")
  }

  ghost predicate PipesToShell(s: string) {
    exists a, gap, word, b :: Matched(s, a, "|", gap, word, b) && word in {"sh", "bash", "csh", "zsh", "ksh"}
  }

  ghost predicate RunsDestroyer(s: string) {
    exists a, opener, gap, word, b :: Matched(s, a, opener, gap, word, b) && opener in {";", "&&", "||"}
                                      && word in {"rm", "dd", "mkfs", "reboot", "shutdown"}
  }

  lemma ContainsIff(s: string, word: string)
    ensures Contains(s, word) <==> Has(s, word)
  {
    if i :| 0 <= i <= |s| && At(s, i, word) {
      assert IsSplit(s, s[..i], word, s[i..][|word|..]);
    }
    if a, b :| IsSplit(s, a, word, b) {
      assert s[|a|..] == word + b;
      assert At(s, |a|, word);
    }
  }

  lemma SkipsTo(s: string, i: nat, j: nat)
    requires i <= j < |s| && !White(s[j]) && forall k :: i <= k < j ==> White(s[k])
    ensures SkipWhite(s, i) == j
  {
  }

  lemma MatchedFollows(s: string, openers: seq<string>, words: seq<string>, m: nat, n: nat, a: string, gap: string, b: string)
    requires m < |openers| && n < |words| && Matched(s, a, openers[m], gap, words[n], b)
    requires words[n] != "" && !White(words[n][0])
    ensures Follows(s, openers, words)
  {
    var head := a + openers[m];
    var j := |head + gap|;
    assert s[|a|..] == openers[m] + (gap + words[n] + b);
    assert s[j..] == words[n] + b;
    assert s[|head|..j] == gap;
    assert forall k :: |head| <= k < j ==> s[k] == gap[k - |head|];
    SkipsTo(s, |head|, j);
    assert At(s, j, words[n]);
    assert b != "" ==> s[j + |words[n]|] == b[0];
    assert WholeWordAt(s, j, words);
    assert MatchAt(s, |a|, openers[m], words);
  }

  lemma WordAfter(s: string, i: nat, opener: string, words: seq<string>) returns (gap: string, word: string, b: string)
    requires i <= |s| && MatchAt(s, i, opener, words)
    ensures Matched(s, s[..i], opener, gap, word, b) && word in words
  {
    var start := i + |opener|;
    var j := SkipWhite(s, start);
    var n :| 0 <= n < |words| && At(s, j, words[n])
             && (j + |words[n]| == |s| || (j + |words[n]| < |s| && !WordChar(s[j + |words[n]|])));
    word := words[n];
    gap, b := s[start..j], s[j + |word|..];
    CutsUp(s, i, opener, j, word);
  }

  lemma CutsUp(s: string, i: nat, opener: string, j: nat, word: string)
    requires At(s, i, opener) && i + |opener| <= j && At(s, j, word)
    ensures j + |word| <= |s| && s == s[..i] + opener + s[i + |opener|..j] + word + s[j + |word|..]
  {
    var start := i + |opener|;
    assert s[i..] == opener + s[start..];
    assert s[j..] == word + s[j + |word|..];
    assert s == s[..i] + s[i..];
  }

  lemma FollowsMatched(s: string, openers: seq<string>, words: seq<string>) returns (a: string, opener: string, gap: string, word: string, b: string)
    requires Follows(s, openers, words)
    ensures Matched(s, a, opener, gap, word, b) && opener in openers && word in words
  {
    var i, k :| 0 <= i <= |s| && 0 <= k < |openers| && MatchAt(s, i, openers[k], words);
    opener := openers[k];
    a := s[..i];
    gap, word, b := WordAfter(s, i, opener, words);
  }

  lemma PipesIff(s: string)
    ensures Follows(s, ["|"], Shells) <==> PipesToShell(s)
  {
    if Follows(s, ["|"], Shells) {
      var a, opener, gap, word, b := FollowsMatched(s, ["|"], Shells);
    }
    if a, gap, word, b :| Matched(s, a, "|", gap, word, b) && word in {"sh", "bash", "csh", "zsh", "ksh"} {
      assert word in Shells;
      var n :| 0 <= n < |Shells| && Shells[n] == word;
      MatchedFollows(s, ["|"], Shells, 0, n, a, gap, b);
    }
  }

  lemma RunsIff(s: string)
    ensures Follows(s, Separators, Destroyers) <==> RunsDestroyer(s)
  {
    if Follows(s, Separators, Destroyers) {
      var a, opener, gap, word, b := FollowsMatched(s, Separators, Destroyers);
    }
    if a, opener, gap, word, b :| Matched(s, a, opener, gap, word, b) && opener in {";", "&&", "||"}
                                  && word in {"rm", "dd", "mkfs", "reboot", "shutdown"} {
      assert opener in Separators && word in Destroyers;
      var m :| 0 <= m < |Separators| && Separators[m] == opener;
      var n :| 0 <= n < |Destroyers| && Destroyers[n] == word;
      MatchedFollows(s, Separators, Destroyers, m, n, a, gap, b);
    }
  }

  /** The two listed fragments that are longer than another one add nothing. */
  lemma LongerFragments(s: string)
    ensures Has(s, "rm -rf /") ==> Has(s, "rm -rf")
    ensures Has(s, ":(){:|:&};:") ==> Has(s, ":(){:|:&}")
  {
    if a, b :| IsSplit(s, a, "rm -rf /", b) {
      assert "rm -rf /" == "rm -rf" + " /";
      assert IsSplit(s, a, "rm -rf", " /" + b);
    }
    if a, b :| IsSplit(s, a, ":(){:|:&};:", b) {
      assert ":(){:|:&};:" == ":(){:|:&}" + ";:";
      assert IsSplit(s, a, ":(){:|:&}", ";:" + b);
    }
  }

  lemma BannedIff(s: string)
    ensures FirstBanned(s, 0).Some? <==> Damaging(s)
  {
    forall k | 0 <= k < |BannedFragments|
      ensures Contains(s, BannedFragments[k]) <==> Has(s, BannedFragments[k])
    {
      ContainsIff(s, BannedFragments[k]);
    }
    LongerFragments(s);
    assert BannedFragments[0] == "rm -rf" && BannedFragments[1] == "rm -r " && BannedFragments[2] == "rm -fr"
           && BannedFragments[4] == "mkfs" && BannedFragments[5] == "dd if=" && BannedFragments[6] == "dd of="
           && BannedFragments[8] == ":(){:|:&}";
  }

  /** Which commands are refused and why, stated by what they are made of; the fragments come first, then the shells. */
  lemma JudgedIff(s: string)
    ensures Judged(s).Banned? <==> Damaging(s)
    ensures Judged(s).Banned? ==> Judged(s).fragment in BannedFragments && Has(s, Judged(s).fragment)
    ensures Judged(s) == PipeToShell <==> !Damaging(s) && PipesToShell(s)
    ensures Judged(s) == DangerInSequence <==> !Damaging(s) && !PipesToShell(s) && RunsDestroyer(s)
    ensures Judged(s) == Passed <==> !Damaging(s) && !PipesToShell(s) && !RunsDestroyer(s)
    ensures Judged(s) != BadCacheType && Judged(s) != MissingCommand
  {
    BannedIff(s);
    if Judged(s).Banned? {
      ContainsIff(s, Judged(s).fragment);
    }
    PipesIff(s);
    RunsIff(s);
  }

  /** No disguise changes the verdict on a non-empty command. */
  lemma DisguiseKeepsVerdict(a: string, b: string)
    requires Connected(a, b)
    ensures Judged(NormalForm(a)) == Judged(NormalForm(b))
  {
    SameFormIff(a, b);
  }

  lemma {:induction false} SqueezedPrefix(a: string, b: string)
    ensures Squeezed(a) <= Squeezed(a + b)
  {
    if a != "" {
      assert (a + b)[1..] == a[1..] + b;
      SqueezedPrefix(a[1..], b);
      if a == " " && b != "" && b[0] == ' ' {
        assert b == " " + b[1..];
        assert a + b == " " + b && a[1..] + b == b;
      }
    }
  }

  lemma {:induction false} SqueezedAppend(a: string, b: string)
    requires b != "" && b[0] != ' '
    ensures Squeezed(a + b) == Squeezed(a) + Squeezed(b)
  {
    if a == "" {
      assert a + b == b;
    } else {
      assert (a + b)[1..] == a[1..] + b;
      SqueezedAppend(a[1..], b);
    }
  }

  /** Text that normalises to a banned fragment is caught inside any longer command. */
  lemma BannedAnywhere(before: string, x: string, after: string, k: nat)
    requires k < |BannedFragments| && NormalForm(x) == BannedFragments[k]
    ensures Judged(NormalForm(before + x + after)).Banned?
  {
    var p, m, q := Lower(Kept(before)), Lower(Kept(x)), Lower(Kept(after));
    LowerKeptAppend(before, x, after);
    assert NormalForm(before + x + after) == Squeezed(p + m + q);
    assert BannedFragments[k][0] != ' ';
    SqueezedInside(p, m, q);
    assert Contains(NormalForm(before + x + after), BannedFragments[k]);
  }

  /** What starts with a character other than a space keeps its squeezed form inside any text. */
  lemma SqueezedInside(p: string, m: string, q: string)
    requires Squeezed(m) != "" && Squeezed(m)[0] != ' '
    ensures Contains(Squeezed(p + m + q), Squeezed(m))
  {
    assert p + m + q == p + (m + q);
    SqueezedAppend(p, m + q);
    SqueezedPrefix(m, q);
    assert At(Squeezed(p) + Squeezed(m + q), |Squeezed(p)|, Squeezed(m));
  }

  // ----- Which white space separates words after normalising -----

  predicate AllWhite(sep: string) {
    forall i :: 0 <= i < |sep| ==> White(sep[i])
  }

  predicate AllSpaces(s: string) {
    forall i :: 0 <= i < |s| ==> s[i] == ' '
  }

  /** Of white space only the spaces are kept. */
  lemma {:induction false} KeptWhite(sep: string)
    requires AllWhite(sep)
    ensures AllSpaces(Kept(sep)) && (Kept(sep) != "" <==> ' ' in sep)
  {
    if sep != "" {
      KeptWhite(sep[1..]);
      assert sep == [sep[0]] + sep[1..];
    }
  }

  lemma {:induction false} SqueezedSpaces(a: string, spaces: string)
    requires ' ' !in a && AllSpaces(spaces)
    ensures Squeezed(a + spaces) == a + if spaces == "" then "" else " "
    decreases |a| + |spaces|
  {
    var s := a + spaces;
    if a != "" {
      assert s[1..] == a[1..] + spaces;
      SqueezedSpaces(a[1..], spaces);
    } else if |spaces| > 1 {
      assert s[1..] == "" + spaces[1..];
      SqueezedSpaces("", spaces[1..]);
    } else {
      assert s == spaces;
    }
  }

  predicate Word(s: string) {
    s != "" && forall i :: 0 <= i < |s| ==> Printable(s[i]) && !Upper(s[i]) && s[i] != ' '
  }

  lemma LowerKeptNormal(s: string)
    requires forall i :: 0 <= i < |s| ==> Printable(s[i]) && !Upper(s[i])
    ensures Lower(Kept(s)) == s
  {
    KeptPrintable(s);
    assert Lower(s) == s;
  }

  lemma {:induction false} SqueezedWord(b: string, q: string)
    requires ' ' !in b
    ensures Squeezed(b + q) == b + Squeezed(q)
  {
    if b == "" {
      assert b + q == q;
    } else {
      assert (b + q)[1..] == b[1..] + q && b == [b[0]] + b[1..];
      SqueezedWord(b[1..], q);
    }
  }

  /** What is left of the white space between two words. */
  function Gap(sep: string): (gap: string)
    ensures gap == "" || gap == " "
  {
    if ' ' in sep then " " else ""
  }

  /** Two words stay apart exactly when a space is among the white space between them; otherwise they fuse. */
  lemma SeparatorForm(before: string, a: string, sep: string, b: string, after: string)
    requires Word(a) && AllWhite(sep) && Word(b)
    ensures NormalForm(before + (a + sep + b) + after) == NormalForm(before) + (a + Gap(sep) + b) + NormalForm(after)
  {
    LowerKeptAppend(before, a + sep + b, after);
    LowerKeptAppend(a, sep, b);
    LowerKeptNormal(a);
    LowerKeptNormal(b);
    KeptWhite(sep);
    SqueezedBetween(Lower(Kept(before)), a, Lower(Kept(sep)), b, Lower(Kept(after)));
  }

  lemma SqueezedBetween(p: string, a: string, spaces: string, b: string, q: string)
    requires a != "" && ' ' !in a && AllSpaces(spaces) && b != "" && ' ' !in b
    ensures Squeezed(p + (a + spaces + b) + q) == Squeezed(p) + (a + (if spaces == "" then "" else " ") + b) + Squeezed(q)
  {
    var t := b + q;
    assert p + (a + spaces + b) + q == p + (a + spaces + t);
    SqueezedAppend(p, a + spaces + t);
    SqueezedAppend(a + spaces, t);
    SqueezedSpaces(a, spaces);
    SqueezedWord(b, q);
  }

  /** Fragments of two words, and where they stand in the list. */
  const TwoWords: seq<(string, string, nat)> := [("rm", "-rf", 0), ("rm", "-fr", 2), ("dd", "if=", 5), ("dd", "of=", 6)]

  /** Text that completes no listed pattern: none of their marks, and no word that starts like a second one. */
  predicate Quiet(s: string) {
    forall i :: 0 <= i < |s| ==>
      && s[i] != '|' && s[i] != ';' && s[i] != '&' && s[i] != 'k' && s[i] != ':'
      && (s[i] == ' ' && i + 1 < |s| ==> s[i + 1] != '-' && s[i + 1] != 'i' && s[i + 1] != 'o')
  }

  lemma AtMatches(s: string, word: string, j: nat)
    requires j < |word|
    ensures forall i :: At(s, i, word) ==>
              i + |word| <= |s| && s[i + j] == word[j] && (j + 1 < |word| ==> s[i + j + 1] == word[j + 1])
  {
    forall i | At(s, i, word)
      ensures i + |word| <= |s| && s[i + j] == word[j] && (j + 1 < |word| ==> s[i + j + 1] == word[j + 1])
    {
      assert s[i..][j] == word[j];
      assert j + 1 < |word| ==> s[i..][j + 1] == word[j + 1];
    }
  }

  lemma QuietLacks(s: string, word: string, j: nat)
    requires Quiet(s) && j < |word|
    requires word[j] == 'k' || word[j] == ':' || word[j] == '|' || word[j] == ';' || word[j] == '&'
             || (word[j] == ' ' && j + 1 < |word| && (word[j + 1] == '-' || word[j + 1] == 'i' || word[j + 1] == 'o'))
    ensures forall i :: !At(s, i, word)
  {
    AtMatches(s, word, j);
  }

  lemma QuietPasses(s: string)
    requires Quiet(s)
    ensures Judged(s) == Passed
  {
    var marks: seq<nat> := [2, 2, 2, 2, 1, 2, 2, 0, 0];
    forall k | 0 <= k < |BannedFragments|
      ensures !Contains(s, BannedFragments[k])
    {
      QuietLacks(s, BannedFragments[k], marks[k]);
    }
    QuietLacks(s, "|", 0);
    QuietLacks(s, ";", 0);
    QuietLacks(s, "&&", 0);
    QuietLacks(s, "||", 0);
  }

  lemma QuietAppend(p: string, q: string)
    requires Quiet(p) && Quiet(q)
    requires p != "" && q != "" && p[|p| - 1] == ' ' ==> q[0] != '-' && q[0] != 'i' && q[0] != 'o'
    ensures Quiet(p + q)
  {
    var s := p + q;
    assert forall i :: 0 <= i < |p| ==> s[i] == p[i];
    assert forall i :: 0 <= i < |q| ==> s[|p| + i] == q[i];
  }

  lemma QuietJoins(p: string, w: nat, q: string)
    requires Quiet(p) && w < |TwoWords| && Quiet(q)
    ensures Quiet(p + (TwoWords[w].0 + "" + TwoWords[w].1) + q)
  {
    var m := TwoWords[w].0 + "" + TwoWords[w].1;
    assert m == ["rm-rf", "rm-fr", "ddif=", "ddof="][w];
    QuietAppend(p, m);
    QuietAppend(p + m, q);
  }

  /**
   * A two-word fragment anywhere in a command is refused when the white space between its words holds a
   * space. With tabs or line breaks alone the words fuse, and amid quiet text the command passes.
   */
  lemma SeparatorCaughtIff(w: nat, before: string, sep: string, after: string)
    requires w < |TwoWords| && AllWhite(sep)
    ensures var verdict := Judged(NormalForm(before + (TwoWords[w].0 + sep + TwoWords[w].1) + after));
            && (' ' in sep ==> verdict.Banned?)
            && (' ' !in sep && Quiet(NormalForm(before)) && Quiet(NormalForm(after)) ==> verdict == Passed)
  {
    var a, b := TwoWords[w].0, TwoWords[w].1;
    assert Word(a) && Word(b);
    if ' ' in sep {
      SeparatorForm("", a, sep, b, "");
      assert "" + (a + sep + b) + "" == a + sep + b;
      assert "" + (a + " " + b) + "" == BannedFragments[TwoWords[w].2];
      BannedAnywhere(before, a + sep + b, after, TwoWords[w].2);
    } else if Quiet(NormalForm(before)) && Quiet(NormalForm(after)) {
      SeparatorForm(before, a, sep, b, after);
      QuietJoins(NormalForm(before), w, NormalForm(after));
      QuietPasses(NormalForm(before) + (a + "" + b) + NormalForm(after));
    }
  }

  // ----- Which ends of a word are seen after normalising -----

  /** The word before this text ends there: nothing is kept of it, or what is kept does not start like a word. */
  predicate EndsWord(kept: string) {
    kept == "" || !WordChar(kept[0])
  }

  /** No listed word is the beginning of another. */
  predicate PrefixFree(words: seq<string>) {
    forall i, j :: 0 <= i < |words| && 0 <= j < |words| && words[i] <= words[j] ==> i == j
  }

  lemma NormalFormStart(t: string)
    ensures NormalForm(t) == "" <==> Kept(t) == ""
    ensures EndsWord(NormalForm(t)) <==> EndsWord(Kept(t))
  {
  }

  lemma SameWord(words: seq<string>, j: nat, k: nat, r: string)
    requires j < |words| && k < |words| && PrefixFree(words) && words[j] <= words[k] + r
    ensures j == k
  {
    PrefixesCompare(words[j], words[k], r);
  }

  lemma PrefixesCompare(a: string, b: string, r: string)
    requires a <= b + r
    ensures a <= b || b <= a
  {
    assert |a| <= |b| ==> a == b[..|a|];
    assert |b| <= |a| ==> b == a[..|b|];
  }

  lemma WholeWordIff(p: string, words: seq<string>, k: nat, r: string)
    requires k < |words| && PrefixFree(words)
    ensures WholeWordAt(p + words[k] + r, |p|, words) <==> EndsWord(r)
  {
    var s := p + words[k] + r;
    assert s[|p|..] == words[k] + r;
    if EndsWord(r) {
      assert At(s, |p|, words[k]);
      assert r != "" ==> s[|p| + |words[k]|] == r[0];
    }
    if j :| 0 <= j < |words| && At(s, |p|, words[j])
            && (|p| + |words[j]| == |s| || (|p| + |words[j]| < |s| && !WordChar(s[|p| + |words[j]|]))) {
      SameWord(words, j, k, r);
      assert r != "" ==> s[|p| + |words[k]|] == r[0];
    }
  }

  lemma SkipsGap(s: string, i: nat, gap: string)
    requires i + |gap| < |s| && (gap == "" || gap == " ") && s[i..i + |gap|] == gap && !White(s[i + |gap|])
    ensures SkipWhite(s, i) == i + |gap|
  {
    if gap == " " { assert s[i] == s[i..i + 1][0]; }
  }

  /**
   * For an opener (a bar, or ";", "&&", "||") and a listed word, whatever stands before them, between them and
   * after: the pattern matches at that opener exactly when what is kept after the word ends it.
   */
  lemma OpenerMatchesIff(opener: string, words: seq<string>, k: nat, before: string, sep: string, after: string)
    requires Word(opener) && k < |words| && Word(words[k]) && !White(words[k][0]) && PrefixFree(words) && AllWhite(sep)
    ensures MatchAt(NormalForm(before + (opener + sep + words[k]) + after), |NormalForm(before)|, opener, words)
       <==> EndsWord(Kept(after))
  {
    SeparatorForm(before, opener, sep, words[k], after);
    NormalFormStart(after);
    MatchIff(NormalForm(before), opener, Gap(sep), words, k, NormalForm(after));
  }

  lemma MatchIff(p: string, opener: string, gap: string, words: seq<string>, k: nat, r: string)
    requires k < |words| && words[k] != "" && !White(words[k][0]) && PrefixFree(words) && (gap == "" || gap == " ")
    ensures MatchAt(p + (opener + gap + words[k]) + r, |p|, opener, words) <==> EndsWord(r)
  {
    GapEnds(p, opener, gap, words[k], r);
    WholeWordIff(p + opener + gap, words, k, r);
  }

  /** After an opener the gap is skipped, up to the word. */
  lemma GapEnds(p: string, opener: string, gap: string, w: string, r: string)
    requires w != "" && !White(w[0]) && (gap == "" || gap == " ")
    ensures var s := p + (opener + gap + w) + r;
            && s == p + opener + gap + w + r && At(s, |p|, opener)
            && SkipWhite(s, |p| + |opener|) == |p + opener + gap|
  {
    var s := p + opener + gap + w + r;
    assert p + (opener + gap + w) + r == s;
    assert s[|p|..] == opener + (gap + w + r);
    var i := |p| + |opener|;
    assert s[i..] == gap + (w + r);
    assert s[i..i + |gap|] == gap && s[i + |gap|] == w[0];
    SkipsGap(s, i, gap);
  }

  lemma ListsArePrefixFree()
    ensures PrefixFree(Shells) && PrefixFree(Destroyers)
    ensures forall k :: 0 <= k < |Shells| ==> Word(Shells[k]) && !White(Shells[k][0])
    ensures forall k :: 0 <= k < |Destroyers| ==> Word(Destroyers[k]) && !White(Destroyers[k][0])
    ensures Word("|") && forall n :: 0 <= n < |Separators| ==> Word(Separators[n])
  {
    forall i, j | 0 <= i < |Shells| && 0 <= j < |Shells| && Shells[i] <= Shells[j]
      ensures i == j
    {
      assert Shells[i][0] == Shells[j][0];
    }
    forall i, j | 0 <= i < |Destroyers| && 0 <= j < |Destroyers| && Destroyers[i] <= Destroyers[j]
      ensures i == j
    {
      assert Destroyers[i][0] == Destroyers[j][0] && Destroyers[i][1] == Destroyers[j][1];
    }
  }

  /** Where the word is ended the command is refused, whatever else it holds. */
  lemma EndedWordRefused(before: string, sep: string, after: string, n: nat, k: nat)
    requires AllWhite(sep) && EndsWord(Kept(after)) && n < |Separators|
    ensures k < |Shells| ==> Judged(NormalForm(before + ("|" + sep + Shells[k]) + after)) != Passed
    ensures k < |Destroyers| ==> Judged(NormalForm(before + (Separators[n] + sep + Destroyers[k]) + after)) != Passed
  {
    ListsArePrefixFree();
    var i := |NormalForm(before)|;
    if k < |Shells| {
      OpenerMatchesIff("|", Shells, k, before, sep, after);
      assert MatchAt(NormalForm(before + ("|" + sep + Shells[k]) + after), i, ["|"][0], Shells);
    }
    if k < |Destroyers| {
      OpenerMatchesIff(Separators[n], Destroyers, k, before, sep, after);
      assert MatchAt(NormalForm(before + (Separators[n] + sep + Destroyers[k]) + after), i, Separators[n], Destroyers);
    }
  }

  /** None of the characters that open a pattern, nor two of those that some banned fragment needs. */
  predicate Unmarked(s: string) {
    '|' !in s && ';' !in s && '&' !in s && ':' !in s && '=' !in s
  }

  lemma LacksWord(s: string, word: string, c: char)
    requires c in word && c !in s
    ensures !Contains(s, word)
  {
    var j :| 0 <= j < |word| && word[j] == c;
    AtMatches(s, word, j);
  }

  lemma NoFragment(s: string)
    requires ':' !in s && '=' !in s && ('m' !in s || ('-' !in s && 'k' !in s))
    ensures FirstBanned(s, 0) == None
  {
    forall k | 0 <= k < |BannedFragments|
      ensures !Contains(s, BannedFragments[k])
    {
      LacksWord(s, BannedFragments[k],
                if k >= 7 then ':' else if k >= 5 then '=' else if 'm' !in s then 'm' else if k == 4 then 'k' else '-');
    }
  }

  /** The only bar of the text is the one before the shell. */
  lemma OneBar(p: string, t: string)
    requires Unmarked(p) && Unmarked(t)
    ensures forall i :: At(p + "|" + t, i, "|") ==> i == |p|
    ensures forall i, n :: 0 <= n < |Separators| ==> !At(p + "|" + t, i, Separators[n])
  {
    var s := p + "|" + t;
    assert forall i :: 0 <= i < |s| && i != |p| ==> s[i] in p || s[i] in t;
    AtMatches(s, "|", 0);
    AtMatches(s, ";", 0);
    AtMatches(s, "&&", 0);
    AtMatches(s, "||", 0);
  }

  /**
   * Amid text without other marks the verdict follows: a bar and a shell are refused exactly when what is kept
   * after the shell's name ends it.
   */
  lemma PipeVerdictIff(before: string, sep: string, k: nat, after: string)
    requires k < |Shells| && AllWhite(sep)
    requires Unmarked(NormalForm(before)) && Unmarked(NormalForm(after))
    requires 'm' !in NormalForm(before) && 'm' !in NormalForm(after)
    ensures Judged(NormalForm(before + ("|" + sep + Shells[k]) + after)) == if EndsWord(Kept(after)) then PipeToShell else Passed
  {
    ListsArePrefixFree();
    SeparatorForm(before, "|", sep, Shells[k], after);
    NormalFormStart(after);
    PipeFormVerdict(NormalForm(before), Gap(sep), k, NormalForm(after));
  }

  lemma PipeFormVerdict(p: string, gap: string, k: nat, r: string)
    requires k < |Shells| && (gap == "" || gap == " ") && PrefixFree(Shells) && !White(Shells[k][0])
    requires Unmarked(p) && Unmarked(r) && 'm' !in p && 'm' !in r
    ensures Judged(p + ("|" + gap + Shells[k]) + r) == if EndsWord(r) then PipeToShell else Passed
  {
    var s, t := p + ("|" + gap + Shells[k]) + r, gap + Shells[k] + r;
    MatchIff(p, "|", gap, Shells, k, r);
    ShellUnmarked(k, gap, r);
    assert s == p + ("|" + t);
    PipeVerdict(p, t, s);
  }

  lemma ShellUnmarked(k: nat, gap: string, r: string)
    requires k < |Shells| && (gap == "" || gap == " ") && Unmarked(r) && 'm' !in r
    ensures Unmarked(gap + Shells[k] + r) && 'm' !in gap + Shells[k] + r
  {
    assert Unmarked(Shells[k]) && 'm' !in Shells[k];
  }

  lemma PipeVerdict(p: string, t: string, s: string)
    requires Unmarked(p) && Unmarked(t) && 'm' !in p && 'm' !in t && s == p + ("|" + t)
    ensures Judged(s) == if MatchAt(s, |p|, "|", Shells) then PipeToShell else Passed
  {
    assert s == p + "|" + t;
    OneBar(p, t);
    NoFragment(s);
    assert Follows(s, ["|"], Shells) <==> MatchAt(s, |p|, ["|"][0], Shells);
  }

  /** No shell's name stands where a destroyer does; in particular sh is not seen in shutdown. */
  lemma NoShellAt(head: string, k: nat, r: string)
    requires k < |Destroyers|
    ensures !WholeWordAt(head + Destroyers[k] + r, |head|, Shells)
  {
    var s := head + Destroyers[k] + r;
    assert s[|head|] == Destroyers[k][0] && s[|head| + 1] == Destroyers[k][1];
    assert k == 4 ==> s[|head| + 2] == 'u';
    forall m | 0 <= m < |Shells| && At(s, |head|, Shells[m])
      ensures m == 0 && k == 4
    {
      AtMatches(s, Shells[m], 0);
    }
  }

  /** The only opener of the text is the one before the destroyer. */
  lemma OneOpener(p: string, n: nat, t: string)
    requires n < |Separators| && Unmarked(p) && Unmarked(t)
    ensures var s := p + Separators[n] + t;
            && (forall i, m :: 0 <= m < |Separators| && At(s, i, Separators[m]) ==> i == |p| && m == n)
            && (forall i :: At(s, i, "|") ==> n == 2 && (i == |p| || i == |p| + 1))
  {
    var s := p + Separators[n] + t;
    assert forall i :: 0 <= i < |p| ==> s[i] in p;
    assert forall i :: |p| + |Separators[n]| <= i < |s| ==> s[i] in t;
    assert s[|p|] == Separators[n][0] && (n > 0 ==> s[|p| + 1] == Separators[n][1]);
    AtMatches(s, ";", 0);
    AtMatches(s, "&&", 0);
    AtMatches(s, "||", 0);
    AtMatches(s, "|", 0);
  }

  lemma NoPipeToShell(p: string, n: nat, gap: string, k: nat, r: string)
    requires n < |Separators| && k < |Destroyers| && (gap == "" || gap == " ") && Unmarked(p) && Unmarked(r)
    ensures !Follows(p + (Separators[n] + gap + Destroyers[k]) + r, ["|"], Shells)
  {
    var t := gap + Destroyers[k] + r;
    assert p + (Separators[n] + gap + Destroyers[k]) + r == p + Separators[n] + t;
    DestroyerUnmarked(k, gap, r);
    OneOpener(p, n, t);
    if n == 2 { NoShellAfterBars(p, gap, k, r); }
  }

  lemma NoShellAfterBars(p: string, gap: string, k: nat, r: string)
    requires k < |Destroyers| && (gap == "" || gap == " ")
    ensures var s := p + ("||" + gap + Destroyers[k]) + r;
            !MatchAt(s, |p|, "|", Shells) && !MatchAt(s, |p| + 1, "|", Shells)
  {
    assert !White(Destroyers[k][0]);
    GapEnds(p, "||", gap, Destroyers[k], r);
    NoShellAt(p + "||" + gap, k, r);
    var s := p + "||" + gap + Destroyers[k] + r;
    assert s[|p| + 1] == '|';
    AtMatchesBar(s, |p| + 1);
  }

  lemma AtMatchesBar(s: string, j: nat)
    requires j < |s| && s[j] == '|'
    ensures SkipWhite(s, j) == j && !WholeWordAt(s, j, Shells)
  {
    forall m | 0 <= m < |Shells|
      ensures !At(s, j, Shells[m])
    {
      AtMatches(s, Shells[m], 0);
    }
  }

  lemma DestroyerUnmarked(k: nat, gap: string, r: string)
    requires k < |Destroyers| && (gap == "" || gap == " ") && Unmarked(r)
    ensures Unmarked(gap + Destroyers[k] + r)
    ensures k != 2 && '-' !in r && 'k' !in r ==> '-' !in gap + Destroyers[k] + r && 'k' !in gap + Destroyers[k] + r
  {
    assert Unmarked(Destroyers[k]) && (k != 2 ==> '-' !in Destroyers[k] && 'k' !in Destroyers[k]);
  }

  /**
   * Amid text without other marks, a separator and a destroyer (but mkfs, which is a banned fragment by
   * itself) are refused exactly when what is kept after the destroyer's name ends it.
   */
  lemma SequenceVerdictIff(before: string, n: nat, sep: string, k: nat, after: string)
    requires n < |Separators| && k < |Destroyers| && k != 2 && AllWhite(sep)
    requires Unmarked(NormalForm(before)) && '-' !in NormalForm(before) && 'k' !in NormalForm(before)
    requires Unmarked(NormalForm(after)) && '-' !in NormalForm(after) && 'k' !in NormalForm(after)
    ensures Judged(NormalForm(before + (Separators[n] + sep + Destroyers[k]) + after))
         == if EndsWord(Kept(after)) then DangerInSequence else Passed
  {
    ListsArePrefixFree();
    SeparatorForm(before, Separators[n], sep, Destroyers[k], after);
    NormalFormStart(after);
    SequenceFormVerdict(NormalForm(before), n, Gap(sep), k, NormalForm(after));
  }

  lemma SequenceFormVerdict(p: string, n: nat, gap: string, k: nat, r: string)
    requires n < |Separators| && k < |Destroyers| && k != 2 && (gap == "" || gap == " ")
    requires PrefixFree(Destroyers) && !White(Destroyers[k][0])
    requires Unmarked(p) && '-' !in p && 'k' !in p && Unmarked(r) && '-' !in r && 'k' !in r
    ensures Judged(p + (Separators[n] + gap + Destroyers[k]) + r) == if EndsWord(r) then DangerInSequence else Passed
  {
    var s, t := p + (Separators[n] + gap + Destroyers[k]) + r, gap + Destroyers[k] + r;
    assert s == p + Separators[n] + t;
    MatchIff(p, Separators[n], gap, Destroyers, k, r);
    DestroyerUnmarked(k, gap, r);
    NoPipeToShell(p, n, gap, k, r);
    SequenceVerdict(p, n, t, s);
  }

  lemma SequenceVerdict(p: string, n: nat, t: string, s: string)
    requires n < |Separators| && Unmarked(p) && '-' !in p && 'k' !in p && Unmarked(t) && '-' !in t && 'k' !in t
    requires s == p + Separators[n] + t && !Follows(s, ["|"], Shells)
    ensures Judged(s) == if MatchAt(s, |p|, Separators[n], Destroyers) then DangerInSequence else Passed
  {
    OneOpener(p, n, t);
    NoFragment(s);
    assert Follows(s, Separators, Destroyers) <==> MatchAt(s, |p|, Separators[n], Destroyers);
  }

  /** For example a tab after the word: it is dropped, so `sh` or `rm` runs into `foo` and is not seen. */
  lemma FusedWordsPass()
    ensures Judged(NormalForm("x " + ("|" + " " + Shells[0]) + "\tfoo")) == Passed
    ensures Judged(NormalForm("x " + (Separators[0] + " " + Destroyers[0]) + "\tfoo")) == Passed
  {
    NormalStays("x ");
    TabIsDropped();
    FusedWordPasses("x ", "\tfoo");
  }

  lemma FusedWordPasses(before: string, after: string)
    requires NormalForm(before) == "x " && Kept(after) == "foo" && NormalForm(after) == "foo"
    ensures Judged(NormalForm(before + ("|" + " " + Shells[0]) + after)) == Passed
    ensures Judged(NormalForm(before + (Separators[0] + " " + Destroyers[0]) + after)) == Passed
  {
    assert Unmarked("x ") && Unmarked("foo");
    PipeVerdictIff(before, " ", 0, after);
    SequenceVerdictIff(before, 0, " ", 0, after);
  }

  lemma TabIsDropped()
    ensures Kept("\tfoo") == "foo" && NormalForm("\tfoo") == "foo"
  {
    var tail := "foo";
    KeptCons('\t', tail);
    assert "\tfoo" == ['\t'] + tail;
    KeptPrintable(tail);
    NormalStays(tail);
  }
}
