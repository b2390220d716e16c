/** Target paths: normalising their spelling, checking them, resolving them, and naming backups. */
module PathRules {
  import opened Text

  /** An absolute path as its components. */
  type Path = seq<string>

  const SAFE_SUFFIXES: set<string> :=
    {".py", ".md", ".txt", ".json", ".yaml", ".yml", ".toml", ".ini", ".cfg", ".csv"}
  const DIRECT_TAG: string := ".bak_v20_"
  const INDENT_TAG: string := ".bak_indent_v20_"

  predicate IsQuote(c: char) { c == '\'' || c == '"' || c == '`' }

  predicate IsDotSlash(c: char) { c == '.' || c == '/' }

  predicate IsEdge(c: char) { IsSpace(c) || IsQuote(c) }

  /** Every run of slashes becomes one slash. */
  function Squeeze(t: string): (r: string)
    ensures |r| <= |t|
    ensures r != [] <==> t != []
    ensures t != [] ==> r[0] == t[0]
  {
    if t == [] then []
    else if "//" <= t then Squeeze(t[1..])
    else [t[0]] + Squeeze(t[1..])
  }

  function Unquote(path: string): string {
    StripBy(Strip(path), IsQuote)
  }

  function NormalizePath(path: string): string {
    LStrip(Squeeze(ReplaceAll(Unquote(path), "\\", "/")), IsDotSlash)
  }

  /** The last component that names something: empty and "." components do not. */
  function LastName(pieces: seq<string>): string {
    if pieces == [] then ""
    else
      var last := pieces[|pieces| - 1];
      if last == "" || last == "." then LastName(pieces[..|pieces| - 1]) else last
  }

  function LastDot(name: string): (i: int)
    ensures -1 <= i < |name|
    ensures i >= 0 ==> name[i] == '.'
    ensures forall j | i < j < |name| :: name[j] != '.'
  {
    if name == "" then -1
    else if name[|name| - 1] == '.' then |name| - 1
    else LastDot(name[..|name| - 1])
  }

  /** `PurePath.suffix` of a final component. */
  function Suffix(name: string): string {
    var i := LastDot(name);
    if 0 < i < |name| - 1 then name[i..] else ""
  }

  predicate IsSafeTarget(path: string, allowCore: bool) {
    var n := NormalizePath(path);
    && n != ""
    && ".." !in Split(n, '/')
    && Suffix(LastName(Split(Lower(n), '/'))) in SAFE_SUFFIXES
    && (allowCore || "workspace/" <= Lower(n))
  }

  /** `(base / relative).resolve()` without symbolic links. */
  function Walk(base: Path, pieces: seq<string>): Path {
    if pieces == [] then base
    else
      var here := Walk(base, pieces[..|pieces| - 1]);
      var last := pieces[|pieces| - 1];
      if last == "" || last == "." then here
      else if last == ".." then (if here == [] then [] else here[..|here| - 1])
      else here + [last]
  }

  function Last(p: Path): string
    requires p != []
  {
    p[|p| - 1]
  }

  function Display(p: Path): string { "/" + Join(p, "/") }

  /** None stands for the safety error. */
  function ResolveTarget(root: Path, path: string, allowCore: bool): Option<Path> {
    var n := NormalizePath(path);
    if !IsSafeTarget(n, allowCore) then None
    else
      var target := Walk(root, Split(n, '/'));
      if Display(root) <= Display(target) then Some(target) else None
  }

  function Digit(d: nat): char
    requires d < 10
  {
    ('0' as int + d) as char
  }

  function Decimal(n: nat): (r: string)
    ensures r != "" && forall c | c in r :: '0' <= c <= '9'
  {
    if n < 10 then [Digit(n)] else Decimal(n / 10) + [Digit(n % 10)]
  }

  function BackupPath(target: Path, tag: string, stamp: nat): Path
    requires target != []
  {
    target[..|target| - 1] + [Last(target) + tag + Decimal(stamp)]
  }

  predicate HasTail(name: string, tail: string) {
    |tail| <= |name| && name[|name| - |tail|..] == tail
  }

  predicate BackupName(name: string, stamp: nat) {
    HasTail(name, DIRECT_TAG + Decimal(stamp)) || HasTail(name, INDENT_TAG + Decimal(stamp))
  }

  ghost predicate IsBackup(p: Path) {
    p != [] && exists stamp: nat :: BackupName(Last(p), stamp)
  }

  // ---- The slash-collapsing loop ----

  lemma {:induction false} SqueezeReplace(t: string)
    ensures var r := ReplaceAll(t, "//", "/");
            && Squeeze(r) == Squeeze(t)
            && |r| <= |t|
            && (Contains(t, "//") ==> |r| < |t|)
            && (r != [] <==> t != [])
            && (t != [] ==> r[0] == t[0])
  {
    if t == [] {
    } else if "//" <= t {
      var x := t[2..];
      var rx := ReplaceAll(x, "//", "/");
      SqueezeReplace(x);
      SqueezeSlash(x);
      SqueezeSlash(rx);
      assert t[1..] == "/" + x;
    } else {
      SqueezeReplace(t[1..]);
      var rx := ReplaceAll(t[1..], "//", "/");
      assert ([t[0]] + rx)[1..] == rx;
      if t[0] == '/' && |t| > 1 {
        assert t[1] != '/' by { assert t[..2] == [t[0], t[1]]; }
      }
    }
  }

  lemma SqueezeSlash(x: string)
    ensures Squeeze("/" + x) == if x != [] && x[0] == '/' then Squeeze(x) else "/" + Squeeze(x)
  {
    assert ("/" + x)[1..] == x;
  }

  lemma {:induction false} SqueezeIdle(t: string)
    ensures Squeeze(t) == t <==> !Contains(t, "//")
    ensures !Contains(Squeeze(t), "//")
    ensures |Squeeze(t)| == |t| ==> Squeeze(t) == t
  {
    if t != [] {
      SqueezeIdle(t[1..]);
      assert t == [t[0]] + t[1..];
      if !("//" <= t) {
        var s := Squeeze(t[1..]);
        assert ([t[0]] + s)[1..] == s;
      }
    }
  }

  /** The loop of the original, which ends because every pass shortens the text. */
  method NormalizePathText(path: string) returns (r: string)
    ensures r == NormalizePath(path)
  {
    hide Strip, StripBy, LStrip, ReplaceAll, Contains, Squeeze;
    var text := StripBy(Strip(path), IsQuote);
    text := ReplaceAll(text, "\\", "/");
    ghost var start := text;
    while Contains(text, "//")
      invariant Squeeze(text) == Squeeze(start)
      decreases |text|
    {
      SqueezeReplace(text);
      text := ReplaceAll(text, "//", "/");
    }
    SqueezeIdle(text);
    r := LStrip(text, IsDotSlash);
  }

  // ---- Normalised spellings ----

  lemma {:induction false} NoBackslash(t: string)
    ensures var r := ReplaceAll(t, "\\", "/");
            |r| == |t| && '\\' !in r && ('\\' !in t ==> r == t)
  {
    if t != [] { NoBackslash(t[1..]); }
  }

  /** The spellings that normalisation leaves unchanged. */
  predicate Settled(path: string) {
    && '\\' !in path
    && !Contains(path, "//")
    && (path != "" ==>
          && !IsEdge(path[0]) && !IsDotSlash(path[0])
          && !IsEdge(path[|path| - 1]))
  }

  lemma SettledIffUnchanged(path: string)
    ensures NormalizePath(path) == path <==> Settled(path)
  {
    var a := Strip(path);
    var b := Unquote(path);
    var c := ReplaceAll(b, "\\", "/");
    NoBackslash(b);
    SqueezeIdle(c);
    SqueezeIdle(path);
    StripLength(path, IsSpace);
    StripLength(a, IsQuote);
    if NormalizePath(path) == path {
      assert |path| == |a| == |b| == |c|;
      assert a == path && b == path;
    }
  }

  lemma StripLength(s: string, p: char -> bool)
    ensures |StripBy(s, p)| <= |s|
    ensures |StripBy(s, p)| == |s| ==> StripBy(s, p) == s
  {
    LStripIsTail(s, p);
    RStripIsHead(LStrip(s, p), p);
  }

  /** What every normalised spelling looks like. */
  lemma NormalizedForm(path: string)
    ensures var n := NormalizePath(path);
            '\\' !in n && !Contains(n, "//") && (n != "" ==> !IsDotSlash(n[0]))
  {
    var b := Unquote(path);
    var c := ReplaceAll(b, "\\", "/");
    NoBackslash(b);
    SqueezeIdle(c);
    SqueezeChars(c);
    LStripIsTail(Squeeze(c), IsDotSlash);
    NoDoubleInTail(Squeeze(c), |Squeeze(c)| - |NormalizePath(path)|);
  }

  lemma {:induction false} SqueezeChars(t: string)
    requires '\\' !in t
    ensures '\\' !in Squeeze(t)
  {
    if t != [] { SqueezeChars(t[1..]); }
  }

  lemma {:induction false} NoDoubleInTail(t: string, k: nat)
    requires k <= |t| && !Contains(t, "//")
    ensures !Contains(t[k..], "//")
  {
    if k > 0 {
      NoDoubleInTail(t[1..], k - 1);
      assert t[1..][k - 1..] == t[k..];
    } else {
      assert t[k..] == t;
    }
  }

  // ---- Accepted targets ----

  /** Neither of these can end a backup's name. */
  predicate TargetEnd(name: string) {
    && name != ""
    && name[|name| - 1] != '.'
    && !('0' <= name[|name| - 1] <= '9')
  }

  lemma {:induction false} LowerConcat(a: string, b: string)
    ensures Lower(a + b) == Lower(a) + Lower(b)
  {
    if a == [] {
      assert a + b == b;
    } else {
      assert (a + b)[1..] == a[1..] + b;
      LowerConcat(a[1..], b);
    }
  }

  function LowerAll(pieces: seq<string>): (r: seq<string>)
    ensures |r| == |pieces| && forall i | 0 <= i < |r| :: r[i] == Lower(pieces[i])
  {
    if pieces == [] then [] else [Lower(pieces[0])] + LowerAll(pieces[1..])
  }

  lemma {:induction false} SplitOfLower(s: string)
    ensures Split(Lower(s), '/') == LowerAll(Split(s, '/'))
  {
    if s != [] {
      SplitOfLower(s[1..]);
      var rest := Split(s[1..], '/');
      assert Lower(s)[1..] == Lower(s[1..]);
      if s[0] == '/' {
        assert LowerAll([[]] + rest) == [[]] + LowerAll(rest);
      } else {
        LowerConcat([s[0]], rest[0]);
        assert LowerAll([[s[0]] + rest[0]] + rest[1..]) == [Lower([s[0]] + rest[0])] + LowerAll(rest[1..]);
        assert LowerAll(rest[1..]) == LowerAll(rest)[1..];
      }
    }
  }

  lemma LowerDot(name: string)
    ensures Lower(name) == "" <==> name == ""
    ensures Lower(name) == "." <==> name == "."
  {
    if |name| == 1 { assert name == [name[0]] && Lower(name) == [LowerChar(name[0])]; }
  }

  lemma LowerAllSnoc(init: seq<string>, last: string)
    ensures LowerAll(init + [last]) == LowerAll(init) + [Lower(last)]
  {}

  lemma LastNameSnoc(init: seq<string>, last: string)
    ensures LastName(init + [last]) == if last == "" || last == "." then LastName(init) else last
  {
    assert (init + [last])[..|init|] == init;
  }

  lemma {:induction false} LastNameOfLower(pieces: seq<string>)
    ensures LastName(LowerAll(pieces)) == Lower(LastName(pieces))
  {
    if pieces != [] {
      hide Lower, LowerAll, LastName;
      var init, last := pieces[..|pieces| - 1], pieces[|pieces| - 1];
      assert pieces == init + [last];
      LowerDot(last);
      LowerAllSnoc(init, last);
      LastNameSnoc(init, last);
      LastNameSnoc(LowerAll(init), Lower(last));
      LastNameOfLower(init);
    }
  }

  lemma SuffixEnd(suffix: string)
    requires suffix in SAFE_SUFFIXES
    ensures suffix != "" && 'a' <= suffix[|suffix| - 1] <= 'z'
  {}

  /** A name with an allowed suffix ends in a letter. */
  lemma SafeSuffixEnd(name: string)
    requires Suffix(Lower(name)) in SAFE_SUFFIXES
    ensures TargetEnd(name)
  {
    SuffixEnd(Suffix(Lower(name)));
    SuffixTail(Lower(name));
  }

  lemma SuffixTail(name: string)
    ensures var s := Suffix(name); s != "" ==> name != "" && name[|name| - 1] == s[|s| - 1]
  {}

  lemma {:induction false} WalkLast(base: Path, pieces: seq<string>)
    requires LastName(pieces) !in {"", "..", "."}
    ensures var w := Walk(base, pieces); w != [] && Last(w) == LastName(pieces)
  {
    if pieces != [] && pieces[|pieces| - 1] in {"", "."} {
      WalkLast(base, pieces[..|pieces| - 1]);
    }
  }

  lemma {:induction false} LastNameBehind(before: seq<string>, head: string, pieces: seq<string>)
    requires pieces != [] && TargetEnd(LastName(pieces))
    ensures TargetEnd(LastName(before + [head + pieces[0]] + pieces[1..]))
  {
    var whole := before + [head + pieces[0]] + pieces[1..];
    var n := |pieces| - 1;
    var last := pieces[n];
    if n == 0 {
      assert LastName(pieces[..n]) == "";
      assert whole == before + [head + last];
      assert LastName(pieces) == last;
      assert whole[|whole| - 1] == head + last;
      assert (head + last)[|head + last| - 1] == last[|last| - 1];
    } else if last == "" || last == "." {
      assert whole[..|whole| - 1] == before + [head + pieces[..n][0]] + pieces[..n][1..];
      LastNameBehind(before, head, pieces[..n]);
    }
  }

  lemma {:induction false} SplitEnd(s: string)
    requires s != "" && s[|s| - 1] != '/'
    ensures var pieces := Split(s, '/');
            var last := pieces[|pieces| - 1];
            last != "" && last[|last| - 1] == s[|s| - 1]
  {
    if |s| > 1 {
      assert s[1..][|s| - 2] == s[|s| - 1];
      SplitEnd(s[1..]);
    }
  }

  /** Whatever the spelling, a resolved target never carries a backup's name. */
  lemma ResolvedIsNoBackup(root: Path, path: string, allowCore: bool)
    requires ResolveTarget(root, path, allowCore).Some?
    ensures var t := ResolveTarget(root, path, allowCore).value; t != [] && TargetEnd(Last(t)) && !IsBackup(t)
  {
    hide NormalizePath, Split, Walk, IsSafeTarget, Display, LastName;
    ResolvedEnd(root, path, allowCore);
    WalkLast(root, Split(NormalizePath(path), '/'));
    TargetEndIsNoBackup(ResolveTarget(root, path, allowCore).value);
  }

  lemma JoinedEnd(n: string)
    requires '\\' !in n && !Contains(n, "//")
    requires TargetEnd(LastName(Split(NormalizePath(n), '/')))
    ensures TargetEnd(LastName(Split(n, '/')))
  {
    var front, back := InnerText(n);
    JoinedEndOf(front, NormalizePath(n), back);
  }

  lemma JoinedEndOf(front: string, m: string, back: string)
    requires back != "" ==> IsEdge(back[|back| - 1])
    requires TargetEnd(LastName(Split(m, '/')))
    ensures TargetEnd(LastName(Split(front + m + back, '/')))
  {
    if back == "" {
      assert front + m + back == front + m;
      var before, head := SplitBehind(front, m, '/');
      LastNameBehind(before, head, Split(m, '/'));
    } else {
      var n := front + m + back;
      assert n[|n| - 1] == back[|back| - 1];
      SplitEnd(n);
    }
  }

  /** What stripping takes away, at the two ends. */
  lemma StripParts(s: string, p: char -> bool) returns (front: string, back: string)
    ensures s == front + StripBy(s, p) + back
    ensures back != "" ==> p(back[|back| - 1])
  {
    hide LStrip, RStrip;
    var left := LStrip(s, p);
    LStripIsTail(s, p);
    RStripIsHead(left, p);
    front, back := s[..|s| - |left|], left[|RStrip(left, p)|..];
    CutTwice(s, left, RStrip(left, p));
  }

  lemma CutTwice(s: string, left: string, mid: string)
    requires |mid| <= |left| <= |s| && left == s[|s| - |left|..] && mid == left[..|mid|]
    ensures s == s[..|s| - |left|] + mid + left[|mid|..]
  {
    assert left == mid + left[|mid|..];
    assert s == s[..|s| - |left|] + left;
  }

  lemma UnquoteParts(n: string) returns (front: string, back: string)
    ensures n == front + Unquote(n) + back
    ensures back != "" ==> IsEdge(back[|back| - 1])
  {
    hide IsSpace;
    var x1, y1 := StripParts(n, IsSpace);
    var x2, y2 := StripParts(Strip(n), IsQuote);
    front, back := x1 + x2, y2 + y1;
    Regroup(x1, x2, Unquote(n), y2, y1);
  }

  /** A normalised spelling, normalised again, loses only text at its two ends. */
  lemma InnerText(n: string) returns (front: string, back: string)
    requires '\\' !in n && !Contains(n, "//")
    ensures n == front + NormalizePath(n) + back
    ensures back != "" ==> IsEdge(back[|back| - 1])
  {
    front, back := UnquoteParts(n);
    PlainMiddle(front, Unquote(n), back);
    var b := Unquote(n);
    LStripIsTail(b, IsDotSlash);
    var lost := b[..|b| - |LStrip(b, IsDotSlash)|];
    assert b == lost + NormalizePath(n);
    Regroup(front, lost, NormalizePath(n), back, "");
    front := front + lost;
  }

  lemma Regroup(a: string, b: string, c: string, d: string, e: string)
    ensures a + (b + c + d) + e == (a + b) + c + (d + e)
    ensures a + (b + c) + d == (a + b) + c + d
  {}

  lemma PlainMiddle(x: string, b: string, y: string)
    requires '\\' !in x + b + y && !Contains(x + b + y, "//")
    ensures ReplaceAll(b, "\\", "/") == b && Squeeze(b) == b
  {
    var n := x + b + y;
    NoDoubleInTail(n, |x|);
    NoDoubleInHead(n[|x|..], |b|);
    assert n[|x|..][..|b|] == b;
    assert forall i | 0 <= i < |b| :: b[i] == n[|x| + i];
    NoBackslash(b);
    SqueezeIdle(b);
  }

  lemma {:induction false} NoDoubleInHead(t: string, k: nat)
    requires k <= |t| && !Contains(t, "//")
    ensures !Contains(t[..k], "//")
  {
    if k > 0 {
      NoDoubleInHead(t[1..], k - 1);
      assert t[..k][1..] == t[1..][..k - 1];
      assert "//" <= t[..k] ==> "//" <= t;
    }
  }

  lemma TargetEndIsNoBackup(t: Path)
    requires t != [] && TargetEnd(Last(t))
    ensures !IsBackup(t)
  {
    if IsBackup(t) {
      var stamp: nat :| BackupName(Last(t), stamp);
      BackupEnd(Last(t), stamp);
    }
  }

  lemma BackupEnd(name: string, stamp: nat)
    requires BackupName(name, stamp)
    ensures name != "" && '0' <= name[|name| - 1] <= '9'
  {
    var tag := if HasTail(name, DIRECT_TAG + Decimal(stamp)) then DIRECT_TAG else INDENT_TAG;
    var tail := tag + Decimal(stamp);
    var d := Decimal(stamp);
    assert name[|name| - 1] == tail[|tail| - 1] == d[|d| - 1];
    assert d[|d| - 1] in d;
  }

  lemma BackupIsBackup(target: Path, tag: string, stamp: nat)
    requires target != [] && tag in {DIRECT_TAG, INDENT_TAG}
    ensures IsBackup(BackupPath(target, tag, stamp))
  {
    var b := BackupPath(target, tag, stamp);
    var name := Last(target) + tag + Decimal(stamp);
    assert Last(b) == name;
    assert Last(target) + tag + Decimal(stamp) == Last(target) + (tag + Decimal(stamp));
    assert HasTail(name, tag + Decimal(stamp));
    assert BackupName(Last(b), stamp);
  }

  /** The number that a text of digits spells. */
  function Number(digits: string): int {
    if digits == "" then 0 else Number(digits[..|digits| - 1]) * 10 + (digits[|digits| - 1] as int - '0' as int)
  }

  /** A stamp is written in decimal, without leading zeros. */
  lemma {:induction false} DecimalMeans(n: nat)
    ensures Number(Decimal(n)) == n && (n > 0 ==> Decimal(n)[0] != '0')
  {
    if n >= 10 {
      DecimalMeans(n / 10);
      var s := Decimal(n);
      assert s[..|s| - 1] == Decimal(n / 10);
    } else {
      assert [Digit(n)][..0] == "";
    }
  }

  lemma {:induction false} DecimalInjective(m: nat, n: nat)
    requires Decimal(m) == Decimal(n)
    ensures m == n
  {
    var a, b := Decimal(m), Decimal(n);
    assert a[|a| - 1] == Digit(m % 10) && b[|b| - 1] == Digit(n % 10);
    if m >= 10 && n >= 10 {
      assert a[..|a| - 1] == Decimal(m / 10) && b[..|b| - 1] == Decimal(n / 10);
      DecimalInjective(m / 10, n / 10);
    }
  }

  lemma NotInDigits(a: string, d: string, b: string, e: string)
    requires a != "" && a[|a| - 1] == '_' && '_' !in e && a + d == b + e
    ensures |a| <= |b|
  {
    var s := b + e;
    assert s[|a| - 1] == '_' by { assert (a + d)[|a| - 1] == '_'; }
    assert forall i | |b| <= i < |s| :: s[i] in e;
  }

  /** Where the digits at the end begin is read off the text. */
  lemma SameDigits(a: string, m: nat, b: string, n: nat)
    requires a != "" && b != "" && a[|a| - 1] == '_' && b[|b| - 1] == '_'
    requires a + Decimal(m) == b + Decimal(n)
    ensures a == b && m == n
  {
    hide Decimal;
    var d, e := Decimal(m), Decimal(n);
    NotInDigits(a, d, b, e);
    NotInDigits(b, e, a, d);
    var s := a + d;
    assert a == s[..|a|] && b == s[..|b|] && d == s[|a|..] && e == s[|b|..];
    DecimalInjective(m, n);
  }

  lemma SameTag(a: string, s: string, b: string, t: string)
    requires s in {DIRECT_TAG, INDENT_TAG} && t in {DIRECT_TAG, INDENT_TAG} && a + s == b + t
    ensures s == t && a == b
  {
    var x := a + s;
    assert x[|x| - 9] == s[|s| - 9] && x[|x| - 9] == t[|t| - 9];
    assert DIRECT_TAG[0] == '.' && INDENT_TAG[7] == 'd' && |DIRECT_TAG| == 9 && |INDENT_TAG| == 16;
    assert a == x[..|a|] && b == x[..|b|];
  }

  /** A backup's name tells its file, its kind and its stamp. */
  lemma BackupInjective(p: Path, s: string, m: nat, q: Path, t: string, n: nat)
    requires p != [] && q != [] && s in {DIRECT_TAG, INDENT_TAG} && t in {DIRECT_TAG, INDENT_TAG}
    requires BackupPath(p, s, m) == BackupPath(q, t, n)
    ensures p == q && s == t && m == n
  {
    hide Decimal;
    var b := BackupPath(p, s, m);
    assert b[|b| - 1] == Last(p) + s + Decimal(m) && b[|b| - 1] == Last(q) + t + Decimal(n);
    assert DIRECT_TAG[8] == '_' && INDENT_TAG[15] == '_';
    SameDigits(Last(p) + s, m, Last(q) + t, n);
    SameTag(Last(p), s, Last(q), t);
    assert b[..|b| - 1] == p[..|p| - 1] == q[..|q| - 1];
    assert p == p[..|p| - 1] + [Last(p)] && q == q[..|q| - 1] + [Last(q)];
  }

  /** The components that name something. */
  function Components(pieces: seq<string>): (r: seq<string>)
    ensures forall c | c in r :: c !in {"", "."} && c in pieces
  {
    if pieces == [] then []
    else
      var rest := Components(pieces[..|pieces| - 1]);
      var last := pieces[|pieces| - 1];
      if last == "" || last == "." then rest else rest + [last]
  }

  lemma {:induction false} WalkWithoutParents(base: Path, pieces: seq<string>)
    requires ".." !in pieces
    ensures Walk(base, pieces) == base + Components(pieces)
  {
    if pieces != [] {
      var init := pieces[..|pieces| - 1];
      forall c | c in init ensures c in pieces {}
      WalkWithoutParents(base, init);
    }
  }

  lemma ComponentsStep(init: seq<string>, last: string)
    ensures Components(init + [last]) == if last == "" || last == "." then Components(init) else Components(init) + [last]
  {
    assert (init + [last])[..|init|] == init;
  }

  lemma {:induction false} ComponentsKeep(pieces: seq<string>)
    ensures ".." in pieces <==> ".." in Components(pieces)
    ensures LastName(pieces) == if Components(pieces) == [] then "" else Last(Components(pieces))
    ensures pieces != [] && pieces[0] != "" && pieces[0] != "." ==> Components(pieces) != [] && Components(pieces)[0] == pieces[0]
  {
    if pieces != [] {
      hide Components, LastName;
      var init, last := pieces[..|pieces| - 1], pieces[|pieces| - 1];
      assert pieces == init + [last];
      ComponentsStep(init, last);
      LastNameSnoc(init, last);
      ComponentsKeep(init);
      if init == [] { NoComponents(); }
    }
  }

  lemma NoComponents()
    ensures Components([]) == []
  {}

  lemma {:induction false} ComponentsAppend(a: seq<string>, b: seq<string>)
    ensures Components(a + b) == Components(a) + Components(b)
  {
    hide Components;
    if b == [] {
      assert a + b == a;
      NoComponents();
    } else {
      var init, last := b[..|b| - 1], b[|b| - 1];
      assert b == init + [last] && a + b == (a + init) + [last];
      ComponentsAppend(a, init);
      ComponentsStep(init, last);
      ComponentsStep(a + init, last);
    }
  }

  /** Splitting at slashes of either kind. */
  function SplitAny(s: string): (r: seq<string>)
    ensures r != []
  {
    if s == "" then [""]
    else
      var rest := SplitAny(s[1..]);
      if s[0] == '/' || s[0] == '\\' then [""] + rest else [[s[0]] + rest[0]] + rest[1..]
  }

  lemma {:induction false} SplitAfterReplace(s: string)
    ensures Split(ReplaceAll(s, "\\", "/"), '/') == SplitAny(s)
  {
    if s != "" {
      SplitAfterReplace(s[1..]);
      OnePrefix('\\', s);
      var rest := ReplaceAll(s[1..], "\\", "/");
      assert ("/" + rest)[1..] == rest && ([s[0]] + rest)[1..] == rest;
    }
  }

  lemma {:induction false} StripAfterReplace(s: string)
    ensures LStrip(ReplaceAll(s, "\\", "/"), IsDotSlash) == ReplaceAll(LStrip(s, IsLead), "\\", "/")
  {
    if s != "" {
      StripAfterReplace(s[1..]);
      OnePrefix('\\', s);
      var rest := ReplaceAll(s[1..], "\\", "/");
      assert ("/" + rest)[1..] == rest && ([s[0]] + rest)[1..] == rest;
    }
  }

  predicate IsLead(c: char) { IsDotSlash(c) || c == '\\' }

  lemma {:induction false} StripAfterSqueeze(t: string)
    ensures LStrip(Squeeze(t), IsDotSlash) == Squeeze(LStrip(t, IsDotSlash))
  {
    if t != "" {
      StripAfterSqueeze(t[1..]);
      PairPrefix('/', '/', t);
      var rest := Squeeze(t[1..]);
      assert ([t[0]] + rest)[1..] == rest;
    }
  }

  lemma EmptyFirst(rest: seq<string>)
    ensures Components([""] + rest) == Components(rest)
  {
    OnePiece("");
    ComponentsAppend([""], rest);
  }

  lemma FirstComponent(name: string, rest: seq<string>)
    ensures Components([name] + rest) == (if name == "" || name == "." then [] else [name]) + Components(rest)
  {
    OnePiece(name);
    ComponentsAppend([name], rest);
  }

  /** Empty pieces name nothing, so squeezing changes no name. */
  lemma {:induction false} SqueezeNames(t: string)
    ensures Components(Split(Squeeze(t), '/')) == Components(Split(t, '/'))
    ensures Split(Squeeze(t), '/')[0] == Split(t, '/')[0]
    ensures Components(Split(Squeeze(t), '/')[1..]) == Components(Split(t, '/')[1..])
  {
    hide Components;
    if t != "" {
      SqueezeNames(t[1..]);
      PairPrefix('/', '/', t);
      var was := Split(t[1..], '/');
      if "//" <= t {
        SlashFirst(t[1..]);
        EmptyFirst(was);
        assert Split(t, '/') == [""] + was && ([""] + was)[1..] == was;
        EmptyTail(was);
      } else {
        SqueezeStep(t);
      }
    }
  }

  lemma SlashFirst(t: string)
    requires t != "" && t[0] == '/'
    ensures Split(t, '/')[0] == ""
  {}

  lemma EmptyTail(pieces: seq<string>)
    requires pieces != [] && pieces[0] == ""
    ensures Components(pieces) == Components(pieces[1..])
  {
    assert pieces == [""] + pieces[1..];
    EmptyFirst(pieces[1..]);
  }

  lemma SqueezeStep(t: string)
    requires t != "" && !("//" <= t)
    requires var was, now := Split(t[1..], '/'), Split(Squeeze(t[1..]), '/');
             Components(now) == Components(was) && now[0] == was[0] && Components(now[1..]) == Components(was[1..])
    ensures Components(Split(Squeeze(t), '/')) == Components(Split(t, '/'))
    ensures Split(Squeeze(t), '/')[0] == Split(t, '/')[0]
    ensures Components(Split(Squeeze(t), '/')[1..]) == Components(Split(t, '/')[1..])
  {
    hide Components;
    var was, now := Split(t[1..], '/'), Split(Squeeze(t[1..]), '/');
    var rest := Squeeze(t[1..]);
    assert ([t[0]] + rest)[1..] == rest;
    if t[0] == '/' {
      EmptyFirst(was);
      EmptyFirst(now);
      assert ([""] + was)[1..] == was && ([""] + now)[1..] == now;
    } else {
      var name := [t[0]] + was[0];
      FirstComponent(name, was[1..]);
      FirstComponent(name, now[1..]);
      assert ([name] + was[1..])[1..] == was[1..] && ([name] + now[1..])[1..] == now[1..];
    }
  }

  /** What a normalised spelling names, for every input: without white space and quotes around it, and without the
      dots and slashes of either kind that it begins with, the names that stand between slashes of either kind. */
  lemma NormalizedNames(path: string)
    ensures Components(Split(NormalizePath(path), '/')) == Components(SplitAny(LStrip(Unquote(path), IsLead)))
  {
    hide Components, Split, SplitAny, Squeeze, LStrip, ReplaceAll, Unquote;
    var b := Unquote(path);
    StripAfterSqueeze(ReplaceAll(b, "\\", "/"));
    StripAfterReplace(b);
    var r := ReplaceAll(LStrip(b, IsLead), "\\", "/");
    SqueezeNames(r);
    SplitAfterReplace(LStrip(b, IsLead));
  }

  /** The suffix of a name is its last dot and what follows, when something stands on either side of it. */
  lemma SuffixIff(name: string, suffix: string)
    ensures suffix != "" ==>
              (Suffix(name) == suffix <==>
                 && |suffix| > 1 && suffix[0] == '.' && '.' !in suffix[1..]
                 && |suffix| < |name| && name[|name| - |suffix|..] == suffix)
  {
    var i := LastDot(name);
    if |suffix| > 1 && suffix[0] == '.' && '.' !in suffix[1..] && |suffix| < |name| && name[|name| - |suffix|..] == suffix {
      var k := |name| - |suffix|;
      assert name[k..][0] == name[k];
      forall j | k < j < |name| ensures name[j] != '.' { assert name[j] == suffix[1..][j - k - 1]; }
      assert i == k;
    }
    if suffix != "" && Suffix(name) == suffix {
      assert suffix == name[i..];
      forall c | c in suffix[1..] ensures c != '.' {
        var j :| 0 <= j < |suffix[1..]| && suffix[1..][j] == c;
        assert name[i + 1 + j] == c;
      }
    }
  }

  /** A text starts with a slash-free name and a slash exactly when that name is its first piece of several. */
  lemma {:induction false} FirstPiece(name: string, s: string)
    requires '/' !in name
    ensures name + "/" <= s <==> |Split(s, '/')| >= 2 && Split(s, '/')[0] == name
  {
    if s != "" {
      var rest := Split(s[1..], '/');
      if name == "" {
        assert name + "/" == ['/'];
        OnePrefix('/', s);
      } else {
        FirstPiece(name[1..], s[1..]);
        var w := name + "/";
        assert w[0] == name[0] && w[1..] == name[1..] + "/";
        assert name[0] in name;
        ConsPrefix(w, s);
        assert name == [name[0]] + name[1..];
      }
    }
  }

  lemma ConsPrefix(a: string, b: string)
    requires a != "" && b != ""
    ensures a <= b <==> a[0] == b[0] && a[1..] <= b[1..]
  {
    assert a == [a[0]] + a[1..] && b == [b[0]] + b[1..];
    if a[0] == b[0] && a[1..] <= b[1..] {
      assert b[1..] == a[1..] + b[1..][|a| - 1..];
      assert b == a + b[1..][|a| - 1..];
    }
  }

  lemma NoDotNoSuffix(name: string)
    requires '.' !in name
    ensures Suffix(name) == ""
  {}

  lemma FirstIsName(n: string)
    requires n != "" && !IsDotSlash(n[0])
    ensures var first := Split(n, '/')[0]; first != "" && first[0] == n[0]
  {}

  /** The check, in terms of the components that the spelling names: there are some, none of them is a
      parent component, the last one has a safe suffix in any case, and the first one is "workspace" in any
      case unless other files are allowed. */
  lemma SafeTargetMeans(path: string, allowCore: bool)
    ensures var parts := Components(Split(NormalizePath(path), '/'));
            IsSafeTarget(path, allowCore) <==>
              && parts != [] && ".." !in parts
              && Suffix(Lower(Last(parts))) in SAFE_SUFFIXES
              && (allowCore || Lower(parts[0]) == "workspace")
  {
    hide NormalizePath, Split, Components, LastName, Lower, LowerAll, Suffix;
    var n := NormalizePath(path);
    var pieces := Split(n, '/');
    NormalizedForm(path);
    ComponentsKeep(pieces);
    SplitOfLower(n);
    LastNameOfLower(pieces);
    if n == "" {
      EmptyPath();
    } else {
      FirstIsName(n);
      WorkspaceName();
      assert "workspace" + "/" == "workspace/";
      FirstPiece("workspace", Lower(n));
      if |pieces| == 1 { OnePiece(pieces[0]); assert pieces == [pieces[0]]; }
    }
  }

  lemma OnePiece(piece: string)
    ensures Components([piece]) == if piece == "" || piece == "." then [] else [piece]
  {
    assert [piece][..0] == [];
    assert Components([piece][..0]) == [];
  }

  lemma EmptyPath()
    ensures Components(Split("", '/')) == []
  {
    assert Split("", '/') == [""];
  }

  lemma WorkspaceName()
    ensures '/' !in "workspace" && Suffix("workspace") == "" && "" !in SAFE_SUFFIXES
  {
    NoDotNoSuffix("workspace");
  }

  /** What acceptance means, for every input string: the checked spelling has no parent component and
      no leading slash or dot, and under any root it names a path strictly below that root. */
  lemma AcceptedTarget(root: Path, path: string, allowCore: bool)
    requires IsSafeTarget(path, allowCore)
    ensures var n := NormalizePath(path);
            && n != "" && n[0] != '/' && n[0] != '.'
            && ".." !in Split(n, '/')
            && Walk(root, Split(n, '/')) == root + Components(Split(n, '/'))
            && Components(Split(n, '/')) != []
            && TargetEnd(Last(Walk(root, Split(n, '/'))))
  {
    var n := NormalizePath(path);
    NormalizedForm(path);
    var pieces := Split(n, '/');
    WalkWithoutParents(root, pieces);
    WalkWithoutParents([], pieces);
    SplitOfLower(n);
    LastNameOfLower(pieces);
    SafeSuffixEnd(LastName(pieces));
    WalkLast(root, pieces);
    WalkLast([], pieces);
  }

  /** The checked spelling and the joined one agree exactly when the joined one is settled. Then resolving
      succeeds exactly when the check does, and the result lies below the root. */
  lemma ResolveSettled(root: Path, path: string, allowCore: bool)
    ensures NormalizePath(NormalizePath(path)) == NormalizePath(path) <==> Settled(NormalizePath(path))
    ensures Settled(NormalizePath(path)) ==>
              ResolveTarget(root, path, allowCore) ==
              if IsSafeTarget(path, allowCore) then Some(root + Components(Split(NormalizePath(path), '/'))) else None
  {
    var n := NormalizePath(path);
    SettledIffUnchanged(n);
    if Settled(n) && IsSafeTarget(path, allowCore) {
      AcceptedTarget(root, path, allowCore);
      DisplayBelow(root, Components(Split(n, '/')));
    }
  }

  lemma {:induction false} DisplayBelow(root: Path, more: Path)
    ensures Display(root) <= Display(root + more)
  {
    if more == [] {
      assert root + more == root;
    } else {
      var init := more[..|more| - 1];
      DisplayBelow(root, init);
      assert root + more == (root + init) + [Last(more)];
      if root + init != [] {
        JoinSnoc(root + init, Last(more), "/");
      }
    }
  }

  // ---- Where a resolved target can lie ----

  /** How far the pieces of a spelling climb above their start, and the names left at the end. */
  datatype Climbed = Climbed(up: nat, names: Path)

  function Climb(pieces: seq<string>): Climbed {
    if pieces == [] then Climbed(0, [])
    else
      var c := Climb(pieces[..|pieces| - 1]);
      var last := pieces[|pieces| - 1];
      if last == "" || last == "." then c
      else if last != ".." then c.(names := c.names + [last])
      else if c.names == [] then c.(up := c.up + 1)
      else c.(names := c.names[..|c.names| - 1])
  }

  /** How many of the root's own components a climb of `up` leaves. */
  function Kept(root: Path, up: nat): (k: nat)
    ensures k <= |root|
  {
    if up <= |root| then |root| - up else 0
  }

  lemma {:induction false} ClimbIsWalk(root: Path, pieces: seq<string>)
    ensures var c := Climb(pieces); Walk(root, pieces) == root[..Kept(root, c.up)] + c.names
  {
    if pieces != [] {
      var init, last := pieces[..|pieces| - 1], pieces[|pieces| - 1];
      var c := Climb(init);
      ClimbIsWalk(root, init);
      var here := root[..Kept(root, c.up)];
      if last == ".." && c.names != [] {
        assert (here + c.names)[..|here + c.names| - 1] == here + c.names[..|c.names| - 1];
      } else if last == ".." {
        assert here + [] == here;
      } else if last != "" && last != "." {
        assert (here + c.names) + [last] == here + (c.names + [last]);
      }
    }
  }

  lemma {:induction false} ClimbEnds(pieces: seq<string>)
    requires LastName(pieces) !in {"", "..", "."}
    ensures Climb(pieces).names != []
  {
    if pieces[|pieces| - 1] in {"", "."} { ClimbEnds(pieces[..|pieces| - 1]); }
  }

  lemma {:induction false} NoParentsNoClimb(pieces: seq<string>)
    requires ".." !in pieces
    ensures Climb(pieces).up == 0
  {
    if pieces != [] {
      forall c | c in pieces[..|pieces| - 1] ensures c in pieces {}
      NoParentsNoClimb(pieces[..|pieces| - 1]);
    }
  }

  lemma PrefixOfBoth(root: Path, k: nat, names: Path)
    requires k <= |root|
    ensures root < root[..k] + names <==> root[k..] < names
  {
    var t := root[..k] + names;
    assert root == root[..k] + root[k..];
    if root[k..] < names {
      assert t[..|root|] == root[..k] + names[..|root| - k];
    }
    if root < t {
      assert t[k..|root|] == root[k..] && t[k..|root|] == names[..|root| - k];
    }
  }

  /** For every spelling that resolves: the target lies strictly below the root exactly when the names that
      are left re-enter the components of the root that the spelling climbed out of. So it does whenever the
      joined spelling never climbs above the root, and in particular when it has no parent component. */
  lemma ContainedIff(root: Path, path: string, allowCore: bool)
    requires ResolveTarget(root, path, allowCore).Some?
    ensures var t := ResolveTarget(root, path, allowCore).value;
            var pieces := Split(NormalizePath(path), '/');
            var c := Climb(pieces);
            && (root < t <==> root[Kept(root, c.up)..] < c.names)
            && (c.up == 0 ==> root < t)
            && (".." !in pieces ==> root < t)
  {
    hide NormalizePath, Split, Walk, Climb, IsSafeTarget, Display;
    var pieces := Split(NormalizePath(path), '/');
    var c := Climb(pieces);
    ClimbIsWalk(root, pieces);
    PrefixOfBoth(root, Kept(root, c.up), c.names);
    ResolvedEnd(root, path, allowCore);
    ClimbEnds(pieces);
    assert c.up == 0 ==> root[Kept(root, c.up)..] == [];
    if ".." !in pieces { NoParentsNoClimb(pieces); }
  }

  lemma ResolvedEnd(root: Path, path: string, allowCore: bool)
    requires ResolveTarget(root, path, allowCore).Some?
    ensures TargetEnd(LastName(Split(NormalizePath(path), '/')))
    ensures LastName(Split(NormalizePath(path), '/')) !in {"", "..", "."}
  {
    hide NormalizePath, Split, Lower, LowerAll, LastName, Suffix, Walk, Display;
    var n := NormalizePath(path);
    NormalizedForm(path);
    var m := NormalizePath(n);
    SplitOfLower(m);
    LastNameOfLower(Split(m, '/'));
    SafeSuffixEnd(LastName(Split(m, '/')));
    JoinedEnd(n);
  }

  /** The components of an absolute path. */
  predicate Proper(p: Path) { forall c | c in p :: c != "" && '/' !in c }

  lemma SplitOfDisplay(p: Path)
    requires p != [] && Proper(p)
    ensures Split(Display(p), '/') == [""] + p
  {
    SplitOfJoin([""] + p, '/');
    assert ([""] + p)[1..] == p;
    assert "" + "/" + Join(p, "/") == Display(p);
  }

  lemma {:induction false} WalkProper(root: Path, pieces: seq<string>)
    requires Proper(root) && forall c | c in pieces :: '/' !in c
    ensures Proper(Walk(root, pieces))
  {
    if pieces != [] {
      forall c | c in pieces[..|pieces| - 1] ensures c in pieces {}
      WalkProper(root, pieces[..|pieces| - 1]);
    }
  }

  /** And no target lies further away: it keeps all of the root but the last component, and what stands in
      that one's place begins with it. */
  lemma NeverFurtherThanSibling(root: Path, path: string, allowCore: bool)
    requires Proper(root) && root != [] && ResolveTarget(root, path, allowCore).Some?
    ensures var t := ResolveTarget(root, path, allowCore).value;
            && |root| <= |t| && t[..|root| - 1] == root[..|root| - 1] && Last(root) <= t[|root| - 1]
            && (root <= t <==> t[|root| - 1] == Last(root))
  {
    hide IsSafeTarget, NormalizePath, Walk, Display;
    var pieces := Split(NormalizePath(path), '/');
    var t := ResolveTarget(root, path, allowCore).value;
    WalkProper(root, pieces);
    DisplayNotEmpty(t);
    if t == [] { DisplayLength(root); }
    SplitOfDisplay(root);
    SplitOfDisplay(t);
    var rest := Display(t)[|Display(root)|..];
    assert Display(t) == Display(root) + rest;
    var before, head := SplitBehind(Display(root), rest, '/');
    SiblingPieces(root, t, before, head, Split(rest, '/'));
  }

  lemma DisplayNotEmpty(t: Path)
    ensures t == [] ==> Display(t) == "/"
  {}

  lemma DisplayLength(p: Path)
    requires p != [] && Proper(p)
    ensures |Display(p)| >= 2
  {
    assert p[0] in p;
  }

  lemma SiblingPieces(root: Path, t: Path, before: seq<string>, head: string, pieces: seq<string>)
    requires root != [] && pieces != []
    requires [""] + root == before + [head]
    requires [""] + t == before + [head + pieces[0]] + pieces[1..]
    ensures |root| <= |t| && t[..|root| - 1] == root[..|root| - 1] && Last(root) <= t[|root| - 1]
    ensures root <= t <==> t[|root| - 1] == Last(root)
  {
    var n := |root|;
    assert |before| == n && ([""] + root)[n] == head == Last(root);
    assert ([""] + t)[n] == head + pieces[0] == t[n - 1];
    forall i | 0 <= i < n - 1 ensures t[i] == root[i] {
      assert ([""] + t)[i + 1] == before[i + 1] == ([""] + root)[i + 1];
    }
    if t[n - 1] == Last(root) { assert forall i | 0 <= i < n :: t[i] == root[i]; }
  }

  // ---- A spelling whose target lies outside ----

  lemma {:induction false} NoDouble(t: string)
    requires forall i | 0 <= i < |t| - 1 :: t[i] != '/' || t[i + 1] != '/'
    ensures !Contains(t, "//")
  {
    PairPrefix('/', '/', t);
    if t != "" { NoDouble(t[1..]); }
  }

  lemma {:induction false} LStripAll(lead: string, s: string, p: char -> bool)
    requires (forall i | 0 <= i < |lead| :: p(lead[i])) && s != "" && !p(s[0])
    ensures LStrip(lead + s, p) == s
  {
    if lead == "" {
      assert lead + s == s;
    } else {
      assert (lead + s)[1..] == lead[1..] + s;
      LStripAll(lead[1..], s, p);
    }
  }

  lemma Keep(s: string, p: char -> bool)
    requires s != "" && !p(s[0]) && !p(s[|s| - 1])
    ensures LStrip(s, p) == s && RStrip(s, p) == s
  {}

  /** No backslash and no double slash. */
  predicate Flat(t: string) {
    '\\' !in t && forall i | 0 <= i < |t| - 1 :: t[i] != '/' || t[i + 1] != '/'
  }

  lemma FlatBoth(a: string, b: string)
    requires Flat(a) && Flat(b) && a != "" && b != "" && (a[|a| - 1] != '/' || b[0] != '/')
    ensures Flat(a + b)
  {
    var t := a + b;
    forall i | 0 <= i < |t| - 1 ensures t[i] != '/' || t[i + 1] != '/' {
      if i >= |a| { assert t[i] == b[i - |a|] && t[i + 1] == b[i + 1 - |a|]; }
    }
  }

  /** White space in front goes, then dots and slashes in front. */
  lemma NormalizedAs(lead: string, dots: string, n: string)
    requires forall i | 0 <= i < |lead| :: IsSpace(lead[i])
    requires dots != "" && !IsEdge(dots[0]) && forall i | 0 <= i < |dots| :: IsDotSlash(dots[i])
    requires n != "" && !IsDotSlash(n[0]) && !IsEdge(n[|n| - 1]) && Flat(dots) && Flat(n)
    ensures NormalizePath(lead + (dots + n)) == n && Flat(dots + n)
  {
    hide IsSpace, IsQuote, ReplaceAll, Squeeze, LStrip, RStrip, Contains, Flat;
    var mid := dots + n;
    FlatBoth(dots, n);
    UnquoteLed(lead, mid);
    NoBackslash(mid);
    FlatIsIdle(mid);
    SqueezeIdle(mid);
    LStripAll(dots, n, IsDotSlash);
  }

  lemma FlatIsIdle(t: string)
    requires Flat(t)
    ensures '\\' !in t && !Contains(t, "//")
  {
    NoDouble(t);
  }

  lemma UnquoteLed(lead: string, mid: string)
    requires forall i | 0 <= i < |lead| :: IsSpace(lead[i])
    requires mid != "" && !IsEdge(mid[0]) && !IsEdge(mid[|mid| - 1])
    ensures Unquote(lead + mid) == mid
  {
    hide IsSpace, IsQuote, LStrip, RStrip;
    LStripAll(lead, mid, IsSpace);
    Keep(mid, IsSpace);
    Keep(mid, IsQuote);
  }

  // The spelling that is joined, piece by piece.
  const DOTS: string := "../../../"
  const CHECKED: string := "workspace/x.py"
  const JOINED: string := " " + (DOTS + CHECKED)
  const RESOLVED: string := " " + ("./" + JOINED)

  lemma FlatParts()
    ensures Flat(DOTS) && Flat(CHECKED) && Flat(" ") && Flat("./")
    ensures forall i | 0 <= i < |DOTS| :: IsDotSlash(DOTS[i])
    ensures DOTS[0] == '.' && DOTS[8] == '/' && |DOTS| == 9
    ensures CHECKED[0] == 'w' && CHECKED[13] == 'y' && |CHECKED| == 14
  {}

  lemma EdgeParts()
    ensures !IsEdge('.') && !IsEdge('y') && IsSpace(' ') && !IsDotSlash('w') && !IsDotSlash(' ')
  {}

  lemma ThreeSpellings()
    ensures NormalizePath("" + ("./" + RESOLVED)) == RESOLVED
    ensures NormalizePath(RESOLVED) == JOINED
    ensures NormalizePath(JOINED) == CHECKED
  {
    hide NormalizePath, Flat, IsSpace, IsQuote;
    FlatParts();
    EdgeParts();
    NormalizedAs(" ", DOTS, CHECKED);
    FlatBoth(" ", DOTS + CHECKED);
    NormalizedAs(" ", "./", JOINED);
    FlatBoth(" ", "./" + JOINED);
    NormalizedAs("", "./", RESOLVED);
  }

  lemma CheckedPieces()
    ensures Split(CHECKED, '/') == ["workspace", "x.py"]
  {
    SplitOfJoin(["workspace", "x.py"], '/');
    assert Join(["workspace", "x.py"], "/") == CHECKED;
  }

  lemma JoinCons(first: string, rest: seq<string>, sep: string)
    requires rest != []
    ensures Join([first] + rest, sep) == first + sep + Join(rest, sep)
  {
    assert ([first] + rest)[1..] == rest;
  }

  lemma JoinedText()
    ensures Join([" ..", "..", "..", "workspace", "x.py"], "/") == JOINED
  {
    hide Join;
    JoinOne("x.py", "/");
    JoinCons("workspace", ["x.py"], "/");
    JoinCons("..", ["workspace", "x.py"], "/");
    JoinCons("..", ["..", "workspace", "x.py"], "/");
    JoinCons(" ..", ["..", "..", "workspace", "x.py"], "/");
    assert ["workspace"] + ["x.py"] == ["workspace", "x.py"];
    assert [".."] + ["workspace", "x.py"] == ["..", "workspace", "x.py"];
    assert [".."] + ["..", "workspace", "x.py"] == ["..", "..", "workspace", "x.py"];
    assert [" .."] + ["..", "..", "workspace", "x.py"] == [" ..", "..", "..", "workspace", "x.py"];
  }

  lemma JoinOne(line: string, sep: string)
    ensures Join([line], sep) == line
  {}

  lemma SlashFree()
    ensures forall line | line in [" ..", "..", "..", "workspace", "x.py"] :: '/' !in line
  {}

  lemma JoinedPieces()
    ensures Split(JOINED, '/') == [" ..", "..", "..", "workspace", "x.py"]
  {
    hide Join, Split;
    JoinedText();
    SlashFree();
    SplitOfJoin([" ..", "..", "..", "workspace", "x.py"], '/');
  }

  lemma JoinedWalk()
    ensures Walk(["home", "u", "work"], [" ..", "..", "..", "workspace", "x.py"]) == ["home", "u", "workspace", "x.py"]
  {
    var root: Path := ["home", "u", "work"];
    var p := [" ..", "..", "..", "workspace", "x.py"];
    assert p[..4] == [" ..", "..", "..", "workspace"] && p[..4][..3] == [" ..", "..", ".."];
    assert p[..4][..3][..2] == [" ..", ".."] && p[..4][..3][..2][..1] == [" .."];
    assert Walk(root, [" .."]) == root + [" .."] by { assert [" .."][..0] == []; }
    assert Walk(root, [" ..", ".."]) == root;
    assert Walk(root, [" ..", "..", ".."]) == ["home", "u"];
    assert Walk(root, [" ..", "..", "..", "workspace"]) == ["home", "u", "workspace"];
  }

  lemma CheckedIsSafe()
    ensures IsSafeTarget(JOINED, false)
  {
    hide NormalizePath, Split, Suffix, IsSafeTarget, Lower;
    ThreeSpellings();
    CheckedPieces();
    SafeTargetMeans(JOINED, false);
    TwoComponents();
    LowerNames();
  }

  lemma TwoComponents()
    ensures Components(["workspace", "x.py"]) == ["workspace", "x.py"]
  {
    assert ["workspace", "x.py"][..1] == ["workspace"];
    OnePiece("workspace");
  }

  lemma LowerNames()
    ensures Lower("workspace") == "workspace" && Suffix(Lower("x.py")) == ".py"
  {
    hide Lower;
    forall i | 0 <= i < 9 ensures Lower("workspace")[i] == "workspace"[i] {}
    forall i | 0 <= i < 4 ensures Lower("x.py")[i] == "x.py"[i] {}
    assert Lower("workspace") == "workspace" && Lower("x.py") == "x.py";
    assert LastDot("x.py") == 1;
    assert "x.py"[1..] == ".py";
  }

  lemma ShownPrefix()
    ensures Display(["home", "u", "work"]) <= Display(["home", "u", "workspace", "x.py"])
  {
    var a: Path := ["home", "u", "work"];
    var b: Path := ["home", "u", "workspace", "x.py"];
    assert a[1..] == ["u", "work"] && a[1..][1..] == ["work"];
    assert b[1..] == ["u", "workspace", "x.py"] && b[1..][1..] == ["workspace", "x.py"] && b[1..][1..][1..] == ["x.py"];
    assert Display(a) == "/home/u/work";
    assert Display(b) == "/home/u/workspace/x.py";
    assert Display(b)[..12] == "/home/u/work";
  }

  /** One such spelling, which the parser makes of "./ ./ ../../../workspace/x.py": what is checked is
      "workspace/x.py", and what is joined climbs out of the root into the directory beside it. */
  lemma TargetCanLeaveRoot()
    ensures NormalizePath("./" + RESOLVED) == RESOLVED && NormalizePath(NormalizePath(RESOLVED)) == CHECKED
    ensures var root := ["home", "u", "work"];
            var t := ["home", "u", "workspace", "x.py"];
            ResolveTarget(root, RESOLVED, false) == Some(t) && !(root <= t)
  {
    hide NormalizePath, Split, Walk, IsSafeTarget, Display;
    ThreeSpellings();
    assert "" + ("./" + RESOLVED) == "./" + RESOLVED;
    JoinedPieces();
    JoinedWalk();
    CheckedIsSafe();
    ShownPrefix();
    var root: Path, t: Path := ["home", "u", "work"], ["home", "u", "workspace", "x.py"];
    assert root[2] != t[2];
  }
}
