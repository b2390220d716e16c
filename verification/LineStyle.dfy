/** Splitting a file into lines and joining them again in the file's own newline style. */
module LineStyle {
  import opened Text

  const LF: string := "\n"
  const CRLF: string := "\r\n"

  datatype Lines = Lines(lines: seq<string>, newline: string, finalNewline: bool)

  function LineEndingOf(content: string): string {
    if Contains(content, CRLF) then CRLF else LF
  }

  /** Every line break becomes one line feed. */
  function Normalize(content: string): string {
    ReplaceAll(ReplaceAll(content, CRLF, LF), "\r", LF)
  }

  function SplitKeepStyle(content: string): (r: Lines)
    ensures r.lines != []
  {
    var normalized := Normalize(content);
    var lines := Split(normalized, '\n');
    var final := normalized != [] && normalized[|normalized| - 1] == '\n';
    SplitEndsWithBreak(normalized);
    Lines(if final then lines[..|lines| - 1] else lines, LineEndingOf(content), final)
  }

  function JoinKeepStyle(lines: seq<string>, newline: string, finalNewline: bool): string {
    Join(lines, newline) + if finalNewline then newline else ""
  }

  /** What a file's text becomes when it is split and joined once. */
  function Canonical(content: string): string {
    var s := SplitKeepStyle(content);
    JoinKeepStyle(s.lines, s.newline, s.finalNewline)
  }

  /** One newline style only: line feeds alone, or carriage return and line feed always paired. */
  ghost predicate Uniform(content: string) {
    || '\r' !in content
    || (forall i | 0 <= i < |content| :: PairedAt(content, i))
  }

  predicate PairedAt(content: string, i: nat)
    requires i < |content|
  {
    && (content[i] == '\n' ==> i > 0 && content[i - 1] == '\r')
    && (content[i] == '\r' ==> i + 1 < |content| && content[i + 1] == '\n')
  }

  predicate Unbroken(line: string) { forall i | 0 <= i < |line| :: line[i] != '\r' && line[i] != '\n' }

  predicate NoBreaks(lines: seq<string>) {
    forall line | line in lines :: Unbroken(line)
  }

  // ---- Splitting ----

  /** A text that ends with a line feed splits into at least two lines, the last one empty. */
  lemma {:induction false} SplitEndsWithBreak(s: string)
    ensures s != [] && s[|s| - 1] == '\n' ==> |Split(s, '\n')| >= 2
    ensures var r := Split(s, '\n'); (s == [] || s[|s| - 1] == '\n') <==> r[|r| - 1] == []
  {
    if s != [] {
      SplitEndsWithBreak(s[1..]);
      var rest := Split(s[1..], '\n');
      if |s| > 1 {
        assert s[1..][|s| - 2] == s[|s| - 1];
      }
    }
  }

  // ---- Line breaks, one character at a time ----

  /** `Normalize` in a single pass. */
  function OnePass(s: string): (r: string)
    ensures '\r' !in r
  {
    if s == [] then []
    else if CRLF <= s then LF + OnePass(s[2..])
    else if s[0] == '\r' then LF + OnePass(s[1..])
    else [s[0]] + OnePass(s[1..])
  }

  lemma {:induction false} NormalizeInOnePass(s: string)
    ensures Normalize(s) == OnePass(s)
  {
    if s == [] {
    } else if CRLF <= s {
      NormalizeInOnePass(s[2..]);
      var inner := ReplaceAll(s[2..], CRLF, LF);
      assert (LF + inner)[1..] == inner;
    } else {
      NormalizeInOnePass(s[1..]);
      var inner := ReplaceAll(s[1..], CRLF, LF);
      assert ([s[0]] + inner)[1..] == inner;
    }
  }

  lemma OnePassStep(s: string)
    requires s != ""
    ensures OnePass(s) == if |s| >= 2 && s[0] == '\r' && s[1] == '\n' then LF + OnePass(s[2..])
                          else [if s[0] == '\r' then '\n' else s[0]] + OnePass(s[1..])
  {
    PairPrefix('\r', '\n', s);
  }

  /** Normalising goes piece by piece, unless the cut falls inside a pair. */
  lemma {:induction false} OnePassConcat(a: string, b: string)
    requires a == "" || a[|a| - 1] != '\r' || b == "" || b[0] != '\n'
    ensures OnePass(a + b) == OnePass(a) + OnePass(b)
  {
    hide OnePass;
    if a == "" {
      assert a + b == b;
      OnePassNone();
    } else {
      OnePassStep(a);
      OnePassStep(a + b);
      if |a| >= 2 && a[0] == '\r' && a[1] == '\n' {
        OnePassConcat(a[2..], b);
        assert (a + b)[2..] == a[2..] + b;
      } else {
        OnePassConcat(a[1..], b);
        assert (a + b)[1..] == a[1..] + b;
      }
    }
  }

  lemma OnePassNone()
    ensures OnePass("") == ""
  {}

  /** Paired line breaks only, read from the left. */
  predicate Paired(s: string) {
    || s == []
    || (CRLF <= s && Paired(s[2..]))
    || (s[0] != '\r' && s[0] != '\n' && Paired(s[1..]))
  }

  lemma {:induction false} PairedMeaning(s: string)
    ensures Paired(s) <==> forall i | 0 <= i < |s| :: PairedAt(s, i)
  {
    if s != [] {
      if CRLF <= s {
        PairedMeaning(s[2..]);
        PairedShift(s, 2);
      } else if s[0] != '\r' && s[0] != '\n' {
        PairedMeaning(s[1..]);
        PairedShift(s, 1);
      } else {
        assert !PairedAt(s, 0);
      }
    }
  }

  lemma PairedShift(s: string, k: nat)
    requires 0 < k <= |s| && s[k - 1] != '\r'
    requires forall i | 0 <= i < k :: PairedAt(s, i)
    ensures (forall i | 0 <= i < |s| :: PairedAt(s, i)) <==> (forall i | 0 <= i < |s| - k :: PairedAt(s[k..], i))
  {
    var t := s[k..];
    forall i | 0 <= i < |t|
      ensures PairedAt(t, i) <==> PairedAt(s, i + k)
    {
      assert t[i] == s[i + k];
      if i > 0 { assert t[i - 1] == s[i + k - 1]; }
    }
    if forall i | 0 <= i < |t| :: PairedAt(t, i) {
      forall i | 0 <= i < |s| ensures PairedAt(s, i) {
        if i >= k { assert PairedAt(t, i - k); }
      }
    }
  }

  /** Line feeds written as pairs. */
  function Widen(s: string): string {
    if s == [] then []
    else (if s[0] == '\n' then CRLF else [s[0]]) + Widen(s[1..])
  }

  lemma {:induction false} WidenConcat(a: string, b: string)
    ensures Widen(a + b) == Widen(a) + Widen(b)
  {
    if a == [] {
      assert a + b == b;
    } else {
      WidenConcat(a[1..], b);
      var head := if a[0] == '\n' then CRLF else [a[0]];
      assert (a + b)[1..] == a[1..] + b && (a + b)[0] == a[0];
      assert head + (Widen(a[1..]) + Widen(b)) == (head + Widen(a[1..])) + Widen(b);
    }
  }

  lemma {:induction false} WidenPlain(s: string)
    requires '\n' !in s
    ensures Widen(s) == s
  {
    if s != [] { WidenPlain(s[1..]); }
  }

  lemma {:induction false} WidenJoin(lines: seq<string>)
    requires NoBreaks(lines)
    ensures Widen(Join(lines, LF)) == Join(lines, CRLF)
  {
    if lines != [] {
      assert Unbroken(lines[0]);
      WidenPlain(lines[0]);
      if |lines| > 1 {
        WidenJoin(lines[1..]);
        WidenConcat(lines[0] + LF, Join(lines[1..], LF));
        WidenConcat(lines[0], LF);
      }
    }
  }

  lemma {:induction false} WidenIsPaired(s: string)
    requires '\r' !in s
    ensures Paired(Widen(s)) && OnePass(Widen(s)) == s
    ensures Contains(Widen(s), CRLF) <==> '\n' in s
  {
    if s != [] {
      WidenIsPaired(s[1..]);
      assert s == [s[0]] + s[1..];
      if s[0] == '\n' {
        assert Widen(s)[2..] == Widen(s[1..]);
      } else {
        assert Widen(s)[1..] == Widen(s[1..]);
      }
    }
  }

  lemma {:induction false} PairedIsWiden(s: string)
    requires Paired(s)
    ensures Widen(OnePass(s)) == s
  {
    if s == [] {
    } else if CRLF <= s {
      PairedIsWiden(s[2..]);
      assert s == CRLF + s[2..];
      assert (LF + OnePass(s[2..]))[1..] == OnePass(s[2..]);
    } else {
      PairedIsWiden(s[1..]);
      assert s == [s[0]] + s[1..];
      assert ([s[0]] + OnePass(s[1..]))[1..] == OnePass(s[1..]);
    }
  }

  lemma {:induction false} OnePassPlain(s: string)
    requires '\r' !in s
    ensures OnePass(s) == s && !Contains(s, CRLF)
  {
    if s != [] {
      OnePassPlain(s[1..]);
      assert s == [s[0]] + s[1..];
    }
  }

  lemma {:induction false} ContainsPairHasReturn(s: string)
    requires Contains(s, CRLF)
    ensures '\r' in s && '\n' in OnePass(s)
  {
    if !(CRLF <= s) {
      ContainsPairHasReturn(s[1..]);
      if s[0] == '\r' {
      } else {
        assert OnePass(s) == [s[0]] + OnePass(s[1..]);
      }
    } else {
      assert s[0] == '\r';
      assert OnePass(s)[0] == '\n';
    }
  }

  // ---- Main results ----

  /** Normalised text is split and joined back in either style without loss. */
  lemma JoinOfLfText(s: string)
    requires '\r' !in s
    ensures var k := SplitKeepStyle(s);
            && NoBreaks(k.lines)
            && JoinKeepStyle(k.lines, LF, k.finalNewline) == s
            && JoinKeepStyle(k.lines, CRLF, k.finalNewline) == Widen(s)
  {
    NormalizeInOnePass(s);
    OnePassPlain(s);
    var k := SplitKeepStyle(s);
    LfSplit(s, k.lines, k.finalNewline);
  }

  lemma SplitNoBreaks(s: string)
    requires '\r' !in s
    ensures NoBreaks(Split(s, '\n'))
  {
    SplitChars(s, '\n', '\r');
  }

  lemma LfSplit(s: string, lines: seq<string>, final: bool)
    requires '\r' !in s
    requires final <==> s != [] && s[|s| - 1] == '\n'
    requires |Split(s, '\n')| >= if final then 2 else 1
    requires lines == var all := Split(s, '\n'); if final then all[..|all| - 1] else all
    ensures NoBreaks(lines)
    ensures JoinKeepStyle(lines, LF, final) == s
    ensures JoinKeepStyle(lines, CRLF, final) == Widen(s)
  {
    hide Unbroken, Split, Join;
    var all := Split(s, '\n');
    SplitEndsWithBreak(s);
    JoinOfSplit(s, '\n');
    SplitNoBreaks(s);
    forall line | line in lines ensures Unbroken(line) { assert line in all; }
    WidenJoin(lines);
    if final {
      assert all == lines + [[]];
      JoinSnoc(lines, [], LF);
      WidenConcat(Join(lines, LF), LF);
    }
  }

  lemma CanonicalForm(c: string)
    ensures Canonical(c) == if Contains(c, CRLF) then Widen(OnePass(c)) else OnePass(c)
    ensures NoBreaks(SplitKeepStyle(c).lines)
  {
    NormalizeInOnePass(c);
    var n := OnePass(c);
    NormalizeInOnePass(n);
    OnePassPlain(n);
    JoinOfLfText(n);
    assert SplitKeepStyle(n).lines == SplitKeepStyle(c).lines;
  }

  /** Splitting and joining is the identity on exactly the texts that keep to one newline style. */
  lemma CanonicalIffUniform(c: string)
    ensures Canonical(c) == c <==> Uniform(c)
  {
    CanonicalForm(c);
    PairedMeaning(c);
    if '\r' !in c {
      OnePassPlain(c);
    } else if Contains(c, CRLF) {
      if Paired(c) { PairedIsWiden(c); }
      WidenIsPaired(OnePass(c));
    } else {
      if Paired(c) { PairedWithReturn(c); }
      assert '\r' !in OnePass(c);
    }
  }

  lemma {:induction false} PairedWithReturn(c: string)
    requires Paired(c) && '\r' in c
    ensures Contains(c, CRLF)
  {
    if !(CRLF <= c) { PairedWithReturn(c[1..]); }
  }

  /** A split never ends in an empty line without a final line break, unless it is that one line. */
  lemma SplitDropsNothing(c: string)
    ensures var k := SplitKeepStyle(c); !DropsLastLine(k.lines, k.finalNewline)
  {
    SplitEndsWithBreak(Normalize(c));
  }

  /** One pass reaches a text that every further pass leaves alone. */
  lemma CanonicalIdempotent(c: string)
    ensures Canonical(Canonical(c)) == Canonical(c)
    ensures SplitKeepStyle(Canonical(c)) == SplitKeepStyle(c)
  {
    CanonicalForm(c);
    NormalizeInOnePass(c);
    var n := OnePass(c);
    if Contains(c, CRLF) {
      ContainsPairHasReturn(c);
      WidenIsPaired(n);
      NormalizeInOnePass(Widen(n));
    } else {
      NormalizeInOnePass(n);
      OnePassPlain(n);
    }
  }

  /** The one list that loses something: several lines, the last one empty, without a final line break. */
  predicate DropsLastLine(lines: seq<string>, finalNewline: bool) {
    |lines| >= 2 && lines[|lines| - 1] == [] && !finalNewline
  }

  /** Splitting a join gives back the same lines and the same final break, except in that one case. */
  lemma SplitOfJoinKeepStyle(lines: seq<string>, newline: string, finalNewline: bool)
    requires lines != [] && NoBreaks(lines) && newline in {LF, CRLF}
    ensures var k := SplitKeepStyle(JoinKeepStyle(lines, newline, finalNewline));
            k.lines == lines && k.finalNewline == finalNewline <==> !DropsLastLine(lines, finalNewline)
    ensures Uniform(JoinKeepStyle(lines, newline, finalNewline))
    ensures LineEndingOf(JoinKeepStyle(lines, newline, finalNewline)) ==
            if |lines| >= 2 || finalNewline then newline else LF
  {
    hide Join, Split, Normalize, Uniform, Contains, Unbroken;
    var lf := JoinKeepStyle(lines, LF, finalNewline);
    StyleOfJoin(lines, newline, finalNewline);
    LfJoin(lines, finalNewline);
    var shown := if finalNewline then lines + [[]] else lines;
    SplitEndsWithBreak(lf);
    if finalNewline {
      assert shown[..|shown| - 1] == lines;
    }
  }

  /** A join is one text in either style. */
  lemma StyleOfJoin(lines: seq<string>, newline: string, finalNewline: bool)
    requires lines != [] && NoBreaks(lines) && newline in {LF, CRLF}
    ensures var lf, text := JoinKeepStyle(lines, LF, finalNewline), JoinKeepStyle(lines, newline, finalNewline);
            Normalize(text) == lf && Uniform(text) && (Contains(text, CRLF) <==> newline == CRLF && '\n' in lf)
  {
    var lf := JoinKeepStyle(lines, LF, finalNewline);
    var text := JoinKeepStyle(lines, newline, finalNewline);
    LfJoin(lines, finalNewline);
    NormalizeInOnePass(text);
    if newline == LF {
      OnePassPlain(lf);
    } else {
      WidenOfJoin(lines, finalNewline);
      WidenIsPaired(lf);
      PairedMeaning(text);
    }
  }

  lemma WidenOfJoin(lines: seq<string>, finalNewline: bool)
    requires NoBreaks(lines)
    ensures Widen(JoinKeepStyle(lines, LF, finalNewline)) == JoinKeepStyle(lines, CRLF, finalNewline)
  {
    WidenJoin(lines);
    if finalNewline {
      WidenConcat(Join(lines, LF), LF);
      assert Widen(LF) == CRLF;
    } else {
      assert Join(lines, LF) + [] == Join(lines, LF);
    }
  }

  lemma LfJoin(lines: seq<string>, finalNewline: bool)
    requires lines != [] && NoBreaks(lines)
    ensures var lf := JoinKeepStyle(lines, LF, finalNewline);
            && '\r' !in lf
            && Split(lf, '\n') == (if finalNewline then lines + [[]] else lines)
            && ('\n' in lf <==> |lines| >= 2 || finalNewline)
  {
    var shown := if finalNewline then lines + [[]] else lines;
    JoinSnoc(lines, [], LF);
    assert JoinKeepStyle(lines, LF, finalNewline) == Join(shown, LF);
    assert forall line | line in shown :: Unbroken(line);
    SplitOfJoin(shown, '\n');
    JoinChars(shown);
  }

  lemma {:induction false} JoinChars(lines: seq<string>)
    requires NoBreaks(lines)
    ensures '\r' !in Join(lines, LF)
    ensures '\n' in Join(lines, LF) <==> |lines| >= 2
  {
    if lines != [] {
      assert Unbroken(lines[0]);
      if |lines| > 1 {
        JoinChars(lines[1..]);
        assert (lines[0] + LF + Join(lines[1..], LF))[|lines[0]|] == '\n';
      }
    }
  }
}
