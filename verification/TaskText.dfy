/** Printing an edit as a task sentence and parsing it back. */
module TaskText {
  import opened Text
  import opened Pattern
  import opened PathRules

  datatype ParseMode = FunctionFirst | PathThenFunction | PathColonInFunction | Plain

  datatype Parsed = Parsed(filePath: string, functionName: string, oldText: string, newText: string, mode: ParseMode)

  // ---- Printing ----

  function ShellQuote(text: string): string { ReplaceAll(text, "'", "\\'") }

  function ShellUnquote(text: string): string { ReplaceAll(text, "\\'", "'") }

  /** Spelled-out line breaks and tabs become the characters they name. */
  function DecodeLiteral(text: string): string {
    ReplaceAll(ReplaceAll(ReplaceAll(text, "\\r\\n", "\n"), "\\n", "\n"), "\\t", "\t")
  }

  function MakeReplaceTask(filePath: string, oldText: string, newText: string): string {
    "Modify " + filePath + ": replace '" + ShellQuote(oldText) + "' with '" + ShellQuote(newText) + "'"
  }

  // ---- Parsing ----

  const TAIL: seq<Item> :=
    [Lit("'"), Quoted, Lit("'"), Ws1, Lit("with"), Ws1, Lit("'"), Quoted, Lit("'"), Ws0]
  const FUNCTION_FIRST: seq<Item> :=
    [Lit("Modify"), Ws1, Lit("function"), Ws1, Ident, Ws1, Lit("in"), Ws1, Lazy,
     Lit(":"), Ws0, Lit("replace"), Ws1]
  const PATH_THEN_FUNCTION: seq<Item> :=
    [Lit("Modify"), Ws1, Lazy, Ws1, Lit("function"), Ws1, Ident,
     Lit(":"), Ws0, Lit("replace"), Ws1]
  const PATH_COLON_IN_FUNCTION: seq<Item> :=
    [Lit("Modify"), Ws1, Lazy, Lit(":"), Ws0, Lit("in"), Ws1, Lit("function"), Ws1, Ident, Ws1,
     Lit("replace"), Ws1]
  const PLAIN: seq<Item> :=
    [Lit("Modify"), Ws1, Lazy, Lit(":"), Ws0, Lit("replace"), Ws1]

  function Literal(group: string): string { DecodeLiteral(ShellUnquote(group)) }

  /** `re.match` of a whole pattern. */
  function Match(head: seq<Item>, text: string): (r: Option<seq<string>>)
    ensures r.Some? ==> |r.value| == |head| + |TAIL|
  {
    var r := MatchFrom(head + TAIL, 0, text);
    if r.Some? then
      MatchSound(head + TAIL, 0, text); r
    else None
  }

  function ParseReplaceTask(task: string): Option<Parsed> { ParseText(Strip(task)) }

  function ParseText(text: string): Option<Parsed> {
    match Match(FUNCTION_FIRST, text)
    case Some(p) =>
      Some(Parsed(NormalizePath(p[8]), p[4], Literal(p[14]), Literal(p[20]), FunctionFirst))
    case None =>
      match Match(PATH_THEN_FUNCTION, text)
      case Some(p) =>
        Some(Parsed(NormalizePath(p[2]), p[6], Literal(p[12]), Literal(p[18]), PathThenFunction))
      case None =>
        match Match(PATH_COLON_IN_FUNCTION, text)
        case Some(p) =>
          Some(Parsed(NormalizePath(p[2]), p[9], Literal(p[14]), Literal(p[20]), PathColonInFunction))
        case None =>
          match Match(PLAIN, text)
          case Some(p) =>
            Some(Parsed(NormalizePath(p[2]), "", Literal(p[8]), Literal(p[14]), Plain))
          case None => None
  }

  // ---- Quoting and spelling ----

  lemma {:induction false} QuoteShape(t: string)
    ensures var q := ShellQuote(t);
            && ShellUnquote(q) == t
            && Escaped(q)
            && (q != "" ==> q[0] != '\'')
            && (q == "" <==> t == "")
  {
    if t != "" {
      QuoteShape(t[1..]);
      OnePrefix('\'', t);
      var q := ShellQuote(t[1..]);
      assert t == [t[0]] + t[1..];
      if t[0] == '\'' {
        var whole := "\\'" + q;
        assert whole[2..] == q;
        EscapedStep(whole);
        PairPrefix('\\', '\'', whole);
      } else {
        var whole := [t[0]] + q;
        assert whole[1..] == q;
        EscapedStep(whole);
        PairPrefix('\\', '\'', whole);
      }
    }
  }

  /** Replacing by something shorter changes a text exactly when the pattern occurs in it. */
  lemma {:induction false} ReplaceShrinks(t: string, pat: string, rep: string)
    requires |rep| < |pat|
    ensures var r := ReplaceAll(t, pat, rep);
            |r| <= |t| && (|r| == |t| <==> !Contains(t, pat)) && (!Contains(t, pat) ==> r == t)
  {
    if t != "" {
      if pat <= t {
        ReplaceShrinks(t[|pat|..], pat, rep);
      } else {
        ReplaceShrinks(t[1..], pat, rep);
        assert t == [t[0]] + t[1..];
      }
    }
  }

  /** Texts in which no line break or tab is spelled out. */
  predicate PlainText(text: string) { !Contains(text, "\\n") && !Contains(text, "\\t") }

  lemma {:induction false} ReturnSpelled(text: string)
    requires Contains(text, "\\r\\n")
    ensures Contains(text, "\\n")
  {
    if "\\r\\n" <= text {
      assert text[..4] == "\\r\\n";
      PairPrefix('\\', 'n', text[2..]);
      assert text[1..][1..] == text[2..];
    } else {
      ReturnSpelled(text[1..]);
    }
  }

  lemma DecodeIffPlain(text: string)
    ensures DecodeLiteral(text) == text <==> PlainText(text)
  {
    var a := ReplaceAll(text, "\\r\\n", "\n");
    var b := ReplaceAll(a, "\\n", "\n");
    ReplaceShrinks(text, "\\r\\n", "\n");
    ReplaceShrinks(a, "\\n", "\n");
    ReplaceShrinks(b, "\\t", "\t");
    if Contains(text, "\\r\\n") { ReturnSpelled(text); }
  }

  /** Line breaks, as `eol`, and tabs, as `tab`. */
  function Spelled(text: string, eol: string, tab: string): string {
    if text == "" then ""
    else (if text[0] == '\n' then eol else if text[0] == '\t' then tab else [text[0]]) + Spelled(text[1..], eol, tab)
  }

  predicate NoBackslash(text: string) { '\\' !in text }

  lemma {:induction false} UnspellWide(text: string)
    requires NoBackslash(text)
    ensures ReplaceAll(Spelled(text, "\\r\\n", "\\t"), "\\r\\n", "\n") == Spelled(text, "\n", "\\t")
  {
    if text != "" {
      var rest := Spelled(text[1..], "\\r\\n", "\\t");
      UnspellWide(text[1..]);
      PatternApart(text[0], rest);
      if text[0] == '\n' {
        FirstOfFour("\\r\\n", rest);
      } else if text[0] == '\t' {
        SkipTwo('\\', 't', rest, "\\r\\n", "\n");
      } else {
        assert ([text[0]] + rest)[1..] == rest;
      }
    }
  }

  lemma FirstOfFour(pat: string, rest: string)
    ensures pat <= pat + rest && (pat + rest)[|pat|..] == rest
  {}

  // A character other than a backslash begins none of the patterns.
  lemma PatternApart(c: char, rest: string)
    ensures c != '\\' ==> !("\\r\\n" <= [c] + rest) && !("\\n" <= [c] + rest) && !("\\t" <= [c] + rest)
  {
    var s := [c] + rest;
    assert s[0] == c;
    assert "\\r\\n"[0] == '\\' && "\\n"[0] == '\\' && "\\t"[0] == '\\';
  }

  lemma SkipTwo(a: char, b: char, rest: string, pat: string, rep: string)
    requires |pat| >= 2 && pat[0] == '\\' && a == '\\' && b != '\\' && pat[1] != b
    ensures ReplaceAll([a, b] + rest, pat, rep) == [a, b] + ReplaceAll(rest, pat, rep)
  {
    var s := [a, b] + rest;
    assert s[0] == a && s[1] == b && s[1..] == [b] + rest && s[1..][1..] == rest;
    assert !(pat <= s);
    assert s[1..][0] != pat[0];
    assert !(pat <= s[1..]);
  }

  lemma {:induction false} UnspellBreaks(text: string)
    requires NoBackslash(text)
    ensures ReplaceAll(Spelled(text, "\\n", "\\t"), "\\n", "\n") == Spelled(text, "\n", "\\t")
    ensures ReplaceAll(Spelled(text, "\n", "\\t"), "\\n", "\n") == Spelled(text, "\n", "\\t")
  {
    if text != "" {
      var rest, flat := Spelled(text[1..], "\\n", "\\t"), Spelled(text[1..], "\n", "\\t");
      UnspellBreaks(text[1..]);
      PatternApart(text[0], rest);
      PatternApart(text[0], flat);
      if text[0] == '\n' {
        FirstOfFour("\\n", rest);
        assert ("\n" + flat)[1..] == flat;
      } else if text[0] == '\t' {
        SkipTwo('\\', 't', rest, "\\n", "\n");
        SkipTwo('\\', 't', flat, "\\n", "\n");
      } else {
        assert ([text[0]] + rest)[1..] == rest && ([text[0]] + flat)[1..] == flat;
      }
    }
  }

  lemma {:induction false} UnspellTabs(text: string)
    requires NoBackslash(text)
    ensures ReplaceAll(Spelled(text, "\n", "\\t"), "\\t", "\t") == text
  {
    if text != "" {
      var rest := Spelled(text[1..], "\n", "\\t");
      UnspellTabs(text[1..]);
      PatternApart(text[0], rest);
      if text[0] == '\t' { FirstOfFour("\\t", rest); } else { assert ([text[0]] + rest)[1..] == rest; }
      assert text == [text[0]] + text[1..];
    }
  }

  lemma {:induction false} NothingWide(text: string)
    requires NoBackslash(text)
    ensures ReplaceAll(Spelled(text, "\\n", "\\t"), "\\r\\n", "\n") == Spelled(text, "\\n", "\\t")
  {
    if text != "" {
      var rest := Spelled(text[1..], "\\n", "\\t");
      NothingWide(text[1..]);
      PatternApart(text[0], rest);
      if text[0] == '\n' {
        SkipTwo('\\', 'n', rest, "\\r\\n", "\n");
      } else if text[0] == '\t' {
        SkipTwo('\\', 't', rest, "\\r\\n", "\n");
      } else {
        assert ([text[0]] + rest)[1..] == rest;
      }
    }
  }

  /** Spelling out every line break, either way, and every tab is undone, on texts without a backslash. */
  lemma DecodeOfSpelled(text: string)
    requires NoBackslash(text)
    ensures DecodeLiteral(Spelled(text, "\\n", "\\t")) == text
    ensures DecodeLiteral(Spelled(text, "\\r\\n", "\\t")) == text
  {
    UnspellWide(text);
    NothingWide(text);
    UnspellBreaks(text);
    UnspellTabs(text);
  }

  // ---- One way to read a printed task ----

  predicate EndsInSpace(s: string) { s != "" && IsSpace(s[|s| - 1]) }

  /** Runs of matching characters in front, followed by something else, are read in one way. */
  lemma RunUnique(p: char -> bool, w: string, x: string, v: string, y: string)
    requires w + x == v + y
    requires forall i | 0 <= i < |w| :: p(w[i])
    requires forall i | 0 <= i < |v| :: p(v[i])
    requires x != "" && !p(x[0]) && y != "" && !p(y[0])
    ensures w == v && x == y
  {
    var s, t := w + x, v + y;
    assert s[|w|] == x[0] && t[|v|] == y[0];
    assert forall i | 0 <= i < |w| :: s[i] == w[i];
    assert forall i | 0 <= i < |v| :: t[i] == v[i];
    assert w == s[..|w|] && v == t[..|v|];
    assert x == s[|w|..] && y == t[|v|..];
  }

  lemma SpaceTailUnique(u: string, w: string, x: string, v: string)
    requires u + w == x + v && AllSpace(w) && AllSpace(v)
    requires u != "" && !IsSpace(u[|u| - 1]) && x != "" && !IsSpace(x[|x| - 1])
    ensures u == x && w == v
  {
    var s, t := u + w, x + v;
    assert s[|u| - 1] == u[|u| - 1] && t[|x| - 1] == x[|x| - 1];
    assert forall i | |u| <= i < |s| :: s[i] == w[i - |u|] && IsSpace(s[i]);
    assert forall i | |x| <= i < |t| :: t[i] == v[i - |x|] && IsSpace(t[i]);
    assert u == s[..|u|] && x == t[..|x|];
    assert w == s[|u|..] && v == t[|x|..];
  }

  lemma QuoteFacts(a: string, n: string, s: string)
    requires s == a + ("'" + (n + "'")) && EndsInSpace(a) && Escaped(n)
    ensures IsSpace(s[|a| - 1]) && s[|a|] == '\''
    ensures forall i | |a| < i < |s| - 1 && s[i] == '\'' :: s[i - 1] == '\\'
    ensures a == s[..|a|] && n == s[|a| + 1..|s| - 1]
  {
    forall i | |a| < i < |s| - 1 && s[i] == '\'' ensures s[i - 1] == '\\' {
      var j := i - |a| - 1;
      assert n[j] == s[i] && EscapedAt(n, j);
      assert n[j - 1] == s[i - 1];
    }
  }

  /** An opening apostrophe follows white space, so it cannot sit inside a quoted text. */
  lemma QuoteTailUnique(a: string, n: string, b: string, m: string)
    requires a + ("'" + (n + "'")) == b + ("'" + (m + "'"))
    requires EndsInSpace(a) && EndsInSpace(b) && Escaped(n) && Escaped(m)
    ensures a == b && n == m
  {
    var s := a + ("'" + (n + "'"));
    QuoteFacts(a, n, s);
    QuoteFacts(b, m, s);
    assert !IsSpace('\\');
  }

  // ---- Peeling a matched text from its end ----

  lemma CatSnoc(p: seq<string>, k: nat)
    requires k < |p|
    ensures Cat(p[..k + 1]) == Cat(p[..k]) + p[k]
  {
    assert p[..k + 1] == p[..k] + [p[k]];
    CatAppend(p[..k], [p[k]]);
    assert Cat([p[k]]) == p[k] + Cat([]);
  }

  predicate EndsInInk(s: string) { s != "" && !IsSpace(s[|s| - 1]) }

  lemma PeelLit(p: seq<string>, k: nat, v: string)
    requires k < |p| && Cat(p[..k + 1]) == v + p[k]
    ensures Cat(p[..k]) == v
  {
    CatSnoc(p, k);
    assert Cat(p[..k]) == (Cat(p[..k]) + p[k])[..|v|];
    assert v == (v + p[k])[..|v|];
  }

  lemma PeelSpace(p: seq<string>, k: nat, v: string, w: string)
    requires 0 < k < |p| && Cat(p[..k + 1]) == v + w
    requires AllSpace(p[k]) && EndsInInk(p[k - 1]) && AllSpace(w) && EndsInInk(v)
    ensures Cat(p[..k]) == v && p[k] == w
  {
    CatSnoc(p, k);
    CatSnoc(p, k - 1);
    var u := Cat(p[..k]);
    assert u[|u| - 1] == p[k - 1][|p[k - 1]| - 1];
    SpaceTailUnique(u, p[k], v, w);
  }

  lemma CatThree(p: seq<string>, k: nat)
    requires k + 3 <= |p|
    ensures Cat(p[..k + 3]) == Cat(p[..k]) + (p[k] + (p[k + 1] + p[k + 2]))
  {
    CatSnoc(p, k);
    CatSnoc(p, k + 1);
    CatSnoc(p, k + 2);
  }

  predicate AcceptsAll(items: seq<Item>, p: seq<string>, at: nat) {
    at + |items| <= |p| && forall i | 0 <= i < |items| :: Accepts(items[i], p[at + i])
  }

  lemma CatEndsInSpace(p: seq<string>, k: nat)
    requires k < |p| && Accepts(Ws1, p[k])
    ensures EndsInSpace(Cat(p[..k + 1]))
  {
    CatSnoc(p, k);
  }

  /** The two quoted texts of a printed task are read in one way. */
  lemma TailUnique(p: seq<string>, t: nat, eol: string, x: string, prior: string, next: string)
    requires |p| == t + 10 && t > 0 && AcceptsAll(TAIL, p, t) && eol in {"", "\n"}
    requires Accepts(Ws1, p[t - 1]) && EndsInSpace(x) && Escaped(prior) && Escaped(next)
    requires Cat(p) + eol == x + ("'" + (prior + "'")) + " with " + ("'" + (next + "'"))
    ensures Cat(p[..t]) == x && p[t + 1] == prior && p[t + 7] == next
  {
    hide Cat, Escaped;
    assert forall i | 0 <= i < 10 :: Accepts(TAIL[i], p[t + i]);
    assert TAIL[0] == Lit("'") && TAIL[1] == Quoted && TAIL[2] == Lit("'") && TAIL[3] == Ws1;
    assert TAIL[4] == Lit("with") && TAIL[5] == Ws1 && TAIL[6] == Lit("'") && TAIL[7] == Quoted;
    assert TAIL[8] == Lit("'") && TAIL[9] == Ws0;
    assert Accepts(TAIL[0], p[t + 0]);
    LastPieceEmpty(p, t, eol, x + ("'" + (prior + "'")) + " with ", next);
    var b := x + ("'" + (prior + "'")) + " with ";
    CatThree(p, t + 6);
    CatEndsInSpace(p, t + 5);
    QuoteTailUnique(Cat(p[..t + 6]), p[t + 7], b, next);
    TailMiddle(p, t, x, prior);
  }

  lemma LastPieceEmpty(p: seq<string>, t: nat, eol: string, b: string, next: string)
    requires |p| == t + 10 && AllSpace(p[t + 9]) && p[t + 8] == "'" && eol in {"", "\n"}
    requires Cat(p) + eol == b + ("'" + (next + "'"))
    ensures Cat(p[..t + 9]) == b + ("'" + (next + "'"))
  {
    assert p == p[..t + 10];
    CatSnoc(p, t + 9);
    CatSnoc(p, t + 8);
    var u, s := Cat(p[..t + 9]), b + ("'" + (next + "'"));
    assert u + (p[t + 9] + eol) == s + "";
    SpaceTailUnique(u, p[t + 9] + eol, s, "");
  }

  lemma TailMiddle(p: seq<string>, t: nat, x: string, prior: string)
    requires |p| == t + 10 && t > 0 && EndsInSpace(x) && Escaped(prior)
    requires Accepts(Ws1, p[t - 1]) && p[t] == "'" && Escaped(p[t + 1]) && p[t + 2] == "'"
    requires AllSpace(p[t + 3]) && p[t + 4] == "with" && AllSpace(p[t + 5])
    requires Cat(p[..t + 6]) == x + ("'" + (prior + "'")) + " with "
    ensures Cat(p[..t]) == x && p[t + 1] == prior
  {
    var y := x + ("'" + (prior + "'"));
    assert y + " with " == (y + " with") + " ";
    PeelSpace(p, t + 5, y + " with", " ");
    assert y + " with" == (y + " ") + "with";
    PeelLit(p, t + 4, y + " ");
    PeelSpace(p, t + 3, y, " ");
    CatThree(p, t);
    CatEndsInSpace(p, t - 1);
    QuoteTailUnique(Cat(p[..t]), p[t + 1], x, prior);
  }

  /** What stands before the colon of a printed task. */
  lemma ColonUnique(p: seq<string>, t: nat, y: string)
    requires 4 <= t <= |p| && y != ""
    requires p[t - 4] == ":" && AllSpace(p[t - 3]) && p[t - 2] == "replace" && AllSpace(p[t - 1])
    requires Cat(p[..t]) == y + ": replace "
    ensures Cat(p[..t - 4]) == y
  {
    assert y + ": replace " == (y + ": replace") + " ";
    PeelSpace(p, t - 1, y + ": replace", " ");
    assert y + ": replace" == (y + ": ") + "replace";
    PeelLit(p, t - 2, y + ": ");
    assert y + ": " == (y + ":") + " ";
    PeelSpace(p, t - 3, y + ":", " ");
    PeelLit(p, t - 4, y);
  }

  // ---- What a printed task matches ----

  predicate NoSpace(s: string) { forall i | 0 <= i < |s| :: !IsSpace(s[i]) }

  // What the two patterns with a function name accept in place of a path.
  const FUNCTION_SUBJECT: seq<Item> := [Lit("function"), Ws1, Ident, Ws1, Lit("in"), Ws1, Lazy]
  const SUBJECT_FUNCTION: seq<Item> := [Lazy, Ws1, Lit("function"), Ws1, Ident]

  ghost predicate Reads(items: seq<Item>, s: string) {
    exists q: seq<string> | |q| == |items| && AcceptsAll(items, q, 0) :: Cat(q) == s
  }

  /** A subject that is not of the form "function f in p" or "p function f". */
  ghost predicate PlainSubject(s: string) {
    s != "" && !IsSpace(s[0]) && !Reads(FUNCTION_SUBJECT, s) && !Reads(SUBJECT_FUNCTION, s)
  }

  /** A sentence, cut before its two quoted texts. */
  function Ending(front: string, prior: string, next: string): string {
    front + ("'" + (prior + "'")) + " with " + ("'" + (next + "'"))
  }

  function Sentence(subject: string, prior: string, next: string): string {
    Ending("Modify " + subject + ": replace ", prior, next)
  }

  /** The same for a sentence that names its function behind the colon. */
  function ColonSentence(path: string, name: string, prior: string, next: string): string {
    Ending("Modify " + path + ": in function " + name + " replace ", prior, next)
  }

  lemma PrintedSentence(subject: string, oldText: string, newText: string)
    ensures MakeReplaceTask(subject, oldText, newText) == Sentence(subject, ShellQuote(oldText), ShellQuote(newText))
    ensures Strip(MakeReplaceTask(subject, oldText, newText)) == MakeReplaceTask(subject, oldText, newText)
  {
    hide ShellQuote, StripBy;
    var t := MakeReplaceTask(subject, oldText, newText);
    assert t[0] == 'M' && t[|t| - 1] == '\'';
  }

  /** Any match of a printed sentence cuts it before the quoted texts where the printer did. */
  lemma MatchedTail(head: seq<Item>, p: seq<string>, front: string, prior: string, next: string)
    requires head != [] && head[|head| - 1] == Ws1
    requires EndsInSpace(front) && Escaped(prior) && Escaped(next)
    requires Fits(head + TAIL, 0, p, Ending(front, prior, next))
    ensures |p| == |head| + 10 && AcceptsAll(head, p, 0)
    ensures Cat(p[..|head|]) == front
    ensures p[|head| + 1] == prior && p[|head| + 7] == next
  {
    var t := |head|;
    var items := head + TAIL;
    var text := Ending(front, prior, next);
    forall i | 0 <= i < t ensures Accepts(head[i], p[0 + i]) {
      assert Accepts(items[0 + i], p[i]);
    }
    forall i | 0 <= i < 10 ensures Accepts(TAIL[i], p[t + i]) {
      assert Accepts(items[0 + (t + i)], p[t + i]);
    }
    var eol := if text == Cat(p) then "" else "\n";
    assert Cat(p) + "" == Cat(p);
    assert Accepts(head[t - 1], p[0 + (t - 1)]);
    TailUnique(p, t, eol, front, prior, next);
  }

  lemma SubjectTail(head: seq<Item>, p: seq<string>, subject: string, prior: string, next: string)
    requires head != [] && head[|head| - 1] == Ws1
    requires Escaped(prior) && Escaped(next)
    requires Fits(head + TAIL, 0, p, Sentence(subject, prior, next))
    ensures |p| == |head| + 10 && AcceptsAll(head, p, 0)
    ensures Cat(p[..|head|]) == "Modify " + subject + ": replace "
    ensures p[|head| + 1] == prior && p[|head| + 7] == next
  {
    hide Fits, Cat, Ending, Escaped;
    MatchedTail(head, p, "Modify " + subject + ": replace ", prior, next);
  }

  lemma FrontPieces(p: seq<string>, k: nat)
    requires 3 <= k <= |p|
    ensures Cat(p[..k]) == p[0] + (p[1] + (p[2] + Cat(p[3..k])))
  {
    var q := p[..k];
    assert q[1..][1..] == q[2..] && q[2..][1..] == p[3..k];
    assert Cat(q) == q[0] + Cat(q[1..]) && Cat(q[1..]) == q[1] + Cat(q[2..]) && Cat(q[2..]) == q[2] + Cat(p[3..k]);
  }

  /** The pieces behind the first word and its white space are the subject. */
  lemma SubjectPieces(p: seq<string>, k: nat, subject: string)
    requires 3 <= k <= |p| && Cat(p[..k]) == "Modify " + subject
    requires p[0] == "Modify" && Accepts(Ws1, p[1])
    requires subject != "" && !IsSpace(subject[0])
    ensures Cat(p[2..k]) == subject
  {
    hide IsSpace;
    FrontPieces(p, k);
    var q := p[2..k];
    assert q[0] == p[2] && q[1..] == p[3..k];
    var rest := Cat(q);
    assert rest == p[2] + Cat(p[3..k]) && rest + "" == rest;
    hide Cat;
    FirstSpace(p[1], rest, subject);
  }

  lemma ReadsPieces(items: seq<Item>, q: seq<string>, s: string)
    requires |q| == |items| && AcceptsAll(items, q, 0) && Cat(q) == s
    ensures Reads(items, s)
  {}

  /** Accepted pieces for the subject make up a match of the whole sentence. */
  lemma {:induction false} FitsAppend(items: seq<Item>, k: nat, q: seq<string>, p: seq<string>, s: string)
    requires k + |q| <= |items| && (forall i | 0 <= i < |q| :: Accepts(items[k + i], q[i])) && Fits(items, k + |q|, p, s)
    ensures Fits(items, k, q + p, Cat(q) + s)
    decreases |q|
  {
    hide Fits;
    if q == [] {
      assert q + p == p && "" + s == s;
    } else {
      var rest := q[1..];
      forall i | 0 <= i < |rest| ensures Accepts(items[k + 1 + i], rest[i]) { assert Accepts(items[k + (i + 1)], q[i + 1]); }
      FitsAppend(items, k + 1, rest, p, s);
      assert Accepts(items[k + 0], q[0]);
      FitsCons(items, k, q[0], rest + p, Cat(rest) + s);
      assert [q[0]] + (rest + p) == q + p && q[0] + (Cat(rest) + s) == Cat(q) + s;
    }
  }

  lemma SubjectMatches(head: seq<Item>, subjectItems: seq<Item>, subject: string, prior: string, next: string)
    requires head == [Lit("Modify"), Ws1] + subjectItems + [Lit(":"), Ws0, Lit("replace"), Ws1]
    requires Reads(subjectItems, subject) && Escaped(prior) && Escaped(next)
    ensures Match(head, Sentence(subject, prior, next)).Some?
  {
    hide Fits, Cat, Escaped, Accepts, Sentence, AcceptsAll;
    var items, n := head + TAIL, |subjectItems|;
    HeadItems(head, subjectItems);
    var q: seq<string> :| |q| == n && AcceptsAll(subjectItems, q, 0) && Cat(q) == subject;
    AcceptedInside(items, subjectItems, q);
    var p := SubjectFits(items, q, prior, next);
    MatchComplete(items, 0, p, Sentence(subject, prior, next));
  }

  lemma HeadItems(head: seq<Item>, subjectItems: seq<Item>)
    requires head == [Lit("Modify"), Ws1] + subjectItems + [Lit(":"), Ws0, Lit("replace"), Ws1]
    ensures var items, n := head + TAIL, |subjectItems|;
            && |items| == n + 16 && items[0] == Lit("Modify") && items[1] == Ws1
            && items[2..n + 2] == subjectItems
            && items[n + 2] == Lit(":") && items[n + 3] == Ws0 && items[n + 4] == Lit("replace") && items[n + 5] == Ws1
            && items[n + 6..] == TAIL
  {
    assert |TAIL| == 10;
  }

  lemma SubjectFits(items: seq<Item>, q: seq<string>, prior: string, next: string) returns (p: seq<string>)
    requires var n := |q|;
             && |items| == n + 16 && items[0] == Lit("Modify") && items[1] == Ws1
             && items[n + 2] == Lit(":") && items[n + 3] == Ws0 && items[n + 4] == Lit("replace") && items[n + 5] == Ws1
             && items[n + 6..] == TAIL
    requires forall i | 0 <= i < |q| :: Accepts(items[2 + i], q[i])
    requires Escaped(prior) && Escaped(next)
    ensures Fits(items, 0, p, Sentence(Cat(q), prior, next))
  {
    hide Fits, Cat, Escaped, Accepts, Sentence;
    var r, s := ColonFits(items, |q| + 6, prior, next);
    FitsAppend(items, 2, q, r, s);
    ModifyFits(items, q + r, Cat(q) + s);
    SentenceParts(Cat(q), prior, next);
    p := ["Modify"] + ([" "] + (q + r));
  }

  lemma SentenceParts(subject: string, prior: string, next: string)
    ensures var s := ": replace " + (("'" + (prior + "'")) + (" with " + ("'" + (next + "'"))));
            "Modify " + (subject + s) == Sentence(subject, prior, next)
  {}

  lemma AcceptedInside(items: seq<Item>, subjectItems: seq<Item>, q: seq<string>)
    requires |subjectItems| + 2 <= |items| && items[2..|subjectItems| + 2] == subjectItems
    requires |q| == |subjectItems| && AcceptsAll(subjectItems, q, 0)
    ensures forall i | 0 <= i < |q| :: Accepts(items[2 + i], q[i])
  {
    forall i | 0 <= i < |q| ensures Accepts(items[2 + i], q[i]) {
      assert items[2..|subjectItems| + 2][i] == items[2 + i] && Accepts(subjectItems[i], q[0 + i]);
    }
  }

  lemma ModifyFits(items: seq<Item>, p: seq<string>, s: string)
    requires 2 <= |items| && items[0] == Lit("Modify") && items[1] == Ws1 && Fits(items, 2, p, s)
    ensures Fits(items, 0, ["Modify"] + ([" "] + p), "Modify " + s)
  {
    hide Fits, Cat;
    FitsCons(items, 1, " ", p, s);
    FitsCons(items, 0, "Modify", [" "] + p, " " + s);
    assert "Modify" + (" " + s) == "Modify " + s;
  }

  /** The first pattern takes a printed sentence exactly when the subject reads "function f in p". */
  lemma FunctionFirstIff(subject: string, prior: string, next: string)
    requires subject != "" && !IsSpace(subject[0]) && Escaped(prior) && Escaped(next)
    ensures Match(FUNCTION_FIRST, Sentence(subject, prior, next)).Some? <==> Reads(FUNCTION_SUBJECT, subject)
  {
    hide IsSpace, Escaped, Cat, Sentence, Accepts, Reads;
    var text := Sentence(subject, prior, next);
    if Match(FUNCTION_FIRST, text).Some? {
      MatchSound(FUNCTION_FIRST + TAIL, 0, text);
      var p := Match(FUNCTION_FIRST, text).value;
      SubjectTail(FUNCTION_FIRST, p, subject, prior, next);
      FunctionFirstReads(p, subject);
    }
    if Reads(FUNCTION_SUBJECT, subject) {
      SubjectMatches(FUNCTION_FIRST, FUNCTION_SUBJECT, subject, prior, next);
    }
  }

  lemma SubjectAccepted(head: seq<Item>, subjectItems: seq<Item>, p: seq<string>)
    requires |head| == |subjectItems| + 6 && head[2..|subjectItems| + 2] == subjectItems && AcceptsAll(head, p, 0)
    ensures AcceptsAll(subjectItems, p[2..|subjectItems| + 2], 0)
  {
    var q := p[2..|subjectItems| + 2];
    forall i | 0 <= i < |subjectItems| ensures Accepts(subjectItems[i], q[0 + i]) {
      assert head[2..|subjectItems| + 2][i] == head[i + 2] && Accepts(head[i + 2], p[0 + (i + 2)]);
    }
  }

  lemma FunctionFirstReads(p: seq<string>, subject: string)
    requires |p| == 23 && AcceptsAll(FUNCTION_FIRST, p, 0)
    requires Cat(p[..13]) == "Modify " + subject + ": replace "
    requires subject != "" && !IsSpace(subject[0])
    ensures Reads(FUNCTION_SUBJECT, subject)
  {
    hide IsSpace, Cat, Reads;
    FunctionFirstPieces(p, subject);
    SubjectPieces(p, 9, subject);
    SubjectAccepted(FUNCTION_FIRST, FUNCTION_SUBJECT, p);
    ReadsPieces(FUNCTION_SUBJECT, p[2..9], subject);
  }

  lemma FunctionFirstPieces(p: seq<string>, subject: string)
    requires |p| == 23 && AcceptsAll(FUNCTION_FIRST, p, 0)
    requires Cat(p[..13]) == "Modify " + subject + ": replace "
    ensures p[0] == "Modify" && Accepts(Ws1, p[1]) && p[2] == "function" && Accepts(Ws1, p[3])
    ensures IsIdent(p[4]) && Accepts(Ws1, p[5]) && p[6] == "in" && Accepts(Ws1, p[7]) && p[8] != ""
    ensures Cat(p[..9]) == "Modify " + subject
  {
    assert forall i | 0 <= i < 13 :: Accepts(FUNCTION_FIRST[i], p[0 + i]);
    assert Accepts(FUNCTION_FIRST[0], p[0 + 0]) && Accepts(FUNCTION_FIRST[1], p[0 + 1]);
    assert Accepts(FUNCTION_FIRST[2], p[0 + 2]) && Accepts(FUNCTION_FIRST[3], p[0 + 3]);
    assert Accepts(FUNCTION_FIRST[4], p[0 + 4]) && Accepts(FUNCTION_FIRST[5], p[0 + 5]);
    assert Accepts(FUNCTION_FIRST[6], p[0 + 6]) && Accepts(FUNCTION_FIRST[7], p[0 + 7]);
    assert Accepts(FUNCTION_FIRST[8], p[0 + 8]) && Accepts(FUNCTION_FIRST[9], p[0 + 9]);
    assert Accepts(FUNCTION_FIRST[10], p[0 + 10]) && Accepts(FUNCTION_FIRST[11], p[0 + 11]);
    assert Accepts(FUNCTION_FIRST[12], p[0 + 12]);
    ColonUnique(p, 13, "Modify " + subject);
  }

  /** The second pattern takes it exactly when the subject reads "p function f". */
  lemma PathThenFunctionIff(subject: string, prior: string, next: string)
    requires subject != "" && !IsSpace(subject[0]) && Escaped(prior) && Escaped(next)
    ensures Match(PATH_THEN_FUNCTION, Sentence(subject, prior, next)).Some? <==> Reads(SUBJECT_FUNCTION, subject)
  {
    hide IsSpace, Escaped, Cat, Sentence, Accepts, Reads;
    var text := Sentence(subject, prior, next);
    if Match(PATH_THEN_FUNCTION, text).Some? {
      MatchSound(PATH_THEN_FUNCTION + TAIL, 0, text);
      var p := Match(PATH_THEN_FUNCTION, text).value;
      SubjectTail(PATH_THEN_FUNCTION, p, subject, prior, next);
      PathThenFunctionReads(p, subject);
    }
    if Reads(SUBJECT_FUNCTION, subject) {
      SubjectMatches(PATH_THEN_FUNCTION, SUBJECT_FUNCTION, subject, prior, next);
    }
  }

  lemma PathThenFunctionReads(p: seq<string>, subject: string)
    requires |p| == 21 && AcceptsAll(PATH_THEN_FUNCTION, p, 0)
    requires Cat(p[..11]) == "Modify " + subject + ": replace "
    requires subject != "" && !IsSpace(subject[0])
    ensures Reads(SUBJECT_FUNCTION, subject)
  {
    hide IsSpace, Cat, Reads;
    PathThenFunctionPieces(p, subject);
    SubjectPieces(p, 7, subject);
    SubjectAccepted(PATH_THEN_FUNCTION, SUBJECT_FUNCTION, p);
    ReadsPieces(SUBJECT_FUNCTION, p[2..7], subject);
  }

  lemma PathThenFunctionPieces(p: seq<string>, subject: string)
    requires |p| == 21 && AcceptsAll(PATH_THEN_FUNCTION, p, 0)
    requires Cat(p[..11]) == "Modify " + subject + ": replace "
    ensures p[0] == "Modify" && Accepts(Ws1, p[1])
    ensures Cat(p[..7]) == "Modify " + subject
  {
    assert forall i | 0 <= i < 11 :: Accepts(PATH_THEN_FUNCTION[i], p[0 + i]);
    assert Accepts(PATH_THEN_FUNCTION[0], p[0 + 0]) && Accepts(PATH_THEN_FUNCTION[1], p[0 + 1]);
    assert Accepts(PATH_THEN_FUNCTION[2], p[0 + 2]) && Accepts(PATH_THEN_FUNCTION[3], p[0 + 3]);
    assert Accepts(PATH_THEN_FUNCTION[7], p[0 + 7]) && Accepts(PATH_THEN_FUNCTION[8], p[0 + 8]);
    assert Accepts(PATH_THEN_FUNCTION[9], p[0 + 9]) && Accepts(PATH_THEN_FUNCTION[10], p[0 + 10]);
    ColonUnique(p, 11, "Modify " + subject);
  }

  lemma NotPathColonInFunction(subject: string, prior: string, next: string)
    requires Escaped(prior) && Escaped(next)
    ensures Match(PATH_COLON_IN_FUNCTION, Sentence(subject, prior, next)) == None
  {
    var text := Sentence(subject, prior, next);
    if Match(PATH_COLON_IN_FUNCTION, text).Some? {
      MatchSound(PATH_COLON_IN_FUNCTION + TAIL, 0, text);
      var p := Match(PATH_COLON_IN_FUNCTION, text).value;
      SubjectTail(PATH_COLON_IN_FUNCTION, p, subject, prior, next);
      NoColonBeforeReplace(p, "Modify " + subject);
      assert false;
    }
  }

  /** An identifier cannot stand where the printed sentence has its colon. */
  lemma NoColonBeforeReplace(p: seq<string>, y: string)
    requires |p| == 23 && AcceptsAll(PATH_COLON_IN_FUNCTION, p, 0)
    ensures Cat(p[..13]) != y + ": replace "
  {
    assert Accepts(PATH_COLON_IN_FUNCTION[9], p[0 + 9]) && Accepts(PATH_COLON_IN_FUNCTION[10], p[0 + 10]);
    assert Accepts(PATH_COLON_IN_FUNCTION[11], p[0 + 11]) && Accepts(PATH_COLON_IN_FUNCTION[12], p[0 + 12]);
    var name := p[9];
    assert IdentChar(name[|name| - 1]);
    CatSnoc(p, 9);
    var u := Cat(p[..10]);
    assert u[|u| - 1] == name[|name| - 1];
    assert (y + ":")[|y|] == ':';
    if Cat(p[..13]) == y + ": replace " {
      assert y + ": replace " == (y + ": replace") + " ";
      PeelSpace(p, 12, y + ": replace", " ");
      assert y + ": replace" == (y + ": ") + "replace";
      PeelLit(p, 11, y + ": ");
      assert y + ": " == (y + ":") + " ";
      PeelSpace(p, 10, y + ":", " ");
      assert false;
    }
  }

  /** The plain form is read back with the subject as its path. */
  lemma PlainUnique(subject: string, prior: string, next: string)
    requires subject != "" && !IsSpace(subject[0]) && Escaped(prior) && Escaped(next)
    ensures var r := Match(PLAIN, Sentence(subject, prior, next));
            r.Some? && r.value[2] == subject && r.value[8] == prior && r.value[14] == next
  {
    var text := Sentence(subject, prior, next);
    PlainFits(subject, prior, next);
    MatchSound(PLAIN + TAIL, 0, text);
    var p := Match(PLAIN, text).value;
    SubjectTail(PLAIN, p, subject, prior, next);
    assert Accepts(PLAIN[0], p[0 + 0]) && Accepts(PLAIN[1], p[0 + 1]) && Accepts(PLAIN[2], p[0 + 2]);
    assert Accepts(PLAIN[3], p[0 + 3]) && Accepts(PLAIN[4], p[0 + 4]) && Accepts(PLAIN[5], p[0 + 5]);
    assert Accepts(PLAIN[6], p[0 + 6]);
    ColonUnique(p, 7, "Modify " + subject);
    FrontPieces(p, 3);
    assert p[3..3] == [];
    FirstSpace(p[1], p[2], subject);
  }

  lemma FirstSpace(w: string, rest: string, subject: string)
    requires "Modify" + (w + (rest + "")) == "Modify " + subject && Accepts(Ws1, w)
    requires subject != "" && !IsSpace(subject[0])
    ensures w == " " && rest == subject
  {
    var s := "Modify " + subject;
    assert s[7] == subject[0];
    assert forall i | 0 <= i < |w| :: s[6 + i] == w[i] && IsSpace(w[i]);
    assert |w| == 1;
    assert w == s[6..7] && rest == s[7..];
  }

  // ---- The printed sentence does match ----

  lemma QuoteFits(items: seq<Item>, k: nat, text: string, rest: seq<string>, s: string) returns (p: seq<string>)
    requires k + 3 <= |items| && items[k] == items[k + 2] == Lit("'") && items[k + 1] == Quoted
    requires Escaped(text) && Fits(items, k + 3, rest, s)
    ensures Fits(items, k, p, ("'" + (text + "'")) + s)
  {
    hide Fits, Cat, Escaped;
    FitsCons(items, k + 2, "'", rest, s);
    FitsCons(items, k + 1, text, ["'"] + rest, "'" + s);
    p := [text] + (["'"] + rest);
    FitsCons(items, k, "'", p, text + ("'" + s));
    p := ["'"] + p;
    assert "'" + (text + ("'" + s)) == ("'" + (text + "'")) + s;
  }

  lemma TailFits(items: seq<Item>, t: nat, prior: string, next: string) returns (p: seq<string>)
    requires |items| == t + 10 && items[t..] == TAIL && Escaped(prior) && Escaped(next)
    ensures Fits(items, t, p, ("'" + (prior + "'")) + (" with " + ("'" + (next + "'"))))
  {
    hide Cat, Escaped;
    assert forall i | 0 <= i < 10 :: items[t..][i] == items[t + i];
    assert items[t..][0] == Lit("'") && items[t..][1] == Quoted && items[t..][2] == Lit("'");
    assert items[t..][3] == Ws1 && items[t..][4] == Lit("with") && items[t..][5] == Ws1;
    assert items[t..][6] == Lit("'") && items[t..][7] == Quoted && items[t..][8] == Lit("'") && items[t..][9] == Ws0;
    LastFits(items, t + 9);
    var q := QuoteFits(items, t + 6, next, [""], "");
    var s := "'" + (next + "'");
    assert s + "" == s;
    q := WithFits(items, t + 3, q, s);
    p := QuoteFits(items, t, prior, q, " with " + s);
  }

  lemma LastFits(items: seq<Item>, k: nat)
    requires |items| == k + 1 && items[k] == Ws0
    ensures Fits(items, k, [""], "")
  {
    assert Cat([""]) == "" + Cat([]);
  }

  lemma WithFits(items: seq<Item>, k: nat, rest: seq<string>, s: string) returns (p: seq<string>)
    requires k + 3 <= |items| && items[k] == items[k + 2] == Ws1 && items[k + 1] == Lit("with")
    requires Fits(items, k + 3, rest, s)
    ensures Fits(items, k, p, " with " + s)
  {
    hide Fits, Cat;
    FitsCons(items, k + 2, " ", rest, s);
    FitsCons(items, k + 1, "with", [" "] + rest, " " + s);
    FitsCons(items, k, " ", ["with"] + ([" "] + rest), "with" + (" " + s));
    p := [" "] + (["with"] + ([" "] + rest));
    assert " " + ("with" + (" " + s)) == " with " + s;
  }

  /** The end of every sentence: from the colon on. */
  lemma ColonFits(items: seq<Item>, t: nat, prior: string, next: string) returns (p: seq<string>, s: string)
    requires 4 <= t && |items| == t + 10 && items[t..] == TAIL && Escaped(prior) && Escaped(next)
    requires items[t - 4] == Lit(":") && items[t - 3] == Ws0 && items[t - 2] == Lit("replace") && items[t - 1] == Ws1
    ensures s == ": replace " + (("'" + (prior + "'")) + (" with " + ("'" + (next + "'"))))
    ensures Fits(items, t - 4, p, s)
  {
    hide Fits, Cat, Escaped;
    p := TailFits(items, t, prior, next);
    s := ("'" + (prior + "'")) + (" with " + ("'" + (next + "'")));
    FitsCons(items, t - 1, " ", p, s);
    p, s := [" "] + p, " " + s;
    FitsCons(items, t - 2, "replace", p, s);
    p, s := ["replace"] + p, "replace" + s;
    FitsCons(items, t - 3, " ", p, s);
    p, s := [" "] + p, " " + s;
    FitsCons(items, t - 4, ":", p, s);
    p, s := [":"] + p, ":" + s;
  }

  lemma PlainFits(subject: string, prior: string, next: string)
    requires subject != "" && Escaped(prior) && Escaped(next)
    ensures Match(PLAIN, Sentence(subject, prior, next)).Some?
  {
    hide Fits, Cat, Escaped;
    var items := PLAIN + TAIL;
    assert items[7..] == TAIL;
    var p, s := ColonFits(items, 7, prior, next);
    FitsCons(items, 2, subject, p, s);
    ModifyFits(items, [subject] + p, subject + s);
    var text := Sentence(subject, prior, next);
    assert "Modify " + (subject + s) == text;
    MatchComplete(items, 0, ["Modify"] + ([" "] + ([subject] + p)), text);
  }

  function FunctionSubject(name: string, path: string): string { "function " + name + " in " + path }

  lemma FunctionSubjectReads(name: string, path: string)
    requires IsIdent(name) && path != ""
    ensures Reads(FUNCTION_SUBJECT, FunctionSubject(name, path))
  {
    hide Cat;
    var q := ["function", " ", name, " ", "in", " ", path];
    CatSeven(q);
    assert q[0] + (q[1] + (q[2] + (q[3] + (q[4] + (q[5] + q[6]))))) == FunctionSubject(name, path);
    ReadsPieces(FUNCTION_SUBJECT, q, FunctionSubject(name, path));
  }

  lemma CatSeven(q: seq<string>)
    requires |q| == 7
    ensures Cat(q) == q[0] + (q[1] + (q[2] + (q[3] + (q[4] + (q[5] + q[6])))))
  {
    FrontPieces(q, 7);
    var r := q[3..];
    FrontPieces(r, 4);
    assert q[..7] == q && q[3..7] == r && r[..4] == r && r[3..4] == [q[6]];
    CatOne(q[6]);
  }

  lemma CatOne(piece: string)
    ensures Cat([piece]) == piece
  {
    assert [piece][1..] == [] && piece + "" == piece;
  }

  /** A path in which no word begins with "function" is a plain subject, and so is any one word. */
  lemma NoFunctionWord(s: string)
    requires s != "" && !IsSpace(s[0])
    requires NoSpace(s) || (!("function" <= s) && forall i | 0 <= i < |s| && IsSpace(s[i]) :: !("function" <= s[i + 1..]))
    ensures PlainSubject(s)
  {
    hide Cat, IsSpace;
    forall q: seq<string> | |q| == 7 && AcceptsAll(FUNCTION_SUBJECT, q, 0) ensures Cat(q) != s {
      assert Accepts(FUNCTION_SUBJECT[0], q[0 + 0]) && Accepts(FUNCTION_SUBJECT[1], q[0 + 1]);
      CatSeven(q);
      var t := q[0] + (q[1] + (q[2] + (q[3] + (q[4] + (q[5] + q[6])))));
      assert "function" <= t && t[8] == q[1][0];
    }
    forall q: seq<string> | |q| == 5 && AcceptsAll(SUBJECT_FUNCTION, q, 0) ensures Cat(q) != s {
      assert Accepts(SUBJECT_FUNCTION[0], q[0 + 0]) && Accepts(SUBJECT_FUNCTION[1], q[0 + 1]) && Accepts(SUBJECT_FUNCTION[2], q[0 + 2]);
      FunctionBehindSpace(q);
      var i :| 0 <= i < |Cat(q)| && IsSpace(Cat(q)[i]) && "function" <= Cat(q)[i + 1..];
    }
  }

  lemma FunctionBehindSpace(q: seq<string>)
    requires |q| == 5 && Accepts(Ws1, q[1]) && q[2] == "function"
    ensures exists i | 0 <= i < |Cat(q)| && IsSpace(Cat(q)[i]) :: "function" <= Cat(q)[i + 1..]
  {
    hide IsSpace;
    FrontPieces(q, 5);
    assert q[..5] == q;
    hide Cat;
    var rest := Cat(q[3..5]);
    var s := Cat(q);
    assert s == q[0] + q[1] + "function" + rest;
    var i := |q[0] + q[1]| - 1;
    assert s[i] == q[1][|q[1]| - 1];
    assert s[i + 1..] == "function" + rest;
  }

  /** The function form is read back with its own name and path. */
  lemma FunctionFirstUnique(name: string, path: string, prior: string, next: string)
    requires IsIdent(name) && path != "" && !IsSpace(path[0]) && Escaped(prior) && Escaped(next)
    ensures var r := Match(FUNCTION_FIRST, Sentence(FunctionSubject(name, path), prior, next));
            && r.Some? && r.value[4] == name && r.value[8] == path
            && r.value[14] == prior && r.value[20] == next
  {
    var subject := FunctionSubject(name, path);
    var text := Sentence(subject, prior, next);
    FunctionSubjectReads(name, path);
    FunctionFirstIff(subject, prior, next);
    MatchSound(FUNCTION_FIRST + TAIL, 0, text);
    var p := Match(FUNCTION_FIRST, text).value;
    SubjectTail(FUNCTION_FIRST, p, subject, prior, next);
    FunctionFirstPieces(p, subject);
    CatNine(p);
    var rest := p[5] + ("in" + (p[7] + p[8]));
    assert "Modify" + (p[1] + ("function" + (p[3] + (p[4] + rest)))) == "Modify " + subject;
    ReadFunction(p[1], p[3], p[4], rest, name, path);
    ReadPath(p[5], p[7], p[8], path);
  }

  lemma CatNine(p: seq<string>)
    requires 9 <= |p|
    ensures Cat(p[..9]) == p[0] + (p[1] + (p[2] + (p[3] + (p[4] + (p[5] + (p[6] + (p[7] + p[8])))))))
  {
    var q := p[..9];
    var r := q[3..];
    FrontPieces(q, 9);
    FrontPieces(r, 6);
    FrontPieces(r[3..], 3);
    assert q[..9] == q && q[3..9] == r && r[..6] == r && r[3..6] == r[3..] && r[3..][..3] == r[3..];
    assert r[3..][3..3] == [];
  }

  lemma ReadFunction(w: string, v: string, n: string, rest: string, name: string, path: string)
    requires "Modify" + (w + ("function" + (v + (n + rest)))) == "Modify " + FunctionSubject(name, path)
    requires Accepts(Ws1, w) && Accepts(Ws1, v) && IsIdent(n) && IsIdent(name)
    requires rest != "" && IsSpace(rest[0])
    ensures n == name && rest == " in " + path
  {
    var tail := " in " + path;
    var inner := "function" + (v + (n + rest));
    assert "Modify " + FunctionSubject(name, path) == "Modify" + (" " + ("function" + (" " + (name + tail))));
    assert w + inner == ("Modify" + (w + inner))[6..];
    assert " " + ("function" + (" " + (name + tail))) == ("Modify" + (" " + ("function" + (" " + (name + tail)))))[6..];
    RunUnique(IsSpace, w, inner, " ", "function" + (" " + (name + tail)));
    assert v + (n + rest) == inner[8..];
    assert " " + (name + tail) == ("function" + (" " + (name + tail)))[8..];
    RunUnique(IsSpace, v, n + rest, " ", name + tail);
    RunUnique(IdentChar, n, rest, name, tail);
  }

  lemma ReadPath(w: string, v: string, x: string, path: string)
    requires w + ("in" + (v + x)) == " in " + path
    requires Accepts(Ws1, w) && Accepts(Ws1, v) && path != "" && !IsSpace(path[0]) && x != ""
    ensures x == path
  {
    assert " in " + path == " " + ("in" + (" " + path));
    RunUnique(IsSpace, w, "in" + (v + x), " ", "in" + (" " + path));
    assert v + x == ("in" + (v + x))[2..];
    assert " " + path == ("in" + (" " + path))[2..];
    var s := v + x;
    assert forall i | 0 <= i < |v| :: s[i] == v[i] && IsSpace(v[i]);
    assert s[1] == path[0];
    assert |v| == 1;
    assert x == s[1..] && path == (" " + path)[1..];
  }

  // ---- The documented forms with a function behind the path ----

  /** In front of a function's name a path is read in one way, unless it ends in white space. */
  lemma ReadPathThenFunction(q: seq<string>, path: string, name: string)
    requires |q| == 5 && AcceptsAll(SUBJECT_FUNCTION, q, 0) && Cat(q) == path + " function " + name
    requires EndsInInk(path) && IsIdent(name)
    ensures q[0] == path && q[4] == name
  {
    assert Accepts(SUBJECT_FUNCTION[0], q[0 + 0]);
    assert Accepts(SUBJECT_FUNCTION[1], q[0 + 1]) && Accepts(SUBJECT_FUNCTION[2], q[0 + 2]);
    assert Accepts(SUBJECT_FUNCTION[3], q[0 + 3]) && Accepts(SUBJECT_FUNCTION[4], q[0 + 4]);
    assert q[..5] == q;
    CatSnoc(q, 4);
    NameAtEnd(Cat(q[..4]), q[3], q[4], path + " function", name, q);
    PathInFront(q, path);
  }

  lemma PathInFront(q: seq<string>, path: string)
    requires |q| == 5 && Cat(q[..4]) == (path + " function") + " " && EndsInInk(path)
    requires q[0] != "" && Accepts(Ws1, q[1]) && q[2] == "function" && Accepts(Ws1, q[3])
    ensures q[0] == path
  {
    assert q[..1] == [q[0]];
    CatOne(q[0]);
    assert path + " function" == (path + " ") + "function";
    PeelSpace(q, 3, path + " function", " ");
    PeelLit(q, 2, path + " ");
    CatSnoc(q, 1);
    SpaceRun(q[0], q[1], path);
  }

  lemma NameAtEnd(u: string, v: string, x: string, y: string, name: string, q: seq<string>)
    requires |q| == 5 && Cat(q[..4]) == u && q[3] == v && Accepts(Ws1, v)
    requires IsIdent(x) && IsIdent(name) && u + x == (y + " ") + name
    ensures x == name && u == y + " "
  {
    CatSnoc(q, 3);
    assert u[|u| - 1] == v[|v| - 1] && IsSpace(u[|u| - 1]);
    var s, t := u + x, (y + " ") + name;
    forall i | |u| <= i < |s| ensures IdentChar(s[i]) { assert s[i] == x[i - |u|]; }
    forall i | |y + " "| <= i < |t| ensures IdentChar(t[i]) { assert t[i] == name[i - |y + " "|]; }
    assert s[|u| - 1] == u[|u| - 1] && t[|y|] == ' ';
    assert !IdentChar(s[|u| - 1]) && !IdentChar(t[|y|]);
    assert |u| == |y| + 1;
    assert u == s[..|u|] && y + " " == t[..|u|] && x == s[|u|..] && name == t[|u|..];
  }

  lemma SpaceRun(x: string, w: string, path: string)
    requires x + w == path + " " && x != "" && Accepts(Ws1, w) && EndsInInk(path)
    ensures x == path
  {
    var s, t := x + w, path + " ";
    assert t[|path| - 1] == path[|path| - 1];
    assert forall i | |x| <= i < |s| :: s[i] == w[i - |x|] && IsSpace(s[i]);
    assert |x| == |path|;
    assert x == s[..|x|] && path == t[..|path|];
  }

  function SubjectFunction(path: string, name: string): string { path + " function " + name }

  lemma SubjectFunctionReads(path: string, name: string)
    requires path != "" && IsIdent(name)
    ensures Reads(SUBJECT_FUNCTION, SubjectFunction(path, name))
  {
    hide Cat;
    var q := [path, " ", "function", " ", name];
    FrontPieces(q, 5);
    assert q[..5] == q && q[3..5] == [" ", name];
    CatTwo(" ", name);
    assert path + (" " + ("function" + (" " + name))) == SubjectFunction(path, name);
    ReadsPieces(SUBJECT_FUNCTION, q, SubjectFunction(path, name));
  }

  lemma CatTwo(a: string, b: string)
    ensures Cat([a, b]) == a + b
  {
    CatOne(b);
    assert [a, b][1..] == [b];
  }

  lemma PathThenFunctionUnique(path: string, name: string, prior: string, next: string)
    requires EndsInInk(path) && !IsSpace(path[0]) && IsIdent(name) && Escaped(prior) && Escaped(next)
    ensures var r := Match(PATH_THEN_FUNCTION, Sentence(SubjectFunction(path, name), prior, next));
            && r.Some? && r.value[2] == path && r.value[6] == name
            && r.value[12] == prior && r.value[18] == next
  {
    hide IsSpace, Escaped, Cat, Sentence, Accepts, Reads, IsIdent;
    var subject := SubjectFunction(path, name);
    var text := Sentence(subject, prior, next);
    assert subject[0] == path[0];
    SubjectFunctionReads(path, name);
    PathThenFunctionIff(subject, prior, next);
    MatchSound(PATH_THEN_FUNCTION + TAIL, 0, text);
    var p := Match(PATH_THEN_FUNCTION, text).value;
    SubjectTail(PATH_THEN_FUNCTION, p, subject, prior, next);
    PathThenFunctionPieces(p, subject);
    SubjectPieces(p, 7, subject);
    SubjectAccepted(PATH_THEN_FUNCTION, SUBJECT_FUNCTION, p);
    ReadPathThenFunction(p[2..7], path, name);
  }

  /** The form "p function f" is not of the form "function f in p" for one word p, nor for any p that does not
      begin with "function". */
  lemma NotFunctionFirst(path: string, name: string)
    requires EndsInInk(path) && IsIdent(name) && (NoSpace(path) || !("function" <= path))
    ensures !Reads(FUNCTION_SUBJECT, SubjectFunction(path, name))
  {
    hide Cat, IsSpace;
    var s := SubjectFunction(path, name);
    forall q: seq<string> | |q| == 7 && AcceptsAll(FUNCTION_SUBJECT, q, 0) ensures Cat(q) != s {
      CatSeven(q);
      ThreeSpaces(q, Cat(q));
      if Cat(q) == s { TwoSpaces(path, name); }
    }
  }

  lemma ThreeSpaces(q: seq<string>, t: string)
    requires |q| == 7 && AcceptsAll(FUNCTION_SUBJECT, q, 0)
    requires t == q[0] + (q[1] + (q[2] + (q[3] + (q[4] + (q[5] + q[6])))))
    ensures "function" <= t
    ensures exists i, j, k | 0 <= i < j < k < |t| :: IsSpace(t[i]) && IsSpace(t[j]) && IsSpace(t[k])
  {
    hide IsSpace;
    assert Accepts(FUNCTION_SUBJECT[0], q[0 + 0]) && Accepts(FUNCTION_SUBJECT[1], q[0 + 1]);
    assert Accepts(FUNCTION_SUBJECT[3], q[0 + 3]) && Accepts(FUNCTION_SUBJECT[4], q[0 + 4]);
    assert Accepts(FUNCTION_SUBJECT[5], q[0 + 5]);
    var i := |q[0]|;
    var j := i + |q[1]| + |q[2]|;
    var k := j + |q[3]| + |q[4]|;
    assert t[i] == q[1][0] && t[j] == q[3][0] && t[k] == q[5][0];
  }

  lemma TwoSpaces(path: string, name: string)
    requires path != "" && IsIdent(name)
    ensures var s := SubjectFunction(path, name);
            && ("function" <= s ==> "function" <= path)
            && (NoSpace(path) ==> forall i | 0 <= i < |s| && IsSpace(s[i]) :: i in {|path|, |path| + 9})
  {
    var s := SubjectFunction(path, name);
    assert s == path + (" function " + name);
    assert forall i | 0 <= i < |path| :: s[i] == path[i];
    assert forall i | |path| <= i < |s| :: s[i] == (" function " + name)[i - |path|];
    forall i | |path| + 10 <= i < |s| ensures s[i] == name[i - |path| - 10] && IdentChar(s[i]) {}
    if "function" <= s {
      assert s[..8] == "function";
      if |path| < 8 { assert s[|path|] == "function"[|path|]; NoBlankThere(|path|); }
      assert path[..8] == s[..8];
    }
  }

  lemma NoBlankThere(i: nat)
    requires i < 8
    ensures "function"[i] != ' '
  {}

  /** The documented form "p function f": for every path p that neither begins nor ends with white space, it comes
      back as function f of path p exactly when it is not also of the form "function f in p", which comes first. */
  lemma ParseOfPathThenFunctionIff(path: string, name: string, oldText: string, newText: string)
    requires EndsInInk(path) && !IsSpace(path[0]) && IsIdent(name)
    ensures ParseReplaceTask(MakeReplaceTask(SubjectFunction(path, name), oldText, newText)) ==
              Some(Parsed(NormalizePath(path), name, DecodeLiteral(oldText), DecodeLiteral(newText), PathThenFunction))
            <==> !Reads(FUNCTION_SUBJECT, SubjectFunction(path, name))
  {
    hide Reads, IsIdent, IsSpace, DecodeLiteral, NormalizePath, Sentence;
    var subject := SubjectFunction(path, name);
    assert subject[0] == path[0];
    PrintedSentence(subject, oldText, newText);
    QuoteShape(oldText);
    QuoteShape(newText);
    FunctionFirstIff(subject, ShellQuote(oldText), ShellQuote(newText));
    PathThenFunctionUnique(path, name, ShellQuote(oldText), ShellQuote(newText));
  }

  // ---- The documented form with the function behind the colon ----

  function MakeColonTask(path: string, name: string, oldText: string, newText: string): string {
    "Modify " + path + ": in function " + name + " replace '" + ShellQuote(oldText) + "' with '" + ShellQuote(newText) + "'"
  }

  lemma PrintedColon(path: string, name: string, oldText: string, newText: string)
    ensures MakeColonTask(path, name, oldText, newText) == ColonSentence(path, name, ShellQuote(oldText), ShellQuote(newText))
    ensures Strip(MakeColonTask(path, name, oldText, newText)) == MakeColonTask(path, name, oldText, newText)
  {
    hide ShellQuote, StripBy;
    var t := MakeColonTask(path, name, oldText, newText);
    assert t[0] == 'M' && t[|t| - 1] == '\'';
  }

  lemma ColonTail(head: seq<Item>, p: seq<string>, path: string, name: string, prior: string, next: string)
    requires head != [] && head[|head| - 1] == Ws1
    requires Escaped(prior) && Escaped(next)
    requires Fits(head + TAIL, 0, p, ColonSentence(path, name, prior, next))
    ensures |p| == |head| + 10 && AcceptsAll(head, p, 0)
    ensures Cat(p[..|head|]) == "Modify " + path + ": in function " + name + " replace "
    ensures p[|head| + 1] == prior && p[|head| + 7] == next
  {
    hide Fits, Cat, Ending, Escaped;
    MatchedTail(head, p, "Modify " + path + ": in function " + name + " replace ", prior, next);
  }

  /** A colon cannot stand where that sentence has its function's name. */
  lemma NoNameBeforeColon(p: seq<string>, t: nat, y: string, name: string)
    requires 4 <= t <= |p| && IsIdent(name)
    requires p[t - 4] == ":" && AllSpace(p[t - 3]) && p[t - 2] == "replace" && AllSpace(p[t - 1])
    ensures Cat(p[..t]) != y + name + " replace "
  {
    if Cat(p[..t]) == y + name + " replace " {
      var z := y + name;
      assert z[|z| - 1] == name[|name| - 1] && IdentChar(z[|z| - 1]);
      assert z + " replace " == (z + " replace") + " ";
      PeelSpace(p, t - 1, z + " replace", " ");
      assert z + " replace" == (z + " ") + "replace";
      PeelLit(p, t - 2, z + " ");
      PeelSpace(p, t - 3, z, " ");
      CatSnoc(p, t - 4);
      assert false;
    }
  }

  lemma ColonHeadFails(head: seq<Item>, path: string, name: string, prior: string, next: string)
    requires head in {FUNCTION_FIRST, PATH_THEN_FUNCTION, PLAIN}
    requires IsIdent(name) && Escaped(prior) && Escaped(next)
    ensures Match(head, ColonSentence(path, name, prior, next)) == None
  {
    hide Escaped, Cat, ColonSentence, IsIdent;
    var text, t := ColonSentence(path, name, prior, next), |head|;
    if Match(head, text).Some? {
      MatchSound(head + TAIL, 0, text);
      var p := Match(head, text).value;
      ColonTail(head, p, path, name, prior, next);
      assert Accepts(head[t - 4], p[0 + (t - 4)]) && Accepts(head[t - 3], p[0 + (t - 3)]);
      assert Accepts(head[t - 2], p[0 + (t - 2)]) && Accepts(head[t - 1], p[0 + (t - 1)]);
      NoNameBeforeColon(p, t, "Modify " + path + ": in function ", name);
      assert false;
    }
  }

  lemma ColonPieces(p: seq<string>, path: string, name: string)
    requires |p| == 23 && AcceptsAll(PATH_COLON_IN_FUNCTION, p, 0) && IsIdent(name)
    requires path != "" && !IsSpace(path[0])
    requires Cat(p[..13]) == "Modify " + path + ": in function " + name + " replace "
    ensures p[2] == path && p[9] == name
  {
    assert Accepts(PATH_COLON_IN_FUNCTION[0], p[0 + 0]) && Accepts(PATH_COLON_IN_FUNCTION[1], p[0 + 1]);
    assert Accepts(PATH_COLON_IN_FUNCTION[2], p[0 + 2]) && Accepts(PATH_COLON_IN_FUNCTION[3], p[0 + 3]);
    assert Accepts(PATH_COLON_IN_FUNCTION[4], p[0 + 4]) && Accepts(PATH_COLON_IN_FUNCTION[5], p[0 + 5]);
    assert Accepts(PATH_COLON_IN_FUNCTION[6], p[0 + 6]) && Accepts(PATH_COLON_IN_FUNCTION[7], p[0 + 7]);
    assert Accepts(PATH_COLON_IN_FUNCTION[8], p[0 + 8]) && Accepts(PATH_COLON_IN_FUNCTION[9], p[0 + 9]);
    assert Accepts(PATH_COLON_IN_FUNCTION[10], p[0 + 10]) && Accepts(PATH_COLON_IN_FUNCTION[11], p[0 + 11]);
    assert Accepts(PATH_COLON_IN_FUNCTION[12], p[0 + 12]);
    ColonName(p, "Modify " + path + ": in function ", name);
    ColonFront(p, "Modify " + path);
    FrontPieces(p, 3);
    assert p[3..3] == [];
    FirstSpace(p[1], p[2], path);
  }

  lemma ColonName(p: seq<string>, y: string, name: string)
    requires |p| == 23 && Cat(p[..13]) == y + name + " replace " && EndsInSpace(y) && IsIdent(name)
    requires Accepts(Ws1, p[8]) && IsIdent(p[9]) && AllSpace(p[10]) && p[11] == "replace" && AllSpace(p[12])
    ensures p[9] == name && Cat(p[..9]) == y
  {
    var z := y + name;
    assert z[|z| - 1] == name[|name| - 1] && IdentChar(z[|z| - 1]);
    assert IdentChar(p[9][|p[9]| - 1]);
    assert z + " replace " == (z + " replace") + " ";
    PeelSpace(p, 12, z + " replace", " ");
    assert z + " replace" == (z + " ") + "replace";
    PeelLit(p, 11, z + " ");
    PeelSpace(p, 10, z, " ");
    CatSnoc(p, 9);
    CatSnoc(p, 8);
    LastName(Cat(p[..9]), p[9], y, name);
  }

  /** A name is what stands behind the last white space. */
  lemma LastName(u: string, x: string, y: string, name: string)
    requires EndsInSpace(u) && EndsInSpace(y) && IsIdent(x) && IsIdent(name) && u + x == y + name
    ensures u == y && x == name
  {
    var s, t := u + x, y + name;
    forall i | |u| <= i < |s| ensures IdentChar(s[i]) { assert s[i] == x[i - |u|]; }
    forall i | |y| <= i < |t| ensures IdentChar(t[i]) { assert t[i] == name[i - |y|]; }
    assert s[|u| - 1] == u[|u| - 1] && t[|y| - 1] == y[|y| - 1];
    assert !IdentChar(s[|u| - 1]) && !IdentChar(t[|y| - 1]);
    assert |u| == |y|;
    assert u == s[..|u|] && y == t[..|u|] && x == s[|u|..] && name == t[|u|..];
  }

  lemma ColonFront(p: seq<string>, y: string)
    requires |p| == 23 && Cat(p[..9]) == y + ": in function " && y != ""
    requires p[3] == ":" && AllSpace(p[4]) && p[5] == "in" && AllSpace(p[6]) && p[7] == "function" && AllSpace(p[8])
    ensures Cat(p[..3]) == y
  {
    assert y + ": in function " == (y + ": in function") + " ";
    PeelSpace(p, 8, y + ": in function", " ");
    assert y + ": in function" == (y + ": in ") + "function";
    PeelLit(p, 7, y + ": in ");
    assert y + ": in " == (y + ": in") + " ";
    PeelSpace(p, 6, y + ": in", " ");
    assert y + ": in" == (y + ": ") + "in";
    PeelLit(p, 5, y + ": ");
    assert y + ": " == (y + ":") + " ";
    PeelSpace(p, 4, y + ":", " ");
    PeelLit(p, 3, y);
  }

  lemma ReplaceFits(items: seq<Item>, p0: seq<string>, s0: string) returns (p: seq<string>, s: string)
    requires items == PATH_COLON_IN_FUNCTION + TAIL && Fits(items, 13, p0, s0)
    ensures s == " replace " + s0 && Fits(items, 10, p, s)
  {
    hide Fits, Cat;
    p, s := p0, s0;
    FitsCons(items, 12, " ", p, s);
    p, s := [" "] + p, " " + s;
    FitsCons(items, 11, "replace", p, s);
    p, s := ["replace"] + p, "replace" + s;
    FitsCons(items, 10, " ", p, s);
    p, s := [" "] + p, " " + s;
  }

  lemma NameFits(items: seq<Item>, name: string, prior: string, next: string) returns (p: seq<string>, s: string)
    requires items == PATH_COLON_IN_FUNCTION + TAIL && IsIdent(name) && Escaped(prior) && Escaped(next)
    ensures s == name + (" replace " + (("'" + (prior + "'")) + (" with " + ("'" + (next + "'")))))
    ensures Fits(items, 9, p, s)
  {
    hide Fits, Cat, Escaped, IsIdent;
    assert items[13..] == TAIL;
    p := TailFits(items, 13, prior, next);
    s := ("'" + (prior + "'")) + (" with " + ("'" + (next + "'")));
    p, s := ReplaceFits(items, p, s);
    FitsCons(items, 9, name, p, s);
    p, s := [name] + p, name + s;
  }

  lemma FunctionFits(items: seq<Item>, p0: seq<string>, s0: string) returns (p: seq<string>, s: string)
    requires items == PATH_COLON_IN_FUNCTION + TAIL && Fits(items, 9, p0, s0)
    ensures s == " function " + s0 && Fits(items, 6, p, s)
  {
    hide Fits, Cat;
    p, s := p0, s0;
    FitsCons(items, 8, " ", p, s);
    p, s := [" "] + p, " " + s;
    FitsCons(items, 7, "function", p, s);
    p, s := ["function"] + p, "function" + s;
    FitsCons(items, 6, " ", p, s);
    p, s := [" "] + p, " " + s;
  }

  lemma InFunctionFits(items: seq<Item>, p0: seq<string>, s0: string) returns (p: seq<string>, s: string)
    requires items == PATH_COLON_IN_FUNCTION + TAIL && Fits(items, 9, p0, s0)
    ensures s == ": in function " + s0 && Fits(items, 3, p, s)
  {
    hide Fits, Cat;
    p, s := FunctionFits(items, p0, s0);
    FitsCons(items, 5, "in", p, s);
    p, s := ["in"] + p, "in" + s;
    FitsCons(items, 4, " ", p, s);
    p, s := [" "] + p, " " + s;
    FitsCons(items, 3, ":", p, s);
    p, s := [":"] + p, ":" + s;
  }

  lemma ColonUniqueMatch(path: string, name: string, prior: string, next: string)
    requires path != "" && !IsSpace(path[0]) && IsIdent(name) && Escaped(prior) && Escaped(next)
    ensures var r := Match(PATH_COLON_IN_FUNCTION, ColonSentence(path, name, prior, next));
            && r.Some? && r.value[2] == path && r.value[9] == name
            && r.value[14] == prior && r.value[20] == next
  {
    hide IsSpace, Escaped, Cat, Fits, IsIdent;
    var items := PATH_COLON_IN_FUNCTION + TAIL;
    var text := ColonSentence(path, name, prior, next);
    var q, s := NameFits(items, name, prior, next);
    q, s := InFunctionFits(items, q, s);
    FitsCons(items, 2, path, q, s);
    ModifyFits(items, [path] + q, path + s);
    assert "Modify " + (path + s) == text;
    MatchComplete(items, 0, ["Modify"] + ([" "] + ([path] + q)), text);
    MatchSound(items, 0, text);
    var p := Match(PATH_COLON_IN_FUNCTION, text).value;
    ColonTail(PATH_COLON_IN_FUNCTION, p, path, name, prior, next);
    ColonPieces(p, path, name);
  }

  /** The documented form "p: in function f" comes back as function f of path p, for every path that does not begin
      with white space and all texts. */
  lemma ParseOfColonTask(path: string, name: string, oldText: string, newText: string)
    requires path != "" && !IsSpace(path[0]) && IsIdent(name)
    ensures ParseReplaceTask(MakeColonTask(path, name, oldText, newText)) ==
            Some(Parsed(NormalizePath(path), name, DecodeLiteral(oldText), DecodeLiteral(newText), PathColonInFunction))
  {
    hide IsIdent, IsSpace, DecodeLiteral, NormalizePath, ColonSentence;
    PrintedColon(path, name, oldText, newText);
    QuoteShape(oldText);
    QuoteShape(newText);
    var prior, next := ShellQuote(oldText), ShellQuote(newText);
    ColonHeadFails(FUNCTION_FIRST, path, name, prior, next);
    ColonHeadFails(PATH_THEN_FUNCTION, path, name, prior, next);
    ColonUniqueMatch(path, name, prior, next);
  }

  // ---- Main results ----

  /** Parsing a printed edit, for every plain subject and every pair of texts: the plain pattern, and no earlier
      one, takes it, with the texts as the literal decoder leaves them. */
  lemma ParseOfPrint(path: string, oldText: string, newText: string)
    requires PlainSubject(path)
    ensures ParseReplaceTask(MakeReplaceTask(path, oldText, newText)) ==
            Some(Parsed(NormalizePath(path), "", DecodeLiteral(oldText), DecodeLiteral(newText), Plain))
  {
    PrintedSentence(path, oldText, newText);
    QuoteShape(oldText);
    QuoteShape(newText);
    var prior, next := ShellQuote(oldText), ShellQuote(newText);
    FunctionFirstIff(path, prior, next);
    PathThenFunctionIff(path, prior, next);
    NotPathColonInFunction(path, prior, next);
    PlainUnique(path, prior, next);
  }

  /** Parsing undoes printing, for every path that does not begin with white space, exactly when the path is
      settled and not of one of the two function forms, and neither text spells out a line break or a tab;
      apostrophes, other backslashes and real line breaks all survive. */
  lemma ParseUndoesPrintIff(path: string, oldText: string, newText: string)
    requires path != "" && !IsSpace(path[0])
    ensures ParseReplaceTask(MakeReplaceTask(path, oldText, newText)) == Some(Parsed(path, "", oldText, newText, Plain))
            <==> Settled(path) && PlainSubject(path) && PlainText(oldText) && PlainText(newText)
  {
    hide Settled, NormalizePath, PlainText, DecodeLiteral, MakeReplaceTask, Reads;
    SettledIffUnchanged(path);
    DecodeIffPlain(oldText);
    DecodeIffPlain(newText);
    if PlainSubject(path) {
      ParseOfPrint(path, oldText, newText);
    } else {
      TakenEarlier(path, oldText, newText);
    }
  }

  /** A subject of one of the function forms is taken by a pattern for it. */
  lemma TakenEarlier(path: string, oldText: string, newText: string)
    requires path != "" && !IsSpace(path[0]) && !PlainSubject(path)
    ensures var r := ParseReplaceTask(MakeReplaceTask(path, oldText, newText)); r.Some? && r.value.mode != Plain
  {
    PrintedSentence(path, oldText, newText);
    QuoteShape(oldText);
    QuoteShape(newText);
    var prior, next := ShellQuote(oldText), ShellQuote(newText);
    FunctionFirstIff(path, prior, next);
    PathThenFunctionIff(path, prior, next);
  }

  /** The planner's "function f in p" subject comes back as function f with path p. */
  lemma ParseOfFunctionPrint(name: string, path: string, oldText: string, newText: string)
    requires IsIdent(name) && path != "" && !IsSpace(path[0])
    ensures ParseReplaceTask(MakeReplaceTask(FunctionSubject(name, path), oldText, newText)) ==
            Some(Parsed(NormalizePath(path), name, DecodeLiteral(oldText), DecodeLiteral(newText), FunctionFirst))
  {
    var subject := FunctionSubject(name, path);
    PrintedSentence(subject, oldText, newText);
    QuoteShape(oldText);
    QuoteShape(newText);
    FunctionFirstUnique(name, path, ShellQuote(oldText), ShellQuote(newText));
  }
}
