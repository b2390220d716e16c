/** Recovering JSON objects from noisy text with a small state machine. */
module JsonScan {

  datatype Mode = Outside | InString | Escape

  datatype Span = Span(from: nat, to: nat)

  /** The variables of the scanning loop: nesting depth, where the open candidate starts, whether the
      next character is inside a string, and the candidates found so far. */
  datatype Scan = Scan(depth: nat, start: int, mode: Mode, spans: seq<Span>)

  function Step(s: Scan, index: nat, c: char): Scan {
    match s.mode
    case Escape => s.(mode := InString)
    case InString =>
      if c == '\\' then s.(mode := Escape)
      else if c == '"' then s.(mode := Outside)
      else s
    case Outside =>
      if c == '"' then s.(mode := InString)
      else if c == '{' then s.(depth := s.depth + 1, start := if s.depth == 0 then index else s.start)
      else if c == '}' && s.depth > 0 then
        if s.depth == 1 && s.start >= 0 then s.(depth := 0, start := -1, spans := s.spans + [Span(s.start, index + 1)])
        else s.(depth := s.depth - 1)
      else s
  }

  const START: Scan := Scan(0, -1, Outside, [])

  /** The loop's variables after the first `k` characters. */
  function After(raw: string, k: nat): Scan
    requires k <= |raw|
  {
    if k == 0 then START else Step(After(raw, k - 1), k - 1, raw[k - 1])
  }

  function Cut(raw: string, span: Span): string {
    if span.from <= span.to <= |raw| then raw[span.from..span.to] else ""
  }

  function CutAll(raw: string, spans: seq<Span>): (r: seq<string>)
    ensures |r| == |spans| && forall i | 0 <= i < |r| :: r[i] == Cut(raw, spans[i])
  {
    if spans == [] then [] else CutAll(raw, spans[..|spans| - 1]) + [Cut(raw, spans[|spans| - 1])]
  }

  function Spans(raw: string): seq<Span> { After(raw, |raw|).spans }

  function Candidates(raw: string): seq<string> { CutAll(raw, Spans(raw)) }

  /** The loop of the original: two flags, a depth and a start index, updated character by character. */
  method ExtractCandidates(raw: string) returns (candidates: seq<string>)
    ensures candidates == Candidates(raw)
  {
    hide After, CutAll;
    AfterNext(raw, 0);
    CutNone(raw);
    candidates := [];
    var depth := 0;
    var start := -1;
    var inString := false;
    var escape := false;
    var index := 0;
    while index < |raw|
      invariant index <= |raw| && depth >= 0
      invariant escape ==> inString
      invariant var s := After(raw, index);
                && s.depth == depth && s.start == start
                && s.mode == (if escape then Escape else if inString then InString else Outside)
                && candidates == CutAll(raw, s.spans)
    {
      var c := raw[index];
      OpenBefore(raw, index);
      AfterNext(raw, index + 1);
      if inString {
        if escape {
          escape := false;
        } else if c == '\\' {
          escape := true;
        } else if c == '"' {
          inString := false;
        }
      } else if c == '"' {
        inString := true;
      } else if c == '{' {
        if depth == 0 { start := index; }
        depth := depth + 1;
      } else if c == '}' {
        if depth > 0 {
          depth := depth - 1;
          if depth == 0 && start >= 0 {
            CutSnoc(raw, After(raw, index).spans, Span(start, index + 1));
            candidates := candidates + [raw[start..index + 1]];
            start := -1;
          }
        }
      }
      index := index + 1;
    }
  }

  lemma AfterNext(raw: string, k: nat)
    requires k <= |raw|
    ensures After(raw, k) == if k == 0 then START else Step(After(raw, k - 1), k - 1, raw[k - 1])
  {}

  lemma CutNone(raw: string)
    ensures CutAll(raw, []) == []
  {}

  lemma CutSnoc(raw: string, spans: seq<Span>, span: Span)
    ensures CutAll(raw, spans + [span]) == CutAll(raw, spans) + [Cut(raw, span)]
  {
    assert (spans + [span])[..|spans|] == spans;
  }

  lemma {:induction false} OpenBefore(raw: string, k: nat)
    requires k <= |raw|
    ensures After(raw, k).start < k
    ensures After(raw, k).start >= 0 <==> After(raw, k).depth > 0
    ensures After(raw, k).start >= -1
  {
    if k > 0 { OpenBefore(raw, k - 1); }
  }

  // ---- The reference: strings and braces of a text on its own ----

  function NextMode(m: Mode, c: char): Mode {
    match m
    case Escape => InString
    case InString => if c == '\\' then Escape else if c == '"' then Outside else InString
    case Outside => if c == '"' then InString else Outside
  }

  function Weight(m: Mode, c: char): int {
    if m.Outside? && c == '{' then 1 else if m.Outside? && c == '}' then -1 else 0
  }

  /** Whether the first `k` characters end inside a string. */
  function Lex(t: string, k: nat): Mode
    requires k <= |t|
  {
    if k == 0 then Outside else NextMode(Lex(t, k - 1), t[k - 1])
  }

  /** Opening minus closing braces outside strings among the first `k` characters. */
  function Net(t: string, k: nat): int
    requires k <= |t|
  {
    if k == 0 then 0 else Net(t, k - 1) + Weight(Lex(t, k - 1), t[k - 1])
  }

  /** A text that opens with a brace, closes with a brace, is balanced outside strings, and has no
      balanced proper non-empty prefix. */
  ghost predicate MinimalObject(t: string) {
    && |t| >= 2 && t[0] == '{' && t[|t| - 1] == '}'
    && Lex(t, |t|) == Outside && Net(t, |t|) == 0
    && forall k | 0 < k < |t| :: Net(t, k) > 0
  }

  lemma {:induction false} Continued(a: string, x: string, k: nat)
    requires k <= |x| && Lex(a, |a|) == Outside
    ensures Lex(a + x, |a| + k) == Lex(x, k)
    ensures Net(a + x, |a| + k) == Net(a, |a|) + Net(x, k)
  {
    if k == 0 {
      Prefixed(a, x, |a|);
    } else {
      Continued(a, x, k - 1);
    }
  }

  lemma {:induction false} Prefixed(a: string, x: string, k: nat)
    requires k <= |a|
    ensures Lex(a + x, k) == Lex(a, k) && Net(a + x, k) == Net(a, k) && After(a + x, k) == After(a, k)
  {
    if k > 0 { Prefixed(a, x, k - 1); }
  }

  // ---- Every candidate is a minimal object ----

  /** Between two positions outside strings, the braces open and do not close before the end. */
  ghost predicate Bracketed(raw: string, span: Span) {
    && span.from + 2 <= span.to <= |raw|
    && raw[span.from] == '{' && raw[span.to - 1] == '}'
    && Lex(raw, span.from) == Outside && Lex(raw, span.to) == Outside
    && Net(raw, span.to) == Net(raw, span.from)
    && (forall k | span.from < k < span.to :: Net(raw, k) > Net(raw, span.from))
    && After(raw, span.from).depth == 0
  }

  ghost predicate Sound(raw: string, k: nat)
    requires k <= |raw|
  {
    var s := After(raw, k);
    && s.mode == Lex(raw, k)
    && (s.depth > 0 ==>
          && 0 <= s.start < k && raw[s.start] == '{' && Lex(raw, s.start) == Outside
          && After(raw, s.start).depth == 0
          && s.depth == Net(raw, k) - Net(raw, s.start)
          && forall m | s.start < m <= k :: Net(raw, m) > Net(raw, s.start))
    && (s.depth == 0 ==> s.start == -1)
    && (forall i | 0 <= i < |s.spans| :: Bracketed(raw, s.spans[i]) && s.spans[i].to <= (if s.depth > 0 then s.start else k))
    && (forall i, j | 0 <= i < j < |s.spans| :: s.spans[i].to <= s.spans[j].from)
  }

  lemma {:induction false} ScanIsSound(raw: string, k: nat)
    requires k <= |raw|
    ensures Sound(raw, k)
  {
    if k > 0 {
      ScanIsSound(raw, k - 1);
      var s, t := After(raw, k - 1), After(raw, k);
      if s.mode.Outside? && raw[k - 1] == '{' && s.depth == 0 {
        assert Net(raw, k) == Net(raw, k - 1) + 1;
      }
      if t.spans != s.spans {
        var span := Span(s.start, k);
        assert t.spans == s.spans + [span];
        assert Bracketed(raw, span);
      }
    }
  }

  lemma BracketedIsMinimal(raw: string, span: Span)
    requires Bracketed(raw, span)
    ensures MinimalObject(raw[span.from..span.to])
  {
    var a, t := raw[..span.from], raw[span.from..span.to];
    assert raw == a + (t + raw[span.to..]);
    Prefixed(a, t + raw[span.to..], |a|);
    forall k | 0 <= k <= |t|
      ensures Lex(t, k) == Lex(raw, span.from + k) && Net(t, k) == Net(raw, span.from + k) - Net(raw, span.from)
    {
      Continued(a, t + raw[span.to..], k);
      Prefixed(t, raw[span.to..], k);
    }
  }

  /** For every input: the candidates are disjoint pieces of it, from left to right, and each one is a
      minimal object. */
  lemma CandidatesAreObjects(raw: string)
    ensures var spans := Spans(raw);
            && |Candidates(raw)| == |spans|
            && (forall i | 0 <= i < |spans| ::
                  && spans[i].from < spans[i].to <= |raw|
                  && Candidates(raw)[i] == raw[spans[i].from..spans[i].to]
                  && MinimalObject(Candidates(raw)[i]))
            && (forall i, j | 0 <= i < j < |spans| :: spans[i].to <= spans[j].from)
  {
    ScanIsSound(raw, |raw|);
    var spans := Spans(raw);
    forall i | 0 <= i < |spans| ensures MinimalObject(Cut(raw, spans[i])) {
      BracketedIsMinimal(raw, spans[i]);
    }
  }

  // ---- Every minimal object at top level is a candidate ----

  /** The scanner is outside strings and objects at the end of `a`. */
  predicate Top(a: string) {
    var s := After(a, |a|);
    s.depth == 0 && s.mode == Outside
  }

  function Moved(spans: seq<Span>, d: nat): (r: seq<Span>)
    ensures |r| == |spans| && forall i | 0 <= i < |r| :: r[i] == Span(spans[i].from + d, spans[i].to + d)
  {
    if spans == [] then []
    else
      var last := spans[|spans| - 1];
      Moved(spans[..|spans| - 1], d) + [Span(last.from + d, last.to + d)]
  }

  /** From a top-level position the scanner starts afresh. */
  lemma {:induction false} StartsAfresh(a: string, x: string, k: nat)
    requires Top(a) && k <= |x|
    ensures var s, t := After(x, k), After(a + x, |a| + k);
            && t.depth == s.depth && t.mode == s.mode
            && t.start == (if s.start < 0 then -1 else s.start + |a|)
            && t.spans == Spans(a) + Moved(s.spans, |a|)
  {
    hide After, Moved;
    OpenBefore(a, |a|);
    AfterNext(x, k);
    if k == 0 {
      Prefixed(a, x, |a|);
      MovedNone(|a|);
    } else {
      StartsAfresh(a, x, k - 1);
      OpenBefore(x, k - 1);
      AfterNext(a + x, |a| + k);
      var s := After(x, k - 1);
      if s.start >= 0 { MovedSnoc(s.spans, Span(s.start, k), |a|); }
    }
  }

  lemma MovedNone(d: nat)
    ensures Moved([], d) == []
  {}

  lemma MovedSnoc(spans: seq<Span>, span: Span, d: nat)
    ensures Moved(spans + [span], d) == Moved(spans, d) + [Span(span.from + d, span.to + d)]
  {
    assert (spans + [span])[..|spans|] == spans;
  }

  lemma CandidatesConcat(a: string, x: string)
    requires Top(a)
    ensures Candidates(a + x) == Candidates(a) + Candidates(x)
    ensures Top(a + x) <==> Top(x)
  {
    hide After, Moved, CutAll, Lex, Net;
    StartsAfresh(a, x, |x|);
    ScanIsSound(a, |a|);
    ScanIsSound(x, |x|);
    var l, r := Candidates(a + x), Candidates(a) + Candidates(x);
    forall i | 0 <= i < |l| ensures l[i] == r[i] {
      if i < |Spans(a)| {
        assert Bracketed(a, Spans(a)[i]);
      } else {
        assert Bracketed(x, Spans(x)[i - |Spans(a)|]);
      }
    }
  }

  lemma {:induction false} InsideObject(t: string, k: nat)
    requires MinimalObject(t) && k < |t|
    ensures var s := After(t, k);
            && s.depth == Net(t, k) && s.mode == Lex(t, k) && s.spans == []
            && s.start == (if k == 0 then -1 else 0)
  {
    if k > 0 {
      InsideObject(t, k - 1);
      assert Net(t, k) > 0;
      assert k > 1 ==> Net(t, k - 1) > 0;
    }
  }

  lemma ObjectIsOneCandidate(t: string)
    requires MinimalObject(t)
    ensures Candidates(t) == [t] && Top(t)
  {
    hide After;
    ObjectSpan(t);
    assert t[0..|t|] == t;
    assert Candidates(t)[0] == t;
  }

  lemma ObjectSpan(t: string)
    requires MinimalObject(t)
    ensures Spans(t) == [Span(0, |t|)] && Top(t)
  {
    var n := |t|;
    InsideObject(t, n - 1);
    assert Net(t, n - 1) > 0;
  }

  /** Recovery: a minimal object that starts at top level is a candidate of its own, whatever comes
      before and after it. */
  lemma ObjectRecovered(a: string, t: string, b: string)
    requires Top(a) && MinimalObject(t)
    ensures Candidates(a + t + b) == Candidates(a) + [t] + Candidates(b)
  {
    hide Top, MinimalObject, Candidates;
    ObjectIsOneCandidate(t);
    CandidatesConcat(t, b);
    CandidatesConcat(a, t + b);
    assert a + t + b == a + (t + b);
  }

  /** The scanner reports an object at its place exactly when it reaches that place at top level. */
  lemma ReportedIffTop(a: string, t: string, b: string)
    requires MinimalObject(t)
    ensures Span(|a|, |a| + |t|) in Spans(a + t + b) <==> Top(a)
  {
    var raw, span := a + t + b, Span(|a|, |a| + |t|);
    assert raw == a + (t + b);
    if Top(a) { TopIsReported(a, t, b); }
    if span in Spans(raw) { ReportedIsTop(a, t + b, span.to); }
  }

  lemma TopIsReported(a: string, t: string, b: string)
    requires MinimalObject(t) && Top(a)
    ensures Span(|a|, |a| + |t|) in Spans(a + (t + b))
  {
    hide After, Moved;
    StartsAfresh(a, t + b, |t|);
    Prefixed(t, b, |t|);
    ObjectSpan(t);
    MovedSnoc([], Span(0, |t|), |a|);
    assert [] + [Span(0, |t|)] == [Span(0, |t|)];
    var spans := After(a + (t + b), |a| + |t|).spans;
    assert spans[|spans| - 1] == Span(|a|, |a| + |t|);
    SpansGrow(a + (t + b), |a| + |t|, |a + (t + b)|);
  }

  lemma ReportedIsTop(a: string, x: string, to: nat)
    requires Span(|a|, to) in Spans(a + x)
    ensures Top(a)
  {
    hide After, Net;
    ScanIsSound(a + x, |a + x|);
    assert Bracketed(a + x, Span(|a|, to));
    ScanIsSound(a + x, |a|);
    Prefixed(a, x, |a|);
  }

  lemma {:induction false} SpansGrow(raw: string, i: nat, k: nat)
    requires i <= k <= |raw|
    ensures After(raw, i).spans <= After(raw, k).spans
    decreases k - i
  {
    if i < k { SpansGrow(raw, i, k - 1); }
  }

  // ---- Printed JSON values (RFC 8259) ----

  /** No quotation mark and no brace: numbers, literals, punctuation and white space. */
  predicate Plain(s: string) { forall i | 0 <= i < |s| :: s[i] != '"' && s[i] != '{' && s[i] != '}' }

  type PlainText = s: string | Plain(s) witness ""

  datatype Json =
    | Word(word: PlainText)  // null, true, false and numbers
    | Str(text: string)
    | Arr(items: seq<Json>)
    | Obj(members: seq<Member>)

  datatype Member = Member(key: string, value: Json)

  /** How a printer spells characters inside strings and which white space it puts at each depth. */
  datatype Layout = Layout(escape: char -> string, gap: nat -> string, colon: string)

  /** The text of a string between its quotation marks: every quotation mark and every backslash is
      part of an escape. */
  predicate Body(t: string) {
    || t == ""
    || (t[0] == '\\' && |t| >= 2 && Body(t[2..]))
    || (t[0] != '\\' && t[0] != '"' && Body(t[1..]))
  }

  ghost predicate GoodLayout(lay: Layout) {
    && (forall c: char :: Body(lay.escape(c)))
    && (forall d: nat :: Plain(lay.gap(d)))
    && Plain(lay.colon)
  }

  function EscapeAll(s: string, lay: Layout): string {
    if s == "" then "" else lay.escape(s[0]) + EscapeAll(s[1..], lay)
  }

  function Quote(s: string, lay: Layout): string { "\"" + EscapeAll(s, lay) + "\"" }

  function Print(v: Json, lay: Layout, depth: nat): string
    decreases v, 0
  {
    match v
    case Word(text) => text
    case Str(text) => Quote(text, lay)
    case Arr(items) => "[" + PrintItems(items, lay, depth) + "]"
    case Obj(members) => "{" + PrintMembers(members, lay, depth) + "}"
  }

  function PrintItems(items: seq<Json>, lay: Layout, depth: nat): string
    decreases items, 1
  {
    if items == [] then ""
    else
      lay.gap(depth + 1) + Print(items[0], lay, depth + 1)
      + (if |items| == 1 then lay.gap(depth) else "," + PrintItems(items[1..], lay, depth))
  }

  function PrintMembers(members: seq<Member>, lay: Layout, depth: nat): string
    decreases members, 1
  {
    if members == [] then ""
    else
      lay.gap(depth + 1) + Quote(members[0].key, lay) + (":" + lay.colon) + Print(members[0].value, lay, depth + 1)
      + (if |members| == 1 then lay.gap(depth) else "," + PrintMembers(members[1..], lay, depth))
  }

  /** A text that starts and ends outside strings and whose braces pair up inside it. */
  ghost predicate Neutral(t: string) {
    Lex(t, |t|) == Outside && Net(t, |t|) == 0 && forall k | 0 <= k <= |t| :: Net(t, k) >= 0
  }

  lemma NeutralConcat(a: string, b: string)
    requires Neutral(a) && Neutral(b)
    ensures Neutral(a + b)
  {
    forall k | 0 <= k <= |a + b| ensures Net(a + b, k) >= 0 {
      if k <= |a| { Prefixed(a, b, k); } else { Continued(a, b, k - |a|); }
    }
    Continued(a, b, |b|);
  }

  lemma {:induction false} PlainNeutral(s: string, k: nat)
    requires k <= |s| && Plain(s)
    ensures Lex(s, k) == Outside && Net(s, k) == 0
  {
    if k > 0 { PlainNeutral(s, k - 1); }
  }

  lemma PlainIsNeutral(s: string)
    requires Plain(s)
    ensures Neutral(s)
  {
    forall k | 0 <= k <= |s| ensures Net(s, k) >= 0 { PlainNeutral(s, k); }
    PlainNeutral(s, |s|);
  }

  /** Inside a string, a body leaves the scanner inside that string and counts no braces. */
  lemma {:induction false} BodyStaysInside(a: string, t: string, k: nat)
    requires Lex(a, |a|) == InString && Body(t) && k <= |t|
    ensures Lex(a + t, |a| + k) != Outside && Net(a + t, |a| + k) == Net(a, |a|)
    ensures Lex(a + t, |a| + |t|) == InString
    decreases |t|
  {
    Prefixed(a, t, |a|);
    if t != "" {
      var d := if t[0] == '\\' then 2 else 1;
      var a', t' := a + t[..d], t[d..];
      assert a' + t' == a + t;
      Prefixed(a, t[..d], |a|);
      assert Lex(a', |a| + 1) == (if d == 2 then Escape else InString);
      assert Lex(a', |a'|) == InString && Net(a', |a'|) == Net(a, |a|);
      BodyStaysInside(a', t', if k >= d then k - d else 0);
      if 0 < k < d { assert k == 1; Prefixed(a', t', |a| + 1); }
    }
  }

  lemma {:induction false} EscapedIsBody(s: string, lay: Layout)
    requires GoodLayout(lay)
    ensures Body(EscapeAll(s, lay))
  {
    if s != "" {
      EscapedIsBody(s[1..], lay);
      BodyConcat(lay.escape(s[0]), EscapeAll(s[1..], lay));
    }
  }

  lemma {:induction false} BodyConcat(a: string, b: string)
    requires Body(a) && Body(b)
    ensures Body(a + b)
  {
    if a == "" {
      assert a + b == b;
    } else if a[0] == '\\' {
      BodyConcat(a[2..], b);
      assert (a + b)[2..] == a[2..] + b;
    } else {
      BodyConcat(a[1..], b);
      assert (a + b)[1..] == a[1..] + b;
    }
  }

  lemma QuoteIsNeutral(s: string, lay: Layout)
    requires GoodLayout(lay)
    ensures Neutral(Quote(s, lay))
  {
    hide Lex, Net, EscapeAll;
    var body := EscapeAll(s, lay);
    EscapedIsBody(s, lay);
    var whole := "\"" + body + "\"";
    forall k | 0 <= k <= |whole| ensures Net(whole, k) == 0 { QuotedBody(body, k); }
    QuotedBody(body, |whole|);
  }

  lemma QuotedBody(body: string, k: nat)
    requires Body(body) && k <= |body| + 2
    ensures var whole := "\"" + body + "\"";
            Net(whole, k) == 0 && Lex(whole, |whole|) == Outside
  {
    var open := "\"" + body;
    assert Lex("\"", 1) == InString && Net("\"", 1) == 0;
    BodyStaysInside("\"", body, |body|);
    Prefixed(open, "\"", |open|);
    if 1 <= k <= |open| {
      BodyStaysInside("\"", body, k - 1);
      Prefixed(open, "\"", k);
    }
  }

  lemma BracedIsMinimal(t: string)
    requires Neutral(t)
    ensures MinimalObject("{" + t + "}") && Neutral("{" + t + "}")
  {
    var open := "{" + t;
    assert Lex("{", 1) == Outside && Net("{", 1) == 1;
    forall k | 0 < k <= |open| ensures Net(open, k) > 0 {
      Continued("{", t, k - 1);
    }
    Continued("{", t, |t|);
    var whole := open + "}";
    forall k | 0 <= k <= |open| ensures Net(whole, k) == Net(open, k) && Lex(whole, |open|) == Lex(open, |open|) {
      Prefixed(open, "}", k);
      Prefixed(open, "}", |open|);
    }
  }

  lemma {:induction false} PrintIsNeutral(v: Json, lay: Layout, depth: nat)
    requires GoodLayout(lay)
    ensures Neutral(Print(v, lay, depth))
    decreases v, 0
  {
    match v
    case Word(text) => PlainIsNeutral(text);
    case Str(text) => QuoteIsNeutral(text, lay);
    case Arr(items) =>
      ItemsAreNeutral(items, lay, depth);
      PlainIsNeutral("[");
      PlainIsNeutral("]");
      NeutralConcat("[", PrintItems(items, lay, depth));
      NeutralConcat("[" + PrintItems(items, lay, depth), "]");
    case Obj(members) =>
      MembersAreNeutral(members, lay, depth);
      BracedIsMinimal(PrintMembers(members, lay, depth));
  }

  lemma {:induction false} ItemsAreNeutral(items: seq<Json>, lay: Layout, depth: nat)
    requires GoodLayout(lay)
    ensures Neutral(PrintItems(items, lay, depth))
    decreases items, 1
  {
    if items == [] {
      PlainIsNeutral("");
    } else {
      PrintIsNeutral(items[0], lay, depth + 1);
      var head := lay.gap(depth + 1) + Print(items[0], lay, depth + 1);
      PlainIsNeutral(lay.gap(depth + 1));
      NeutralConcat(lay.gap(depth + 1), Print(items[0], lay, depth + 1));
      if |items| == 1 {
        PlainIsNeutral(lay.gap(depth));
        NeutralConcat(head, lay.gap(depth));
      } else {
        ItemsAreNeutral(items[1..], lay, depth);
        PlainIsNeutral(",");
        NeutralConcat(",", PrintItems(items[1..], lay, depth));
        NeutralConcat(head, "," + PrintItems(items[1..], lay, depth));
      }
    }
  }

  lemma {:induction false} MembersAreNeutral(members: seq<Member>, lay: Layout, depth: nat)
    requires GoodLayout(lay)
    ensures Neutral(PrintMembers(members, lay, depth))
    decreases members, 1
  {
    if members == [] {
      PlainIsNeutral("");
    } else {
      var m := members[0];
      PrintIsNeutral(m.value, lay, depth + 1);
      QuoteIsNeutral(m.key, lay);
      PlainIsNeutral(lay.gap(depth + 1));
      PlainIsNeutral(":" + lay.colon);
      NeutralConcat(lay.gap(depth + 1), Quote(m.key, lay));
      var head := lay.gap(depth + 1) + Quote(m.key, lay);
      NeutralConcat(head, ":" + lay.colon);
      NeutralConcat(head + (":" + lay.colon), Print(m.value, lay, depth + 1));
      head := head + (":" + lay.colon) + Print(m.value, lay, depth + 1);
      if |members| == 1 {
        PlainIsNeutral(lay.gap(depth));
        NeutralConcat(head, lay.gap(depth));
      } else {
        MembersAreNeutral(members[1..], lay, depth);
        PlainIsNeutral(",");
        NeutralConcat(",", PrintMembers(members[1..], lay, depth));
        NeutralConcat(head, "," + PrintMembers(members[1..], lay, depth));
      }
    }
  }

  // ---- Main result ----

  /** A prefix without quotation marks and opening braces leaves the scanner at top level. */
  lemma {:induction false} NoiseIsTop(a: string, k: nat)
    requires k <= |a| && forall i | 0 <= i < |a| :: a[i] != '"' && a[i] != '{'
    ensures After(a, k) == START
  {
    if k > 0 { NoiseIsTop(a, k - 1); }
  }

  /** JSON recovery: after any text without quotation marks and opening braces, the first candidate is
      exactly the printed object, whatever its strings contain and whatever follows it. */
  lemma PrintedObjectRecovered(noise: string, v: Json, lay: Layout, depth: nat, suffix: string)
    requires v.Obj? && GoodLayout(lay)
    requires forall i | 0 <= i < |noise| :: noise[i] != '"' && noise[i] != '{'
    ensures Candidates(noise + Print(v, lay, depth) + suffix) == [Print(v, lay, depth)] + Candidates(suffix)
  {
    hide After, MinimalObject, Neutral, PrintMembers, GoodLayout;
    NoiseIsTop(noise, |noise|);
    MembersAreNeutral(v.members, lay, depth);
    BracedIsMinimal(PrintMembers(v.members, lay, depth));
    ObjectRecovered(noise, Print(v, lay, depth), suffix);
    assert Candidates(noise) == [];
  }

  /** The spelling that section 7 of RFC 8259 requires: quotation marks, backslashes and control
      characters escaped, everything else as it is. */
  function RfcEscape(c: char): string {
    if c == '"' then "\\\""
    else if c == '\\' then "\\\\"
    else if c < ' ' then "\\u00" + [if c < '\U{10}' then '0' else '1'] + [HexDigit(c as int % 16)]
    else [c]
  }

  function HexDigit(d: nat): char
    requires d < 16
  {
    "0123456789abcdef"[d]
  }

  lemma RfcLayoutIsGood(gap: nat -> string, colon: string)
    requires Plain(colon) && forall d: nat :: Plain(gap(d))
    ensures GoodLayout(Layout(RfcEscape, gap, colon))
  {
    forall c: char ensures Body(RfcEscape(c)) {
      if c < ' ' && c != '"' && c != '\\' {
        var t := RfcEscape(c);
        assert t[2..] == "00" + [if c < '\U{10}' then '0' else '1'] + [HexDigit(c as int % 16)];
        HexDigits(c as int % 16);
        BodyOfPlain(t[2..]);
      }
    }
  }

  lemma HexDigits(d: nat)
    requires d < 16
    ensures HexDigit(d) != '"' && HexDigit(d) != '\\'
  {}

  lemma {:induction false} BodyOfPlain(t: string)
    requires forall i | 0 <= i < |t| :: t[i] != '"' && t[i] != '\\'
    ensures Body(t)
  {
    if t != "" { BodyOfPlain(t[1..]); }
  }
}
