/** Validating edited files and repairing the broken ones, strategy by strategy, a bounded number of times. */
module RetryLoop {
  import opened Text
  import opened LineStyle
  import opened PathRules
  import opened LineRepair

  const MAX_RETRY: nat := 4
  const BRIDGE: string := "persona_status_bridge.py"

  datatype ErrorClass =
    | LineContinuation | UnterminatedString | Indentation | UnclosedDelimiter | InvalidToken
    | InvalidSyntax | ImportError | NameError | AttributeError | Unknown

  /** What a validation reports: the text of the syntax error and of the compiler's stderr, and the
      line each of them names. */
  datatype Validation = Validation(ok: bool, astError: string, stderr: string, astLine: Option<int>, stderrLine: Option<int>)

  datatype Strategy = EscapesNormalized | BackslashRemoved | LineCommented | BridgeRebuilt

  /** The validator may answer differently at every call. `bridgeSource` is the generated file. */
  datatype Env = Env(validate: (nat, Path, string) -> Validation, bridgeSource: string)

  datatype Shop = Shop(files: map<Path, string>, calls: nat)

  datatype Record = Record(path: Path, attempt: nat, strategy: Strategy, before: Validation, after: Validation)

  function Classify(v: Validation): ErrorClass {
    var text := Lower(v.astError + "\n" + v.stderr);
    if Contains(text, "unexpected character after line continuation") then LineContinuation
    else if Contains(text, "unterminated string") || Contains(text, "eol while scanning string") then UnterminatedString
    else if Contains(text, "expected an indented block") || Contains(text, "indentationerror") then Indentation
    else if Contains(text, "was never closed") || Contains(text, "closing parenthesis") then UnclosedDelimiter
    else if Contains(text, "invalid decimal literal") then InvalidToken
    else if Contains(text, "invalid syntax") then InvalidSyntax
    else if Contains(text, "modulenotfounderror") || Contains(text, "importerror") then ImportError
    else if Contains(text, "nameerror") then NameError
    else if Contains(text, "attributeerror") then AttributeError
    else Unknown
  }

  function CompileLine(v: Validation): Option<int> { if v.astLine.Some? then v.astLine else v.stderrLine }

  predicate IsBridge(p: Path) { p != [] && Last(p) == BRIDGE }

  predicate IsPy(p: Path) { p != [] && Lower(Suffix(Last(p))) == ".py" }

  /** The strategies in order of preference; the generated bridge can always be rebuilt as a last resort. */
  function Candidates(c: ErrorClass, bridge: bool): (r: seq<Strategy>)
    ensures LineCommented in r
    ensures forall i, j | 0 <= i < j < |r| :: r[i] != r[j]
    ensures BridgeRebuilt in r <==> bridge
  {
    var fallback := if bridge then [BridgeRebuilt] else [];
    match c
    case LineContinuation => [BackslashRemoved, LineCommented, EscapesNormalized] + fallback
    case UnterminatedString => [LineCommented, EscapesNormalized] + fallback
    case Indentation => [LineCommented] + fallback
    case InvalidSyntax => [LineCommented, BackslashRemoved, EscapesNormalized] + fallback
    case _ => [EscapesNormalized, BackslashRemoved, LineCommented] + fallback
  }

  function ChooseRepairStrategies(v: Validation, p: Path): seq<Strategy> { Candidates(Classify(v), IsBridge(p)) }

  function FirstUnused(candidates: seq<Strategy>, used: set<Strategy>): (r: Option<Strategy>)
    ensures r.Some? ==> r.value in candidates && r.value !in used
    ensures r.None? ==> forall c | c in candidates :: c in used
  {
    if candidates == [] then None
    else if candidates[0] !in used then Some(candidates[0])
    else FirstUnused(candidates[1..], used)
  }

  /** The first candidate not used yet; commenting the failing line once all are used. */
  function PickStrategy(v: Validation, p: Path, used: set<Strategy>): (s: Strategy)
    ensures s in ChooseRepairStrategies(v, p)
    ensures s in used ==> s == LineCommented && forall c | c in ChooseRepairStrategies(v, p) :: c in used
  {
    match FirstUnused(ChooseRepairStrategies(v, p), used)
    case Some(s) => s
    case None => LineCommented
  }

  function Repaired(env: Env, p: Path, source: string, v: Validation, s: Strategy): string {
    match s
    case EscapesNormalized => NormalizeEscapes(source)
    case BackslashRemoved => RemoveLonelyBackslash(source)
    case LineCommented => CommentFailingLine(source, CompileLine(v))
    case BridgeRebuilt => if IsBridge(p) then env.bridgeSource else source
  }

  function RawText(files: map<Path, string>, p: Path): string { if p in files then files[p] else "" }

  /** Reading in text mode turns every line break into a line feed. */
  function ReadText(files: map<Path, string>, p: Path): string { Normalize(RawText(files, p)) }

  function ApplyRepairStrategy(env: Env, shop: Shop, p: Path, v: Validation, s: Strategy): (Shop, Validation) {
    var before := ReadText(shop.files, p);
    var after := Repaired(env, p, before, v, s);
    var files := if after != before then shop.files[p := after] else shop.files;
    (Shop(files, shop.calls + 1), env.validate(shop.calls, p, RawText(files, p)))
  }

  datatype PathRun = PathRun(shop: Shop, final: Validation, records: seq<Record>)

  /** The retry loop, from `attempts` on. */
  function Retry(env: Env, shop: Shop, p: Path, v: Validation, attempts: nat, used: set<Strategy>): PathRun
    decreases MAX_RETRY - attempts
  {
    if v.ok || attempts >= MAX_RETRY then PathRun(shop, v, [])
    else
      var s := PickStrategy(v, p, used);
      var (next, after) := ApplyRepairStrategy(env, shop, p, v, s);
      var rest := Retry(env, next, p, after, attempts + 1, used + {s});
      PathRun(rest.shop, rest.final, [Record(p, attempts + 1, s, v, after)] + rest.records)
  }

  /** One file: validate, retry, and rebuild the generated bridge when everything else failed. */
  function RunPath(env: Env, shop: Shop, p: Path): PathRun {
    if !IsPy(p) || p !in shop.files then PathRun(shop, Validation(true, "", "", None, None), [])
    else
      var v := env.validate(shop.calls, p, shop.files[p]);
      var r := Retry(env, shop.(calls := shop.calls + 1), p, v, 0, {});
      if r.final.ok || !IsBridge(p) then r
      else
        var (next, after) := ApplyRepairStrategy(env, r.shop, p, r.final, BridgeRebuilt);
        PathRun(next, after, r.records + [Record(p, |r.records| + 1, BridgeRebuilt, r.final, after)])
  }

  datatype Batch = Batch(shop: Shop, finals: seq<(Path, Validation)>, records: seq<Record>)

  /** The operations in order; a path seen before is passed over. */
  function RunAll(env: Env, shop: Shop, paths: seq<Path>): Batch {
    if paths == [] then Batch(shop, [], [])
    else
      var init, p := paths[..|paths| - 1], paths[|paths| - 1];
      var b := RunAll(env, shop, init);
      if p in init then b
      else
        var r := RunPath(env, b.shop, p);
        Batch(r.shop, b.finals + [(p, r.final)], b.records + r.records)
  }

  // ---- One file ----

  /** The records are numbered on from `at`, each starts from a failure, and each validation is the
      next one's starting point. */
  predicate Chained(p: Path, at: nat, first: Validation, records: seq<Record>, final: Validation) {
    && (forall i | 0 <= i < |records| :: Link(p, at, first, records, i))
    && final == if records == [] then first else records[|records| - 1].after
  }

  predicate Link(p: Path, at: nat, first: Validation, records: seq<Record>, i: nat)
    requires i < |records|
  {
    && records[i].path == p && records[i].attempt == at + i + 1 && !records[i].before.ok
    && records[i].before == if i == 0 then first else records[i - 1].after
  }

  lemma ChainCons(p: Path, at: nat, first: Validation, r: Record, rest: seq<Record>, final: Validation)
    requires r.path == p && r.attempt == at + 1 && r.before == first && !first.ok
    requires Chained(p, at + 1, r.after, rest, final)
    ensures Chained(p, at, first, [r] + rest, final)
  {
    var records := [r] + rest;
    forall i | 0 <= i < |records| ensures Link(p, at, first, records, i) {
      if i > 0 {
        assert records[i] == rest[i - 1] && Link(p, at + 1, r.after, rest, i - 1);
        assert i > 1 ==> records[i - 1] == rest[i - 2];
      }
    }
  }

  lemma ChainSnoc(p: Path, first: Validation, records: seq<Record>, mid: Validation, r: Record)
    requires Chained(p, 0, first, records, mid) && !mid.ok
    requires r.path == p && r.attempt == |records| + 1 && r.before == mid
    ensures Chained(p, 0, first, records + [r], r.after)
  {
    var all := records + [r];
    forall i | 0 <= i < |all| ensures Link(p, 0, first, all, i) {
      if i < |records| { assert Link(p, 0, first, records, i); }
      assert 0 < i <= |records| ==> all[i - 1] == records[i - 1];
    }
  }

  /** Only the text of file `p` may differ. */
  predicate OnlyAt(files: map<Path, string>, files': map<Path, string>, p: Path) {
    && files'.Keys == files.Keys
    && forall q | q in files && q != p :: files'[q] == files[q]
  }

  /** A run of the rest of the loop, put behind the records made so far. */
  function After(records: seq<Record>, rest: PathRun): PathRun {
    PathRun(rest.shop, rest.final, records + rest.records)
  }

  lemma RetryUnfold(env: Env, shop: Shop, p: Path, v: Validation, attempts: nat, used: set<Strategy>)
    requires !v.ok && attempts < MAX_RETRY
    ensures var s := PickStrategy(v, p, used);
            var step := ApplyRepairStrategy(env, shop, p, v, s);
            Retry(env, shop, p, v, attempts, used)
              == After([Record(p, attempts + 1, s, v, step.1)], Retry(env, step.0, p, step.1, attempts + 1, used + {s}))
  {
    hide PickStrategy, ApplyRepairStrategy;
  }

  lemma RetryNone(env: Env, shop: Shop, p: Path, v: Validation, attempts: nat, used: set<Strategy>)
    requires v.ok || attempts >= MAX_RETRY
    ensures Retry(env, shop, p, v, attempts, used) == PathRun(shop, v, [])
  {}

  lemma {:induction false} RetryRun(env: Env, shop: Shop, p: Path, v: Validation, attempts: nat, used: set<Strategy>)
    requires attempts <= MAX_RETRY && p in shop.files
    ensures var r := Retry(env, shop, p, v, attempts, used);
            && |r.records| <= MAX_RETRY - attempts
            && (r.final.ok || attempts + |r.records| == MAX_RETRY)
            && (v.ok ==> r.records == [] && r.shop == shop)
            && Chained(p, attempts, v, r.records, r.final)
            && OnlyAt(shop.files, r.shop.files, p) && p in r.shop.files
    decreases MAX_RETRY - attempts
  {
    hide PickStrategy, ApplyRepairStrategy, Chained, OnlyAt, Retry;
    if v.ok || attempts >= MAX_RETRY {
      RetryNone(env, shop, p, v, attempts, used);
      SameFiles(shop.files, p);
      EmptyChain(p, attempts, v);
    } else {
      RetryUnfold(env, shop, p, v, attempts, used);
      var s := PickStrategy(v, p, used);
      var (next, after) := ApplyRepairStrategy(env, shop, p, v, s);
      ApplyFrame(env, shop, p, v, s);
      RetryRun(env, next, p, after, attempts + 1, used + {s});
      var rest := Retry(env, next, p, after, attempts + 1, used + {s});
      ChainCons(p, attempts, v, Record(p, attempts + 1, s, v, after), rest.records, rest.final);
      OnlyAtBoth(shop.files, next.files, rest.shop.files, p);
    }
  }

  lemma SameFiles(files: map<Path, string>, p: Path)
    ensures OnlyAt(files, files, p)
  {}

  lemma OnlyAtBoth(a: map<Path, string>, b: map<Path, string>, c: map<Path, string>, p: Path)
    requires OnlyAt(a, b, p) && OnlyAt(b, c, p)
    ensures OnlyAt(a, c, p)
  {}

  /** One repair touches no file but its own. */
  lemma ApplyFrame(env: Env, shop: Shop, p: Path, v: Validation, s: Strategy)
    requires p in shop.files
    ensures var next := ApplyRepairStrategy(env, shop, p, v, s).0;
            OnlyAt(shop.files, next.files, p) && p in next.files
  {
    hide Repaired;
  }

  lemma ReadsClean(text: string)
    ensures '\r' !in Normalize(text)
    ensures '\r' !in text ==> Normalize(text) == text
  {
    NormalizeInOnePass(text);
    if '\r' !in text { OnePassPlain(text); }
  }

  lemma CommentedClean(source: string, n: Option<int>)
    requires '\r' !in source
    ensures '\r' !in CommentFailingLine(source, n)
  {
    hide SplitLines, Unbroken;
    var lines := SplitLines(source);
    SplitLinesShape(source);
    if n.Some? && 1 <= n.value <= |lines| {
      var i := n.value - 1;
      assert lines[i] in lines;
      CommentedUnbroken(lines[i]);
      OneLineChanged(lines, i, COMMENTED + lines[i]);
      JoinChars(lines[i := COMMENTED + lines[i]]);
    }
  }

  lemma RepairedReads(env: Env, shop: Shop, p: Path, v: Validation, s: Strategy)
    requires p in shop.files
    ensures var text := ReadText(shop.files, p);
            var next := ApplyRepairStrategy(env, shop, p, v, s).0;
            && ReadText(next.files, p) == Normalize(Repaired(env, p, text, v, s))
            && (Repaired(env, p, text, v, s) == text ==> next.files == shop.files)
  {
    hide Repaired, Normalize;
    ReadsClean(shop.files[p]);
    ReadsClean(ReadText(shop.files, p));
  }

  /** Commenting the failing line, on the file: the line that the parser names, or else the compiler, gets the
      comment mark in front and every other line reads as before; when neither names a line of the file, the file
      is not touched. */
  lemma FailingLineIsCommented(env: Env, shop: Shop, p: Path, v: Validation)
    requires p in shop.files
    ensures var lines := SplitLines(ReadText(shop.files, p));
            var n := if v.astLine.Some? then v.astLine else v.stderrLine;
            var next := ApplyRepairStrategy(env, shop, p, v, LineCommented).0;
            var after := SplitLines(ReadText(next.files, p));
            if n.Some? && 1 <= n.value <= |lines| then
              && |after| == |lines|
              && forall i | 0 <= i < |lines| :: after[i] == if i + 1 == n.value then COMMENTED + lines[i] else lines[i]
            else next.files == shop.files
  {
    hide SplitLines, Normalize, CommentFailingLine, ApplyRepairStrategy;
    var text := ReadText(shop.files, p);
    RepairedReads(env, shop, p, v, LineCommented);
    ReadsClean(shop.files[p]);
    CommentMeans(text, CompileLine(v));
    CommentedClean(text, CompileLine(v));
    ReadsClean(CommentFailingLine(text, CompileLine(v)));
  }

  /** What the other strategies do to the file: unescaping deletes backslashes and nothing else, removing touches
      exactly the lonely backslashes, and rebuilding writes the generated source, on the bridge only. */
  lemma OtherRepairs(env: Env, shop: Shop, p: Path, v: Validation)
    requires p in shop.files
    ensures var text := ReadText(shop.files, p);
            var escapes := ApplyRepairStrategy(env, shop, p, v, EscapesNormalized).0.files;
            var lonely := ApplyRepairStrategy(env, shop, p, v, BackslashRemoved).0.files;
            var bridge := ApplyRepairStrategy(env, shop, p, v, BridgeRebuilt).0.files;
            && WithoutBackslashes(ReadText(escapes, p)) == WithoutBackslashes(text)
            && (ReadText(escapes, p) == text <==> !Contains(text, "\\\"\"\"") && !Contains(text, "\\'''"))
            && SplitLines(ReadText(lonely, p)) == CleanedAll(SplitLines(text))
            && ReadText(bridge, p) == (if p != [] && Last(p) == BRIDGE then Normalize(env.bridgeSource) else text)
  {
    hide SplitLines, Normalize, CleanedAll, RemoveLonelyBackslash, NormalizeEscapes, ApplyRepairStrategy, WithoutBackslashes, Contains;
    var text := ReadText(shop.files, p);
    ReadsClean(shop.files[p]);
    ReadsClean(text);
    RepairedReads(env, shop, p, v, EscapesNormalized);
    RepairedReads(env, shop, p, v, BackslashRemoved);
    RepairedReads(env, shop, p, v, BridgeRebuilt);
    UnescapeMeans(text);
    UnescapedClean(text);
    ReadsClean(NormalizeEscapes(text));
    RemoveLonelyKeepsLines(text);
    RemovedClean(text);
    ReadsClean(RemoveLonelyBackslash(text));
  }

  lemma RemovedClean(source: string)
    requires '\r' !in source
    ensures '\r' !in RemoveLonelyBackslash(source)
  {
    hide SplitLines, Unbroken, HasLonely;
    var lines := SplitLines(source);
    SplitLinesShape(source);
    CleanedNoBreaks(lines);
    JoinChars(CleanedAll(lines));
  }

  lemma {:induction false} ReplacedClean(s: string, pat: string, rep: string, c: char)
    requires pat != "" && c !in s && c !in rep
    ensures c !in ReplaceAll(s, pat, rep)
  {
    if s != "" {
      if pat <= s { ReplacedClean(s[|pat|..], pat, rep, c); } else { ReplacedClean(s[1..], pat, rep, c); }
    }
  }

  lemma UnescapedClean(source: string)
    requires '\r' !in source
    ensures '\r' !in NormalizeEscapes(source)
  {
    var triple := "\"\"\"";
    ReplacedClean(source, "\\\"\"\"", triple, '\r');
    ReplacedClean(ReplaceAll(source, "\\\"\"\"", triple), "\\'''", "'''", '\r');
  }

  /** Every repair is followed by a validation of the file as it then stands. */
  lemma RepairIsValidated(env: Env, shop: Shop, p: Path, v: Validation, s: Strategy)
    requires p in shop.files
    ensures var (next, verdict) := ApplyRepairStrategy(env, shop, p, v, s);
            && p in next.files && verdict == env.validate(shop.calls, p, next.files[p]) && next.calls == shop.calls + 1
  {
    hide Repaired, Normalize;
  }

  // ---- The classes of errors, and the order of the strategies ----

  /** The messages that name a class, the more specific ones first. */
  const MESSAGES: seq<(string, ErrorClass)> :=
    [("unexpected character after line continuation", LineContinuation),
     ("unterminated string", UnterminatedString), ("eol while scanning string", UnterminatedString),
     ("expected an indented block", Indentation), ("indentationerror", Indentation),
     ("was never closed", UnclosedDelimiter), ("closing parenthesis", UnclosedDelimiter),
     ("invalid decimal literal", InvalidToken), ("invalid syntax", InvalidSyntax),
     ("modulenotfounderror", ImportError), ("importerror", ImportError),
     ("nameerror", NameError), ("attributeerror", AttributeError)]

  /** Message `j` stands in the syntax error or in the compiler's output, in upper or lower case. */
  predicate Says(v: Validation, j: nat)
    requires j < |MESSAGES|
  {
    Contains(Lower(v.astError), MESSAGES[j].0) || Contains(Lower(v.stderr), MESSAGES[j].0)
  }

  lemma {:induction false} LowerConcat(a: string, b: string)
    ensures Lower(a + b) == Lower(a) + Lower(b)
  {
    if a == "" {
      assert a + b == b;
    } else {
      assert (a + b)[1..] == a[1..] + b;
      LowerConcat(a[1..], b);
    }
  }

  /** A pattern without a line break stands on one side of it. */
  lemma {:induction false} ContainsEither(a: string, b: string, pat: string)
    requires pat != "" && '\n' !in pat
    ensures Contains(a + "\n" + b, pat) <==> Contains(a, pat) || Contains(b, pat)
  {
    var s := a + "\n" + b;
    PrefixBefore(a, b, pat);
    if a == "" {
      assert s[1..] == b;
    } else {
      assert s[1..] == a[1..] + "\n" + b;
      ContainsEither(a[1..], b, pat);
    }
  }

  lemma PrefixBefore(a: string, b: string, pat: string)
    requires pat != "" && '\n' !in pat
    ensures pat <= a + "\n" + b <==> pat <= a
  {
    var s := a + "\n" + b;
    assert s[|a|] == '\n';
    if |a| < |pat| {
      assert pat[|a|] in pat;
    } else {
      assert s[..|pat|] == a[..|pat|];
    }
  }

  lemma SaysEither(v: Validation)
    ensures forall j | 0 <= j < |MESSAGES| ::
              Contains(Lower(v.astError + "\n" + v.stderr), MESSAGES[j].0) <==> Says(v, j)
  {
    hide Contains, Lower;
    var a, b := Lower(v.astError), Lower(v.stderr);
    LowerConcat(v.astError + "\n", v.stderr);
    LowerConcat(v.astError, "\n");
    LowerBreak();
    assert Lower(v.astError + "\n" + v.stderr) == a + "\n" + b;
    forall j | 0 <= j < |MESSAGES| ensures Contains(a + "\n" + b, MESSAGES[j].0) <==> Says(v, j) {
      MessageIsOneLine(j);
      ContainsEither(a, b, MESSAGES[j].0);
    }
  }

  lemma LowerBreak()
    ensures Lower("\n") == "\n"
  {}

  lemma MessageIsOneLine(j: nat)
    requires j < |MESSAGES|
    ensures MESSAGES[j].0 != "" && '\n' !in MESSAGES[j].0
  {
    if j < 3 { FirstMessages(j); } else if j < 6 { MoreMessages(j); } else { LastMessages(j); }
  }

  lemma FirstMessages(j: nat)
    requires j < 3
    ensures MESSAGES[j].0 != "" && '\n' !in MESSAGES[j].0
  {}

  lemma MoreMessages(j: nat)
    requires 3 <= j < 6
    ensures MESSAGES[j].0 != "" && '\n' !in MESSAGES[j].0
  {}

  lemma LastMessages(j: nat)
    requires 6 <= j < |MESSAGES|
    ensures MESSAGES[j].0 != "" && '\n' !in MESSAGES[j].0
  {}

  /** The class of an error is that of the first message in the list that stands in either text, in upper or lower
      case, and unknown when none does. */
  lemma ClassifyMeans(v: Validation)
    ensures forall j | 0 <= j < |MESSAGES| && Says(v, j) && (forall i | 0 <= i < j :: !Says(v, i)) ::
              Classify(v) == MESSAGES[j].1
    ensures (forall i | 0 <= i < |MESSAGES| :: !Says(v, i)) ==> Classify(v) == Unknown
  {
    hide Contains, Lower, Says;
    SaysEither(v);
    var text := Lower(v.astError + "\n" + v.stderr);
    assert Says(v, 0) <==> Contains(text, "unexpected character after line continuation");
    assert Says(v, 1) <==> Contains(text, "unterminated string");
    assert Says(v, 2) <==> Contains(text, "eol while scanning string");
    assert Says(v, 3) <==> Contains(text, "expected an indented block");
    assert Says(v, 4) <==> Contains(text, "indentationerror");
    assert Says(v, 5) <==> Contains(text, "was never closed");
    assert Says(v, 6) <==> Contains(text, "closing parenthesis");
    assert Says(v, 7) <==> Contains(text, "invalid decimal literal");
    assert Says(v, 8) <==> Contains(text, "invalid syntax");
    assert Says(v, 9) <==> Contains(text, "modulenotfounderror");
    assert Says(v, 10) <==> Contains(text, "importerror");
    assert Says(v, 11) <==> Contains(text, "nameerror");
    assert Says(v, 12) <==> Contains(text, "attributeerror");
  }

  lemma {:induction false} FirstOfRest(candidates: seq<Strategy>, used: set<Strategy>, i: nat)
    requires i < |candidates| && candidates[i] !in used && forall j | 0 <= j < i :: candidates[j] in used
    ensures FirstUnused(candidates, used) == Some(candidates[i])
  {
    if i > 0 {
      assert candidates[1..][i - 1] == candidates[i];
      forall j | 0 <= j < i - 1 ensures candidates[1..][j] in used { assert candidates[1..][j] == candidates[j + 1]; }
      FirstOfRest(candidates[1..], used, i - 1);
    }
  }

  /** Strategies are tried in the order of preference of the error's class. */
  lemma PickedInOrder(v: Validation, p: Path, used: set<Strategy>, i: nat)
    requires var c := ChooseRepairStrategies(v, p);
             i < |c| && c[i] !in used && forall j | 0 <= j < i :: c[j] in used
    ensures PickStrategy(v, p, used) == ChooseRepairStrategies(v, p)[i]
  {
    hide ChooseRepairStrategies;
    FirstOfRest(ChooseRepairStrategies(v, p), used, i);
  }

  /** The first strategy for each class: removing backslashes for a line continuation, commenting the line for a
      string, an indentation or the syntax, unescaping for everything else; and the bridge's rebuild comes last. */
  lemma FirstStrategy(v: Validation, p: Path)
    ensures var c, s := Classify(v), PickStrategy(v, p, {});
            && (s == BackslashRemoved <==> c == LineContinuation)
            && (s == LineCommented <==> c in {UnterminatedString, Indentation, InvalidSyntax})
            && (s == EscapesNormalized <==> c in {UnclosedDelimiter, InvalidToken, ImportError, NameError, AttributeError, Unknown})
    ensures var all := ChooseRepairStrategies(v, p);
            forall i | 0 <= i < |all| :: all[i] == BridgeRebuilt <==> IsBridge(p) && i == |all| - 1
  {
    hide Classify, IsBridge;
  }

  lemma EmptyChain(p: Path, at: nat, v: Validation)
    ensures Chained(p, at, v, [], v)
  {}

  /** Record `i` uses a strategy anew, or comments the failing line with every candidate spent. */
  predicate Fresh(p: Path, used: set<Strategy>, r: seq<Record>, i: nat)
    requires i < |r|
  {
    var spent := used + UsedBy(r[..i]);
    r[i].strategy in spent ==>
      r[i].strategy == LineCommented && forall c | c in ChooseRepairStrategies(r[i].before, p) :: c in spent
  }

  lemma FreshFirst(p: Path, used: set<Strategy>, r: seq<Record>)
    requires r != [] && r[0].strategy == PickStrategy(r[0].before, p, used)
    ensures Fresh(p, used, r, 0)
  {
    hide PickStrategy, ChooseRepairStrategies;
    assert r[..0] == [];
  }

  lemma FreshCons(p: Path, used: set<Strategy>, r: Record, rest: seq<Record>, i: nat)
    requires i < |rest| && Fresh(p, used + {r.strategy}, rest, i)
    ensures Fresh(p, used, [r] + rest, i + 1)
  {
    hide ChooseRepairStrategies;
    assert ([r] + rest)[..i + 1] == [r] + rest[..i];
    UsedByCons(r, rest[..i]);
  }

  /** A strategy comes back only when it is commenting the failing line and every candidate is spent. */
  lemma {:induction false} NoStrategyTwice(env: Env, shop: Shop, p: Path, v: Validation, attempts: nat, used: set<Strategy>)
    ensures var r := Retry(env, shop, p, v, attempts, used).records;
            forall i | 0 <= i < |r| :: Fresh(p, used, r, i)
    decreases MAX_RETRY - attempts
  {
    hide Retry, Fresh, PickStrategy, ApplyRepairStrategy;
    if v.ok || attempts >= MAX_RETRY {
      RetryNone(env, shop, p, v, attempts, used);
    } else {
      RetryUnfold(env, shop, p, v, attempts, used);
      var s := PickStrategy(v, p, used);
      var step := ApplyRepairStrategy(env, shop, p, v, s);
      NoStrategyTwice(env, step.0, p, step.1, attempts + 1, used + {s});
      var first := Record(p, attempts + 1, s, v, step.1);
      var rest := Retry(env, step.0, p, step.1, attempts + 1, used + {s}).records;
      FreshFirst(p, used, [first] + rest);
      forall i | 0 < i <= |rest| ensures Fresh(p, used, [first] + rest, i) { FreshCons(p, used, first, rest, i - 1); }
    }
  }

  function UsedBy(records: seq<Record>): set<Strategy> {
    if records == [] then {} else {records[0].strategy} + UsedBy(records[1..])
  }

  lemma UsedByCons(r: Record, rest: seq<Record>)
    ensures UsedBy([r] + rest) == {r.strategy} + UsedBy(rest)
  {
    assert ([r] + rest)[1..] == rest;
  }

  /** The first validation of an operation; files that are not Python, or not there, count as valid. */
  function FirstValidation(env: Env, shop: Shop, p: Path): Validation {
    if IsPy(p) && p in shop.files then env.validate(shop.calls, p, shop.files[p])
    else Validation(true, "", "", None, None)
  }

  /** What running one file does: at most MAX_RETRY repairs, one more for the bridge; a file that is
      valid at first is never rewritten; no other file changes; and the records form a chain. */
  lemma PathRunShape(env: Env, shop: Shop, p: Path)
    ensures var r := RunPath(env, shop, p);
            && |r.records| <= MAX_RETRY + (if IsBridge(p) then 1 else 0)
            && Chained(p, 0, FirstValidation(env, shop, p), r.records, r.final)
            && (FirstValidation(env, shop, p).ok ==> r.records == [] && r.shop.files == shop.files)
            && (!r.final.ok && !IsBridge(p) ==> |r.records| == MAX_RETRY)
            && OnlyAt(shop.files, r.shop.files, p)
  {
    hide ApplyRepairStrategy, Chained, IsPy, IsBridge, OnlyAt, Retry;
    SameFiles(shop.files, p);
    var v := FirstValidation(env, shop, p);
    EmptyChain(p, 0, v);
    if IsPy(p) && p in shop.files {
      RetryRun(env, shop.(calls := shop.calls + 1), p, v, 0, {});
      var r := Retry(env, shop.(calls := shop.calls + 1), p, v, 0, {});
      if !r.final.ok && IsBridge(p) {
        var (next, after) := ApplyRepairStrategy(env, r.shop, p, r.final, BridgeRebuilt);
        ApplyFrame(env, r.shop, p, r.final, BridgeRebuilt);
        OnlyAtBoth(shop.files, r.shop.files, next.files, p);
        ChainSnoc(p, v, r.records, r.final, Record(p, |r.records| + 1, BridgeRebuilt, r.final, after));
      }
    }
  }

  /** What is no Python file, and what is not there, counts as valid without being validated or touched. */
  lemma SkippedPath(env: Env, shop: Shop, p: Path)
    requires p == [] || Lower(Suffix(Last(p))) != ".py" || p !in shop.files
    ensures var r := RunPath(env, shop, p); r.final.ok && r.records == [] && r.shop == shop
  {}

  /** The generated bridge always ends valid when its generated source always validates, in whatever style of
      line breaks: a file that already reads as that source is not rewritten. */
  lemma BridgeEndsValid(env: Env, shop: Shop, p: Path)
    requires IsBridge(p)
    requires forall n: nat, text: string | text == env.bridgeSource || Normalize(text) == env.bridgeSource ::
               env.validate(n, p, text).ok
    ensures RunPath(env, shop, p).final.ok
  {
    hide Retry, IsPy, IsBridge, Normalize;
    if IsPy(p) && p in shop.files {
      var r := Retry(env, shop.(calls := shop.calls + 1), p, env.validate(shop.calls, p, shop.files[p]), 0, {});
      RebuildIsValid(env, r.shop, p, r.final);
    }
  }

  lemma RebuildIsValid(env: Env, shop: Shop, p: Path, v: Validation)
    requires IsBridge(p)
    requires forall n: nat, text: string | text == env.bridgeSource || Normalize(text) == env.bridgeSource ::
               env.validate(n, p, text).ok
    ensures ApplyRepairStrategy(env, shop, p, v, BridgeRebuilt).1.ok
  {
    hide IsBridge, Normalize;
  }

  /** The injected fault, end to end: when the validator finds a line continuation in the faulty file and
      accepts the repaired one, one repair restores the generated content, one comment line behind it. */
  lemma InjectedFaultIsRepaired(env: Env, shop: Shop, p: Path, content: string)
    requires IsPy(p) && p in shop.files && shop.files[p] == InjectFault(content)
    requires !HasLonely(SplitLines(content))
    requires var v := env.validate(shop.calls, p, shop.files[p]); !v.ok && Classify(v) == LineContinuation
    requires env.validate(shop.calls + 1, p, Restored(content)).ok
    ensures var r := RunPath(env, shop, p);
            && r.final.ok && |r.records| == 1 && r.records[0].strategy == BackslashRemoved
            && r.shop.files == shop.files[p := Restored(content)]
  {
    hide Classify, IsPy, IsBridge, InjectFault, RemoveLonelyBackslash, Restored, HasLonely, SplitLines, Retry, PickStrategy, Normalize;
    var v := env.validate(shop.calls, p, shop.files[p]);
    var ready := shop.(calls := shop.calls + 1);
    FirstForContinuation(v, p);
    FaultIsRestored(content);
    RetryUnfold(env, ready, p, v, 0, {});
    var step := ApplyRepairStrategy(env, ready, p, v, BackslashRemoved);
    assert step.1.ok;
    RetryNone(env, step.0, p, step.1, 1, {} + {BackslashRemoved});
  }

  function Restored(content: string): string { Normalize(RStrip(content, IsSpace)) + LF + REMOVED + LF }

  lemma FaultIsRestored(content: string)
    requires !HasLonely(SplitLines(content))
    ensures RemoveLonelyBackslash(Normalize(InjectFault(content))) == Restored(content) != Normalize(InjectFault(content))
  {
    hide RemoveLonelyBackslash, InjectFault, RStrip, HasLonely, SplitLines, OnePass;
    FaultIsUndone(content);
    NormalizeInOnePass(InjectFault(content));
    FaultIsSame(content);
  }

  lemma FirstForContinuation(v: Validation, p: Path)
    requires Classify(v) == LineContinuation
    ensures PickStrategy(v, p, {}) == BackslashRemoved
  {
    hide Classify, IsBridge;
  }

  // ---- The whole batch ----

  function RecordsOf(records: seq<Record>, p: Path): nat {
    if records == [] then 0
    else RecordsOf(records[..|records| - 1], p) + if records[|records| - 1].path == p then 1 else 0
  }

  lemma {:induction false} RecordsAppend(a: seq<Record>, b: seq<Record>, p: Path)
    ensures RecordsOf(a + b, p) == RecordsOf(a, p) + RecordsOf(b, p)
  {
    if b == [] {
      assert a + b == a;
    } else {
      assert (a + b)[..|a + b| - 1] == a + b[..|b| - 1];
      RecordsAppend(a, b[..|b| - 1], p);
    }
  }

  lemma {:induction false} RecordsSame(records: seq<Record>, p: Path, q: Path)
    requires forall i | 0 <= i < |records| :: records[i].path == p
    ensures RecordsOf(records, q) == if q == p then |records| else 0
  {
    if records != [] { RecordsSame(records[..|records| - 1], p, q); }
  }

  /** The state in which a path is processed: after everything before its first occurrence. */
  function ShopAt(env: Env, shop: Shop, paths: seq<Path>, p: Path): Shop {
    if paths == [] then shop
    else if p in paths[..|paths| - 1] then ShopAt(env, shop, paths[..|paths| - 1], p)
    else RunAll(env, shop, paths[..|paths| - 1]).shop
  }

  /** For every validator: a processed path has the final validation of its own run and the records of
      that run, at most MAX_RETRY, or one more for the bridge; it was processed with the text it had at
      first. A path that was never an operation keeps its text and has no records. */
  lemma {:induction false} BatchPath(env: Env, shop: Shop, paths: seq<Path>, p: Path)
    ensures var b := RunAll(env, shop, paths);
            var at := ShopAt(env, shop, paths, p);
            var r := RunPath(env, at, p);
            && SameText(at.files, shop.files, p)
            && if p in paths then
                 && (p, r.final) in b.finals
                 && RecordsOf(b.records, p) == |r.records|
                 && |r.records| <= MAX_RETRY + (if IsBridge(p) then 1 else 0)
                 && SameText(b.shop.files, r.shop.files, p)
               else
                 && RecordsOf(b.records, p) == 0
                 && SameText(b.shop.files, shop.files, p)
  {
    hide RunPath, Chained, IsBridge;
    if paths != [] {
      var init, q := paths[..|paths| - 1], paths[|paths| - 1];
      assert paths == init + [q];
      BatchPath(env, shop, init, p);
      var b := RunAll(env, shop, init);
      if q !in init {
        PathRunShape(env, b.shop, q);
        var r := RunPath(env, b.shop, q);
        RecordsAppend(b.records, r.records, p);
        ChainPaths(env, b.shop, q);
        RecordsSame(r.records, q, p);
        assert (b.finals + [(q, r.final)])[|b.finals|] == (q, r.final);
      }
    }
  }

  /** The two maps agree on file `p`. */
  predicate SameText(a: map<Path, string>, b: map<Path, string>, p: Path) {
    (p in a <==> p in b) && (p in a ==> a[p] == b[p])
  }

  /** Each processed path has exactly one final validation. */
  lemma {:induction false} OneFinalEach(env: Env, shop: Shop, paths: seq<Path>)
    ensures var b := RunAll(env, shop, paths);
            && (forall q :: InFinals(b.finals, q) <==> q in paths)
            && (forall i, j | 0 <= i < j < |b.finals| :: b.finals[i].0 != b.finals[j].0)
  {
    hide RunPath;
    if paths != [] {
      var init, p := paths[..|paths| - 1], paths[|paths| - 1];
      assert paths == init + [p];
      OneFinalEach(env, shop, init);
      var b := RunAll(env, shop, init);
      if p !in init {
        FinalsGrow(b.finals, (p, RunPath(env, b.shop, p).final), init);
      }
    }
  }

  ghost predicate InFinals(finals: seq<(Path, Validation)>, p: Path) {
    exists i | 0 <= i < |finals| :: finals[i].0 == p
  }

  lemma FinalsGrow(finals: seq<(Path, Validation)>, last: (Path, Validation), init: seq<Path>)
    requires forall q :: InFinals(finals, q) <==> q in init
    requires last.0 !in init
    ensures var all := finals + [last];
            && (forall q :: InFinals(all, q) <==> q in init || q == last.0)
            && (forall i | 0 <= i < |finals| :: all[i].0 != last.0)
  {
    var all := finals + [last];
    assert all[|finals|] == last;
    forall i | 0 <= i < |finals| ensures all[i].0 != last.0 { assert finals[i].0 == all[i].0 && InFinals(finals, finals[i].0); }
    forall q ensures InFinals(all, q) <==> q in init || q == last.0 {
      if InFinals(all, q) {
        var i :| 0 <= i < |all| && all[i].0 == q;
        if i < |finals| { assert finals[i].0 == q; }
      }
      if q in init {
        var i :| 0 <= i < |finals| && finals[i].0 == q;
        assert all[i].0 == q;
      }
    }
  }

  lemma ChainPaths(env: Env, shop: Shop, p: Path)
    ensures forall i | 0 <= i < |RunPath(env, shop, p).records| :: RunPath(env, shop, p).records[i].path == p
  {
    hide RunPath, FirstValidation, IsBridge, OnlyAt;
    PathRunShape(env, shop, p);
    var r := RunPath(env, shop, p);
    forall i | 0 <= i < |r.records| ensures r.records[i].path == p {
      assert Link(p, 0, FirstValidation(env, shop, p), r.records, i);
    }
  }

  // ---- The loop in the form of its source ----

  lemma AfterBoth(a: seq<Record>, b: seq<Record>, rest: PathRun)
    ensures After(a, After(b, rest)) == After(a + b, rest)
  {
    assert a + (b + rest.records) == (a + b) + rest.records;
  }

  lemma RetryStep(env: Env, shop: Shop, p: Path, v: Validation, records: seq<Record>, used: set<Strategy>)
    requires !v.ok && |records| < MAX_RETRY
    ensures var s := PickStrategy(v, p, used);
            var step := ApplyRepairStrategy(env, shop, p, v, s);
            var all := records + [Record(p, |records| + 1, s, v, step.1)];
            After(records, Retry(env, shop, p, v, |records|, used))
              == After(all, Retry(env, step.0, p, step.1, |all|, used + {s}))
  {
    hide PickStrategy, ApplyRepairStrategy, Retry, After;
    var s := PickStrategy(v, p, used);
    var step := ApplyRepairStrategy(env, shop, p, v, s);
    RetryUnfold(env, shop, p, v, |records|, used);
    AfterBoth(records, [Record(p, |records| + 1, s, v, step.1)], Retry(env, step.0, p, step.1, |records| + 1, used + {s}));
  }

  lemma RetryEnd(env: Env, shop: Shop, p: Path, v: Validation, records: seq<Record>, used: set<Strategy>)
    requires v.ok || |records| >= MAX_RETRY
    ensures After(records, Retry(env, shop, p, v, |records|, used)) == PathRun(shop, v, records)
  {
    assert records + [] == records;
  }

  lemma RetryStart(r: PathRun)
    ensures After([], r) == r
  {
    assert [] + r.records == r.records;
  }

  lemma PathsSnoc(ops: seq<EditOperation>, k: nat)
    requires k < |ops|
    ensures Paths(ops[..k + 1]) == Paths(ops[..k]) + [ops[k].path]
  {
    assert ops[..k + 1][..k] == ops[..k];
  }

  lemma RunAllSnoc(env: Env, shop: Shop, paths: seq<Path>, p: Path)
    ensures RunAll(env, shop, paths + [p]) == RunOne(env, RunAll(env, shop, paths), paths, p)
  {
    hide RunPath;
    assert (paths + [p])[..|paths|] == paths;
  }

  function RunOne(env: Env, b: Batch, before: seq<Path>, p: Path): Batch {
    if p in before then b
    else
      var r := RunPath(env, b.shop, p);
      Batch(r.shop, b.finals + [(p, r.final)], b.records + r.records)
  }

  /** An operation afterwards: as it was when an earlier operation has its path; else its file's final
      validation, and as many retries as records, the old count standing when there are none. */
  function OpAfter(env: Env, shop: Shop, before: seq<Path>, p: Path, was: (Option<Validation>, nat)): (Option<Validation>, nat) {
    if p in before then was
    else
      var r := RunPath(env, RunAll(env, shop, before).shop, p);
      (Some(r.final), if r.records == [] then was.1 else |r.records|)
  }

  class EditOperation {
    const path: Path
    var validation: Option<Validation>
    var retries: nat

    constructor (path: Path)
      ensures this.path == path && validation == None && retries == 0
    {
      this.path := path;
      validation := None;
      retries := 0;
    }

    ghost function Outcome(): (Option<Validation>, nat)
      reads this
    {
      (validation, retries)
    }
  }

  function Paths(ops: seq<EditOperation>): (r: seq<Path>)
    ensures |r| == |ops| && forall i | 0 <= i < |r| :: r[i] == ops[i].path
  {
    if ops == [] then [] else Paths(ops[..|ops| - 1]) + [ops[|ops| - 1].path]
  }

  function Failed(finals: seq<(Path, Validation)>): (r: seq<(Path, Validation)>)
    ensures forall f :: f in r <==> f in finals && !f.1.ok
  {
    if finals == [] then []
    else
      var last := finals[|finals| - 1];
      Failed(finals[..|finals| - 1]) + if last.1.ok then [] else [last]
  }

  lemma {:induction false} FailedAppend(a: seq<(Path, Validation)>, b: seq<(Path, Validation)>)
    ensures Failed(a + b) == Failed(a) + Failed(b)
  {
    if b == [] {
      assert a + b == a && Failed(a) + [] == Failed(a);
    } else {
      var init, last := b[..|b| - 1], b[|b| - 1];
      assert (a + b)[..|a + b| - 1] == a + init && (a + b)[|a + b| - 1] == last;
      FailedAppend(a, init);
      var tail := if last.1.ok then [] else [last];
      assert Failed(a) + (Failed(init) + tail) == (Failed(a) + Failed(init)) + tail;
    }
  }

  /** The failures stand in the order of the final validations, each as often as there. */
  lemma FailedInOrder(finals: seq<(Path, Validation)>, i: nat)
    requires i < |finals|
    ensures Failed(finals) == Failed(finals[..i]) + (if finals[i].1.ok then [] else [finals[i]]) + Failed(finals[i + 1..])
  {
    hide Failed;
    var a, b := finals[..i] + [finals[i]], finals[i + 1..];
    CutAround(finals, i);
    FailedAppend(a, b);
    FailedAppend(finals[..i], [finals[i]]);
    FailedOne(finals[i]);
  }

  lemma CutAround(finals: seq<(Path, Validation)>, i: nat)
    requires i < |finals|
    ensures finals == finals[..i] + [finals[i]] + finals[i + 1..]
  {}

  lemma FailedOne(final: (Path, Validation))
    ensures Failed([final]) == if final.1.ok then [] else [final]
  {
    assert [final][..0] == [];
  }

  /** An operation whose path an earlier one has is left alone, and one whose file needs no repair keeps its count. */
  lemma OthersStay(env: Env, shop: Shop, before: seq<Path>, p: Path, was: (Option<Validation>, nat))
    ensures p in before ==> OpAfter(env, shop, before, p, was) == was
    ensures p !in before && RunPath(env, RunAll(env, shop, before).shop, p).records == [] ==>
              OpAfter(env, shop, before, p, was).1 == was.1
  {}

  /** The retry count of an operation whose path comes first there, and which had none yet, is the number of
      records for its path over the whole batch; its validation is the one listed for its path. */
  lemma RetriesAreRecords(env: Env, shop: Shop, paths: seq<Path>, i: nat, was: Option<Validation>)
    requires i < |paths| && paths[i] !in paths[..i]
    ensures var b := RunAll(env, shop, paths);
            var (validation, retries) := OpAfter(env, shop, paths[..i], paths[i], (was, 0));
            && retries == RecordsOf(b.records, paths[i])
            && validation.Some? && (paths[i], validation.value) in b.finals
  {
    hide RunPath, RunAll;
    BatchPath(env, shop, paths, paths[i]);
    FirstShop(env, shop, paths, i);
  }

  lemma {:induction false} FirstShop(env: Env, shop: Shop, paths: seq<Path>, i: nat)
    requires i < |paths| && paths[i] !in paths[..i]
    ensures ShopAt(env, shop, paths, paths[i]) == RunAll(env, shop, paths[..i]).shop
  {
    hide RunAll;
    var init := paths[..|paths| - 1];
    if i < |paths| - 1 {
      assert init[i] == paths[i] && init[..i] == paths[..i];
      FirstShop(env, shop, init, i);
    }
  }

  class Executor {
    var files: map<Path, string>
    var calls: nat

    constructor (files: map<Path, string>)
      ensures this.files == files && calls == 0
    {
      this.files := files;
      calls := 0;
    }

    ghost function State(): Shop
      reads this
    {
      Shop(files, calls)
    }

    method ApplyStrategy(env: Env, p: Path, v: Validation, s: Strategy) returns (after: Validation)
      modifies this
      ensures (State(), after) == ApplyRepairStrategy(env, old(State()), p, v, s)
    {
      hide Repaired;
      var before := ReadText(files, p);
      var text := Repaired(env, p, before, v, s);
      if text != before { files := files[p := text]; }
      after := env.validate(calls, p, RawText(files, p));
      calls := calls + 1;
    }

    /** One operation: its file's run, recorded in the operation. */
    method RepairFile(env: Env, op: EditOperation) returns (final: Validation, records: seq<Record>)
      modifies this, op`validation, op`retries
      ensures PathRun(State(), final, records) == RunPath(env, old(State()), op.path)
      ensures op.Outcome() == (Some(final), if records == [] then old(op.retries) else |records|)
    {
      hide ApplyRepairStrategy, IsPy, PickStrategy, IsBridge, Retry, After;
      var p := op.path;
      records := [];
      if !IsPy(p) || p !in files {
        final := Validation(true, "", "", None, None);
        op.validation := Some(final);
        return;
      }
      final := env.validate(calls, p, files[p]);
      calls := calls + 1;
      var used: set<Strategy> := {};
      ghost var whole := Retry(env, State(), p, final, 0, {});
      RetryStart(whole);
      while !final.ok && |records| < MAX_RETRY
        invariant |records| <= MAX_RETRY
        invariant op.retries == if records == [] then old(op.retries) else |records|
        invariant whole == After(records, Retry(env, State(), p, final, |records|, used))
        decreases MAX_RETRY - |records|
      {
        RetryStep(env, State(), p, final, records, used);
        var s := PickStrategy(final, p, used);
        used := used + {s};
        var after := ApplyStrategy(env, p, final, s);
        op.retries := |records| + 1;
        records := records + [Record(p, |records| + 1, s, final, after)];
        final := after;
      }
      RetryEnd(env, State(), p, final, records, used);
      if !final.ok && IsBridge(p) {
        var after := ApplyStrategy(env, p, final, BridgeRebuilt);
        op.retries := |records| + 1;
        records := records + [Record(p, |records| + 1, BridgeRebuilt, final, after)];
        final := after;
      }
      op.validation := Some(final);
    }

    /** All operations, each path once; an operation whose path came earlier is left alone. */
    method ValidateAndRetry(env: Env, ops: seq<EditOperation>)
      returns (finals: seq<(Path, Validation)>, records: seq<Record>, failed: seq<(Path, Validation)>)
      requires forall i, j | 0 <= i < j < |ops| :: ops[i] != ops[j]
      modifies this, set op | op in ops
      ensures Batch(State(), finals, records) == RunAll(env, old(State()), Paths(ops))
      ensures failed == Failed(finals)
      ensures forall i | 0 <= i < |ops| ::
                ops[i].Outcome() == OpAfter(env, old(State()), Paths(ops[..i]), ops[i].path, old(ops[i].Outcome()))
    {
      hide RunPath, RunAll, Paths;
      ghost var shop := State();
      finals, records := [], [];
      var seen: set<Path> := {};
      var k := 0;
      RunAllNone(env, shop);
      while k < |ops|
        invariant k <= |ops|
        invariant forall q :: q in seen <==> q in Paths(ops[..k])
        invariant Batch(State(), finals, records) == RunAll(env, shop, Paths(ops[..k]))
        invariant forall i | k <= i < |ops| :: ops[i].Outcome() == old(ops[i].Outcome())
        invariant forall i | 0 <= i < k ::
                    ops[i].Outcome() == OpAfter(env, shop, Paths(ops[..i]), ops[i].path, old(ops[i].Outcome()))
      {
        var op := ops[k];
        PathsSnoc(ops, k);
        RunAllSnoc(env, shop, Paths(ops[..k]), op.path);
        if op.path !in seen {
          seen := seen + {op.path};
          var final, more := RepairFile(env, op);
          finals, records := finals + [(op.path, final)], records + more;
        }
        k := k + 1;
      }
      assert ops[..k] == ops;
      failed := Failed(finals);
    }
  }

  lemma RunAllNone(env: Env, shop: Shop)
    ensures RunAll(env, shop, []) == Batch(shop, [], [])
  {}
}
