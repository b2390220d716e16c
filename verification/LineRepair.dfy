/** The source-level repair strategies, line by line, and the fault that is injected to exercise them. */
module LineRepair {
  import opened Text
  import opened LineStyle

  const REMOVED: string := "# ZERO Z5 removed injected lonely backslash"
  const COMMENTED: string := "# ZERO Z5 commented invalid line: "

  /** `str.splitlines()`. */
  function SplitLines(source: string): seq<string> {
    if source == "" then [] else SplitKeepStyle(source).lines
  }

  predicate EndsInLf(source: string) { source != "" && source[|source| - 1] == '\n' }

  predicate Lonely(line: string) { Strip(line) == "\\" }

  predicate HasLonely(lines: seq<string>) { exists line | line in lines :: Lonely(line) }

  function Cleaned(line: string): string { if Lonely(line) then REMOVED else line }

  function CleanedAll(lines: seq<string>): (r: seq<string>)
    ensures |r| == |lines| && forall i | 0 <= i < |r| :: r[i] == Cleaned(lines[i])
  {
    if lines == [] then [] else CleanedAll(lines[..|lines| - 1]) + [Cleaned(lines[|lines| - 1])]
  }

  function Rejoin(lines: seq<string>, source: string): string {
    Join(lines, LF) + if EndsInLf(source) then LF else ""
  }

  function RemoveLonelyBackslash(source: string): string {
    var lines := SplitLines(source);
    if HasLonely(lines) then Rejoin(CleanedAll(lines), source) else source
  }

  /** The loop of the original. */
  method RepairLonelyBackslash(source: string) returns (r: string, changed: bool)
    ensures r == RemoveLonelyBackslash(source)
    ensures changed <==> HasLonely(SplitLines(source))
  {
    hide SplitLines, Lonely, Cleaned;
    var lines := SplitLines(source);
    changed := false;
    var newLines: seq<string> := [];
    var i := 0;
    while i < |lines|
      invariant i <= |lines|
      invariant newLines == CleanedAll(lines[..i])
      invariant changed <==> HasLonely(lines[..i])
    {
      assert lines[..i + 1] == lines[..i] + [lines[i]];
      assert lines[..i + 1][..i] == lines[..i];
      CleanedIs(lines[i]);
      if Lonely(lines[i]) {
        newLines := newLines + [REMOVED];
        changed := true;
      } else {
        newLines := newLines + [lines[i]];
      }
      i := i + 1;
    }
    assert lines[..i] == lines;
    r := if changed then Rejoin(newLines, source) else source;
  }

  lemma CleanedIs(line: string)
    ensures Cleaned(line) == if Lonely(line) then REMOVED else line
  {}

  function CommentFailingLine(source: string, lineNo: Option<int>): string {
    match lineNo
    case None => source
    case Some(n) =>
      var lines := SplitLines(source);
      if 0 < n <= |lines| then Rejoin(lines[n - 1 := COMMENTED + lines[n - 1]], source) else source
  }

  function NormalizeEscapes(source: string): string {
    ReplaceAll(ReplaceAll(source, "\\\"\"\"", "\"\"\""), "\\'''", "'''")
  }

  function InjectFault(content: string): string { RStrip(content, IsSpace) + "\n\\\n" }

  // ---- What the strategy changes ----

  lemma RemovedIsClean()
    ensures !Lonely(REMOVED) && Unbroken(REMOVED) && REMOVED != ""
  {
    hide Unbroken, Lonely;
    RemovedUnbroken();
    RemovedNotLonely();
  }

  lemma RemovedUnbroken()
    ensures Unbroken(REMOVED)
  {
    hide Unbroken;
    FirstHalf();
    SecondHalf();
    UnbrokenBoth("# ZERO Z5 removed inje", "cted lonely backslash");
    assert REMOVED == "# ZERO Z5 removed inje" + "cted lonely backslash";
  }

  lemma FirstHalf()
    ensures Unbroken("# ZERO Z5 removed inje")
  {}

  lemma SecondHalf()
    ensures Unbroken("cted lonely backslash")
  {}

  lemma UnbrokenBoth(a: string, b: string)
    requires Unbroken(a) && Unbroken(b)
    ensures Unbroken(a + b)
  {}

  lemma RemovedNotLonely()
    ensures !Lonely(REMOVED)
  {
    hide IsSpace, StripBy;
    Ink();
    assert REMOVED[0] == '#' && REMOVED[|REMOVED| - 1] == 'h';
    assert Strip(REMOVED) == REMOVED;
  }

  lemma Ink()
    ensures !IsSpace('#') && !IsSpace('h')
  {}

  lemma SplitLinesShape(source: string)
    ensures NoBreaks(SplitLines(source))
    ensures source != "" ==> SplitLines(source) != []
    ensures SplitLines(source) != [] && SplitLines(source)[|SplitLines(source)| - 1] == "" && |SplitLines(source)| >= 2 ==>
              SplitKeepStyle(source).finalNewline
  {
    CanonicalForm(source);
    SplitDropsNothing(source);
  }

  lemma CleanedNoBreaks(lines: seq<string>)
    requires NoBreaks(lines)
    ensures NoBreaks(CleanedAll(lines)) && !HasLonely(CleanedAll(lines))
  {
    hide Unbroken, Lonely;
    RemovedIsClean();
    forall line | line in CleanedAll(lines) ensures Unbroken(line) && !Lonely(line) {
      var i :| 0 <= i < |lines| && CleanedAll(lines)[i] == line;
      assert lines[i] in lines;
    }
  }

  /** Splitting a re-joined list gives the list back unless it ends in an empty line whose break was
      not a line feed. */
  lemma SplitOfRejoin(lines: seq<string>, source: string)
    requires lines != [] && NoBreaks(lines)
    requires lines == [""] ==> EndsInLf(source)
    ensures SplitLines(Rejoin(lines, source)) == lines <==> !DropsLastLine(lines, EndsInLf(source))
  {
    hide Unbroken;
    var final := EndsInLf(source);
    SplitOfJoinKeepStyle(lines, LF, final);
    var text := JoinKeepStyle(lines, LF, final);
    assert Rejoin(lines, source) == text;
    RejoinSplits(lines, final);
  }

  lemma RejoinSplits(lines: seq<string>, final: bool)
    requires lines != [] && NoBreaks(lines) && (lines == [""] ==> final)
    ensures var text := JoinKeepStyle(lines, LF, final);
            text != "" && (SplitKeepStyle(text).lines == lines <==> !DropsLastLine(lines, final))
  {
    hide Split, Join, Normalize, OnePass, Contains, Unbroken;
    var text := JoinKeepStyle(lines, LF, final);
    LfJoin(lines, final);
    NormalizeInOnePass(text);
    OnePassPlain(text);
    NothingJoins();
    SplitEndsWithBreak(text);
    var shown := if final then lines + [[]] else lines;
    assert final ==> shown[..|shown| - 1] == lines;
  }

  lemma NothingJoins()
    ensures Split("", '\n') == [""]
  {}

  /** Removing lonely backslashes changes those lines and no others, and so keeps the number of lines,
      except for a source that ends in a bare carriage return behind an empty line: there, and only
      there, the empty last line is lost. */
  lemma RemoveLonelyFrame(source: string)
    requires HasLonely(SplitLines(source))
    ensures var lines := SplitLines(source);
            SplitLines(RemoveLonelyBackslash(source)) == CleanedAll(lines)
            <==> !(lines[|lines| - 1] == "" && !EndsInLf(source))
    ensures !HasLonely(CleanedAll(SplitLines(source)))
  {
    hide SplitLines, Unbroken, Lonely, Rejoin;
    var lines := SplitLines(source);
    SplitLinesShape(source);
    CleanedNoBreaks(lines);
    var cleaned := CleanedAll(lines);
    var n := |lines| - 1;
    assert cleaned[n] == Cleaned(lines[n]);
    RemovedIsClean();
    LonelyOnly(lines);
    SplitOfRejoin(cleaned, source);
  }

  /** Text that was read in text mode has line feeds only, and there the repair changes exactly those lines. */
  lemma RemoveLonelyKeepsLines(source: string)
    requires '\r' !in source
    ensures SplitLines(RemoveLonelyBackslash(source)) == CleanedAll(SplitLines(source))
  {
    hide Lonely, SplitLines, CleanedAll, RemoveLonelyBackslash, EndsInLf;
    if HasLonely(SplitLines(source)) {
      RemoveLonelyFrame(source);
      LastLineOfClean(source);
    } else {
      NothingToRemove(source);
      CleanedKeeps(SplitLines(source));
    }
  }

  lemma NothingToRemove(source: string)
    requires !HasLonely(SplitLines(source))
    ensures RemoveLonelyBackslash(source) == source
  {}

  lemma LastLineOfClean(source: string)
    requires '\r' !in source && SplitLines(source) != []
    ensures var lines := SplitLines(source); lines[|lines| - 1] == "" ==> EndsInLf(source)
  {
    hide Split, OnePass, Normalize, Contains;
    NormalizeInOnePass(source);
    OnePassPlain(source);
    SplitEndsWithBreak(source);
  }

  lemma LonelyOnly(lines: seq<string>)
    requires HasLonely(lines)
    ensures CleanedAll(lines) != [""] && lines != [""]
    ensures |lines| == 1 ==> CleanedAll(lines)[0] == REMOVED
    ensures Cleaned("") == ""
  {
    RemovedIsClean();
    assert Strip("") == "";
    assert !Lonely("");
  }

  /** A second pass finds nothing to do. */
  lemma RemoveLonelyIdempotent(source: string)
    ensures RemoveLonelyBackslash(RemoveLonelyBackslash(source)) == RemoveLonelyBackslash(source)
  {
    if HasLonely(SplitLines(source)) {
      RejoinedHasNone(source);
    }
  }

  lemma RejoinedHasNone(source: string)
    requires HasLonely(SplitLines(source))
    ensures !HasLonely(SplitLines(RemoveLonelyBackslash(source)))
  {
    hide SplitLines, Unbroken, Lonely, Rejoin;
    var lines := SplitLines(source);
    var cleaned := CleanedAll(lines);
    SplitLinesShape(source);
    CleanedNoBreaks(lines);
    LonelyOnly(lines);
    RejoinLines(cleaned, source);
    var again := SplitLines(Rejoin(cleaned, source));
    forall line | line in again ensures !Lonely(line) {
      assert line in cleaned;
    }
  }

  lemma RejoinLines(lines: seq<string>, source: string)
    requires lines != [] && NoBreaks(lines)
    ensures forall line | line in SplitLines(Rejoin(lines, source)) :: line in lines
  {
    hide Unbroken;
    var final := EndsInLf(source);
    var text := JoinKeepStyle(lines, LF, final);
    assert Rejoin(lines, source) == text;
    LfJoin(lines, final);
    NormalizeInOnePass(text);
    OnePassPlain(text);
    SplitEndsWithBreak(text);
    var shown := if final then lines + [[]] else lines;
    assert final ==> shown[..|shown| - 1] == lines;
  }

  // ---- Commenting a line ----

  lemma CommentedUnbroken(line: string)
    requires Unbroken(line)
    ensures Unbroken(COMMENTED + line) && COMMENTED + line != ""
  {
    hide Unbroken;
    CommentedFirst();
    CommentedSecond();
    UnbrokenBoth("# ZERO Z5 commented", " invalid line: ");
    assert COMMENTED == "# ZERO Z5 commented" + " invalid line: ";
    UnbrokenBoth(COMMENTED, line);
  }

  lemma CommentedFirst()
    ensures Unbroken("# ZERO Z5 commented")
  {}

  lemma CommentedSecond()
    ensures Unbroken(" invalid line: ")
  {}

  lemma OneLineChanged(lines: seq<string>, i: nat, line: string)
    requires i < |lines| && NoBreaks(lines) && Unbroken(line)
    ensures NoBreaks(lines[i := line])
  {
    hide Unbroken;
  }

  /** Commenting the failing line, in text as it is read: when the line named is one of the text's, that line gets
      the comment mark in front and every other line is kept; otherwise nothing changes. */
  lemma CommentMeans(source: string, lineNo: Option<int>)
    requires '\r' !in source
    ensures var lines, r := SplitLines(source), CommentFailingLine(source, lineNo);
            if lineNo.Some? && 1 <= lineNo.value <= |lines| then
              && |SplitLines(r)| == |lines|
              && (forall i | 0 <= i < |lines| ::
                    SplitLines(r)[i] == if i + 1 == lineNo.value then COMMENTED + lines[i] else lines[i])
              && (EndsInLf(r) <==> EndsInLf(source))
            else r == source
  {
    hide SplitLines, Unbroken, Rejoin, EndsInLf;
    var lines := SplitLines(source);
    if lineNo.Some? && 1 <= lineNo.value <= |lines| {
      var i := lineNo.value - 1;
      var changed := lines[i := COMMENTED + lines[i]];
      SplitLinesShape(source);
      LastLineOfClean(source);
      assert lines[i] in lines;
      CommentedUnbroken(lines[i]);
      OneLineChanged(lines, i, COMMENTED + lines[i]);
      assert changed[i] != "";
      SplitOfRejoin(changed, source);
      RejoinEnds(changed, source);
    }
  }

  lemma RejoinEnds(lines: seq<string>, source: string)
    requires lines != [] && NoBreaks(lines)
    requires lines[|lines| - 1] == "" ==> EndsInLf(source)
    ensures EndsInLf(Rejoin(lines, source)) <==> EndsInLf(source)
  {
    assert Unbroken(lines[|lines| - 1]);
    if !EndsInLf(source) { JoinLast(lines); }
  }

  lemma {:induction false} JoinLast(lines: seq<string>)
    requires lines != [] && lines[|lines| - 1] != ""
    ensures var s, last := Join(lines, LF), lines[|lines| - 1];
            s != "" && s[|s| - 1] == last[|last| - 1]
  {
    if |lines| > 1 { JoinLast(lines[1..]); }
  }

  // ---- Unescaping triple quotes ----

  /** The text without its backslashes. */
  function WithoutBackslashes(s: string): string {
    if s == "" then "" else (if s[0] == '\\' then "" else [s[0]]) + WithoutBackslashes(s[1..])
  }

  lemma {:induction false} UnescapeOnce(s: string, quote: string)
    requires quote in {"\"\"\"", "'''"}
    ensures var r := ReplaceAll(s, "\\" + quote, quote);
            && WithoutBackslashes(r) == WithoutBackslashes(s)
            && |r| <= |s| && (r == s <==> !Contains(s, "\\" + quote))
            && (r != s ==> |r| < |s|)
  {
    var pat := "\\" + quote;
    if s != "" {
      if pat <= s {
        UnescapeOnce(s[4..], quote);
        var rest := ReplaceAll(s[4..], pat, quote);
        assert s[..4] == pat;
        assert s[1..][..3] == quote && s == ['\\'] + s[1..] && s[1..] == quote + s[4..];
        QuoteFirst(quote, rest);
        QuoteFirst(quote, s[4..]);
      } else {
        UnescapeOnce(s[1..], quote);
        var rest := ReplaceAll(s[1..], pat, quote);
        assert ([s[0]] + rest)[1..] == rest && s == [s[0]] + s[1..];
      }
    }
  }

  lemma QuoteFirst(quote: string, rest: string)
    requires quote in {"\"\"\"", "'''"}
    ensures WithoutBackslashes(quote + rest) == quote + WithoutBackslashes(rest)
  {
    var s := quote + rest;
    var a, b, c := quote[0], quote[1], quote[2];
    assert s[1..] == [b, c] + rest && s[1..][1..] == [c] + rest && s[1..][1..][1..] == rest;
    assert WithoutBackslashes([c] + rest) == [c] + WithoutBackslashes(rest);
    assert WithoutBackslashes([b, c] + rest) == [b] + ([c] + WithoutBackslashes(rest));
    assert quote + WithoutBackslashes(rest) == [a] + ([b] + ([c] + WithoutBackslashes(rest)));
  }

  /** Unescaping deletes backslashes and nothing else, and changes a text exactly when a triple quote stands
      behind a backslash in it. */
  lemma UnescapeMeans(source: string)
    ensures var r := NormalizeEscapes(source);
            && WithoutBackslashes(r) == WithoutBackslashes(source)
            && (r == source <==> !Contains(source, "\\\"\"\"") && !Contains(source, "\\'''"))
  {
    var triple := "\"\"\"";
    assert "\\" + triple == "\\\"\"\"" && "\\" + "'''" == "\\'''";
    var once := ReplaceAll(source, "\\" + triple, triple);
    UnescapeOnce(source, triple);
    UnescapeOnce(once, "'''");
  }

  // ---- The injected fault ----

  lemma LinesOfFaulty(body: string)
    requires '\r' !in body
    ensures SplitLines(body + "\n\\\n") == Split(body, '\n') + ["\\"]
  {
    hide Split;
    var text := body + "\n\\\n";
    NormalizeInOnePass(text);
    OnePassPlain(text);
    var before, head := SplitBehind(body, "\n\\\n", '\n');
    FaultPieces();
    assert head + "" == head;
    var all := Split(text, '\n');
    assert all == Split(body, '\n') + ["\\"] + [""];
    assert all[..|all| - 1] == Split(body, '\n') + ["\\"];
  }

  lemma FaultPieces()
    ensures Split("\n\\\n", '\n') == ["", "\\", ""]
  {
    assert Split("", '\n') == [""];
    assert "\n"[1..] == "" && "\\\n"[1..] == "\n" && "\n\\\n"[1..] == "\\\n";
    assert Split("\n", '\n') == ["", ""];
    assert ['\\'] + "" == "\\";
    assert Split("\\\n", '\n') == [['\\'] + ""] + [""];
  }

  lemma {:induction false} StripRight(s: string, w: string)
    requires forall i | 0 <= i < |w| :: IsSpace(w[i])
    ensures Strip(s + w) == Strip(s)
  {
    hide Strip, IsSpace;
    if w == "" {
      assert s + w == s;
    } else {
      var init := w[..|w| - 1];
      StripRight(s, init);
      StripLast(s + init, w[|w| - 1]);
      assert s + w == (s + init) + [w[|w| - 1]];
    }
  }

  lemma {:induction false} StripLast(s: string, c: char)
    requires IsSpace(c)
    ensures Strip(s + [c]) == Strip(s)
  {
    LStripLast(s, c);
    var left := LStrip(s, IsSpace);
    if left == "" {
      assert LStrip(s + [c], IsSpace) == "";
    } else {
      assert (left + [c])[..|left|] == left;
    }
  }

  lemma {:induction false} LStripLast(s: string, c: char)
    requires IsSpace(c)
    ensures LStrip(s + [c], IsSpace) == if LStrip(s, IsSpace) == "" then "" else LStrip(s, IsSpace) + [c]
  {
    if s == "" {
      assert s + [c] == [c];
      assert LStrip([c][1..], IsSpace) == "";
    } else {
      assert (s + [c])[1..] == s[1..] + [c];
      if IsSpace(s[0]) { LStripLast(s[1..], c); }
    }
  }

  lemma {:induction false} TrimmedTail(s: string)
    ensures forall i | |RStrip(s, IsSpace)| <= i < |s| :: IsSpace(s[i])
  {
    if s != "" && IsSpace(s[|s| - 1]) { TrimmedTail(s[..|s| - 1]); }
  }

  /** Trimming the end of a text brings in no lonely backslash. */
  lemma TrimmedLines(content: string)
    requires '\r' !in content && !HasLonely(Split(content, '\n'))
    ensures !HasLonely(Split(RStrip(content, IsSpace), '\n'))
  {
    hide IsSpace;
    var body := RStrip(content, IsSpace);
    var w := content[|body|..];
    RStripIsHead(content, IsSpace);
    assert content == body + w;
    TrimmedTail(content);
    var before, head := SplitBehind(body, w, '\n');
    var first := Split(w, '\n')[0];
    SplitSpaces(w);
    StripRight(head, first);
    var all := Split(content, '\n');
    assert all[|before|] == head + first && all[|before|] in all;
    forall line | line in before + [head] ensures !Lonely(line) {
      if line in before { assert line in all; }
    }
  }

  lemma {:induction false} SplitSpaces(w: string)
    requires forall i | 0 <= i < |w| :: IsSpace(w[i])
    ensures forall i | 0 <= i < |Split(w, '\n')[0]| :: IsSpace(Split(w, '\n')[0][i])
  {
    if w != "" { SplitSpaces(w[1..]); }
  }

  lemma PlainFaultIsUndone(content: string)
    requires '\r' !in content && !HasLonely(Split(content, '\n'))
    ensures RemoveLonelyBackslash(InjectFault(content)) == RStrip(content, IsSpace) + LF + REMOVED + LF
  {
    hide IsSpace, RStrip, Lonely;
    var body := RStrip(content, IsSpace);
    RStripIsHead(content, IsSpace);
    assert forall i | 0 <= i < |body| :: body[i] == content[i];
    TrimmedLines(content);
    LinesOfFaulty(body);
    var lines := Split(body, '\n');
    LonelyBackslash();
    var faulty := lines + ["\\"];
    assert faulty[|lines|] == "\\" && "\\" in faulty;
    CleanedKeeps(lines);
    assert faulty[..|lines|] == lines;
    assert CleanedAll(faulty) == lines + [REMOVED];
    JoinSnoc(lines, REMOVED, LF);
    JoinOfSplit(body, '\n');
    var text := InjectFault(content);
    assert text[|text| - 1] == '\n';
  }

  lemma SpaceFlat(c: char)
    requires IsSpace(c)
    ensures |OnePass([c])| == 1 && IsSpace(OnePass([c])[0])
  {
    assert [c][1..] == "";
  }

  lemma RStripLast(s: string, c: char)
    ensures RStrip(s + [c], IsSpace) == if IsSpace(c) then RStrip(s, IsSpace) else s + [c]
  {
    assert (s + [c])[..|s|] == s;
  }

  /** Normalising line breaks and trimming the end commute. */
  lemma {:induction false} TrimNormalized(s: string)
    ensures OnePass(RStrip(s, IsSpace)) == RStrip(OnePass(s), IsSpace)
    decreases |s|
  {
    hide IsSpace, OnePass, RStrip;
    if s == "" {
      TrimNothing();
    } else {
      var init, c := s[..|s| - 1], s[|s| - 1];
      assert s == init + [c];
      RStripLast(init, c);
      if c == '\n' && init != "" && init[|init| - 1] == '\r' {
        var front := init[..|init| - 1];
        assert s == front + CRLF && init == front + ['\r'];
        TrimNormalized(front);
        OnePassConcat(front, CRLF);
        LineBreaks();
        RStripLast(front, '\r');
        RStripLast(OnePass(front), '\n');
      } else {
        TrimNormalized(init);
        OnePassConcat(init, [c]);
        TrimStep(init, c);
      }
    }
  }

  lemma TrimStep(init: string, c: char)
    requires OnePass(RStrip(init, IsSpace)) == RStrip(OnePass(init), IsSpace)
    requires OnePass(init + [c]) == OnePass(init) + OnePass([c])
    ensures OnePass(RStrip(init + [c], IsSpace)) == RStrip(OnePass(init + [c]), IsSpace)
  {
    hide IsSpace, OnePass, RStrip;
    RStripLast(init, c);
    if IsSpace(c) {
      SpaceFlat(c);
      assert OnePass([c]) == [OnePass([c])[0]];
      RStripLast(OnePass(init), OnePass([c])[0]);
    } else {
      InkFlat(c);
      RStripLast(OnePass(init), c);
    }
  }

  lemma TrimNothing()
    ensures RStrip("", IsSpace) == "" && OnePass("") == ""
  {}

  lemma LineBreaks()
    ensures OnePass(CRLF) == LF && IsSpace('\r') && IsSpace('\n')
  {
    assert CRLF[2..] == "";
  }

  lemma InkFlat(c: char)
    requires !IsSpace(c)
    ensures OnePass([c]) == [c]
  {
    assert [c][1..] == "";
  }

  lemma FaultFlat(body: string)
    requires body == "" || !IsSpace(body[|body| - 1])
    ensures OnePass(body + "\n\\\n") == OnePass(body) + "\n\\\n"
  {
    hide OnePass;
    assert IsSpace('\r');
    OnePassConcat(body, "\n\\\n");
    FaultIsFlat();
  }

  lemma FaultIsFlat()
    ensures OnePass("\n\\\n") == "\n\\\n"
  {
    OnePassPlain("\n\\\n");
  }

  lemma NormalizedLines(content: string)
    requires !HasLonely(SplitLines(content))
    ensures !HasLonely(Split(OnePass(content), '\n'))
  {
    hide Lonely, OnePass, Split;
    NormalizeInOnePass(content);
    BlankIsNotLonely();
    SplitEndsWithBreak(OnePass(content));
    var all := Split(OnePass(content), '\n');
    if content == "" { NothingSplits(); }
    forall i | 0 <= i < |all| ensures !Lonely(all[i]) {
      if content != "" {
        var lines := SplitLines(content);
        assert lines == all || (lines == all[..|all| - 1] && all[|all| - 1] == "");
        if i < |lines| { assert lines[i] == all[i] && lines[i] in lines; }
      }
    }
  }

  lemma NothingSplits()
    ensures OnePass("") == "" && Split("", '\n') == [""]
  {}

  lemma BlankIsNotLonely()
    ensures !Lonely("")
  {}

  lemma SameSplit(source: string)
    requires source != "" && OnePass(source) != ""
    ensures SplitLines(source) == SplitLines(OnePass(source))
  {
    hide Split, OnePass, Normalize, LineEndingOf;
    NormalizeInOnePass(source);
    NormalizeInOnePass(OnePass(source));
    OnePassPlain(OnePass(source));
  }

  lemma SameRejoin(lines: seq<string>, a: string, b: string)
    requires EndsInLf(a) <==> EndsInLf(b)
    ensures Rejoin(lines, a) == Rejoin(lines, b)
  {
    hide Join;
  }

  lemma SameLines(source: string)
    requires source != "" && OnePass(source) != "" && HasLonely(SplitLines(OnePass(source)))
    requires EndsInLf(source) <==> EndsInLf(OnePass(source))
    ensures RemoveLonelyBackslash(source) == RemoveLonelyBackslash(OnePass(source))
  {
    hide SplitLines, HasLonely, OnePass, Rejoin, CleanedAll, EndsInLf;
    SameSplit(source);
    SameRejoin(CleanedAll(SplitLines(source)), source, OnePass(source));
  }

  // The repair of the normalised fault is the repair of the fault.
  lemma FaultNormalized(content: string)
    requires !HasLonely(SplitLines(content))
    ensures var body := RStrip(content, IsSpace);
            RemoveLonelyBackslash(InjectFault(content)) == OnePass(body) + LF + REMOVED + LF
  {
    hide IsSpace, RStrip, Lonely, SplitLines, OnePass, RemoveLonelyBackslash, Split, CleanedAll;
    var body, flat := RStrip(content, IsSpace), OnePass(content);
    var source := InjectFault(content);
    NormalizedLines(content);
    TrimNormalized(content);
    PlainFaultIsUndone(flat);
    FaultFlat(body);
    assert OnePass(source) == InjectFault(flat);
    LinesOfFaulty(OnePass(body));
    LonelyBackslash();
    var lines := Split(OnePass(body), '\n') + ["\\"];
    assert lines[|lines| - 1] in lines;
    assert source[|source| - 1] == '\n' && OnePass(source)[|OnePass(source)| - 1] == '\n';
    SameLines(source);
  }

  /** Reading the fault with its line breaks normalised makes no difference to its repair, which changes it. */
  lemma FaultIsSame(content: string)
    requires !HasLonely(SplitLines(content))
    ensures var source := InjectFault(content);
            && RemoveLonelyBackslash(OnePass(source)) == RemoveLonelyBackslash(source)
            && RemoveLonelyBackslash(source) != OnePass(source)
  {
    hide IsSpace, RStrip, Lonely, SplitLines, OnePass, RemoveLonelyBackslash, Split, CleanedAll;
    var body, source := RStrip(content, IsSpace), InjectFault(content);
    FaultFlat(body);
    LinesOfFaulty(OnePass(body));
    LonelyBackslash();
    var lines := Split(OnePass(body), '\n') + ["\\"];
    assert lines[|lines| - 1] in lines;
    assert source[|source| - 1] == '\n' && OnePass(source)[|OnePass(source)| - 1] == '\n';
    SameLines(source);
    RejoinedHasNone(OnePass(source));
  }

  /** Fault injection is undone: on content without a lonely backslash, injecting the fault and repairing
      it gives the right-trimmed content, its line breaks normalised, and one comment line; it gives that
      content back as it was exactly when no carriage return stands in it. */
  lemma FaultIsUndone(content: string)
    requires !HasLonely(SplitLines(content))
    ensures var body, r := RStrip(content, IsSpace), RemoveLonelyBackslash(InjectFault(content));
            && r == Normalize(body) + LF + REMOVED + LF
            && (r == body + LF + REMOVED + LF <==> '\r' !in body)
  {
    hide IsSpace, RStrip, HasLonely, OnePass, RemoveLonelyBackslash, Normalize, InjectFault;
    var body := RStrip(content, IsSpace);
    FaultNormalized(content);
    NormalizeInOnePass(body);
    FlatIffPlain(body);
    Cancel(OnePass(body), body, LF + REMOVED + LF);
    TailAsOne(OnePass(body));
    TailAsOne(body);
  }

  lemma TailAsOne(s: string)
    ensures s + LF + REMOVED + LF == s + (LF + REMOVED + LF)
  {}

  lemma FlatIffPlain(s: string)
    ensures OnePass(s) == s <==> '\r' !in s
  {
    if '\r' !in s { OnePassPlain(s); }
  }

  lemma Cancel(a: string, b: string, tail: string)
    ensures a + tail == b + tail <==> a == b
  {
    if a + tail == b + tail {
      assert |a| == |b|;
      assert (a + tail)[..|a|] == a && (b + tail)[..|b|] == b;
    }
  }

  lemma LonelyBackslash()
    ensures Lonely("\\") && Cleaned("\\") == REMOVED
  {
    assert !IsSpace('\\');
    assert Strip("\\") == "\\";
  }

  lemma CleanedKeeps(lines: seq<string>)
    requires !HasLonely(lines)
    ensures CleanedAll(lines) == lines
  {
    hide Lonely, CleanedAll;
    forall i | 0 <= i < |lines| ensures CleanedAll(lines)[i] == lines[i] {
      assert lines[i] in lines;
    }
  }
}
