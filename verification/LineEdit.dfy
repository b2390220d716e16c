/** One controlled edit on the lines of one file: find the block, indent the replacement, splice it in. */
module LineEdit {
  import opened Text
  import opened LineStyle
  import opened PathRules

  /** What Python's parser reports about a source text: the line of every return statement, and the
      first and last line of every function. */
  datatype PyModule = PyModule(returnLines: seq<int>, defs: seq<Def>)
  datatype Def = Def(name: string, lineno: int, endLineno: int)

  /** The library code behind the editor: the parser (None for a syntax error), the limit on the size
      of a difference, and the pattern that recognises a block header. */
  datatype Tools = Tools(
    python: string -> Option<PyModule>,
    sizeOk: (seq<string>, seq<string>) -> bool,
    isHeader: string -> bool)

  datatype Target = Whole | Within(first: int, last: int)

  datatype MatchMode = ExactBlock | StrippedLine | ReturnFallback

  datatype Located = Nowhere | At(start: nat, width: nat, mode: MatchMode)

  datatype Edit = Edit(at: Located, replacement: seq<string>, after: seq<string>)

  predicate IsBlank(c: char) { c == ' ' || c == '\t' }

  function LeadingWs(line: string): string { line[..|line| - |LStrip(line, IsBlank)|] }

  function TextLines(text: string): (r: seq<string>)
    ensures r != []
  {
    Split(Normalize(text), '\n')
  }

  function IndentLine(indent: string, line: string): string {
    if line == "" || indent <= line then line else indent + LStrip(line, IsBlank)
  }

  function IndentAll(indent: string, lines: seq<string>): (r: seq<string>)
    ensures |r| == |lines| && forall i | 0 <= i < |r| :: r[i] == IndentLine(indent, lines[i])
  {
    if lines == [] then [] else [IndentLine(indent, lines[0])] + IndentAll(indent, lines[1..])
  }

  function IndentOnly(indent: string, line: string): string {
    if Strip(line) == "" || indent <= line then line else indent + Strip(line)
  }

  function ApplyIndent(baseOldLine: string, newText: string): (r: seq<string>)
    ensures |r| == |TextLines(newText)|
  {
    var indent := LeadingWs(baseOldLine);
    var newLines := TextLines(newText);
    if |newLines| == 1 then
      [IndentOnly(indent, newLines[0])]
    else IndentAll(indent, newLines)
  }

  predicate BlockAt(lines: seq<string>, i: nat, block: seq<string>) {
    i + |block| <= |lines| && lines[i..i + |block|] == block
  }

  /** The numbers below `n` that satisfy `p`, in increasing order. */
  function Select(n: nat, p: nat -> bool): (r: seq<nat>)
    ensures forall i: nat :: i in r <==> i < n && p(i)
    ensures forall i, j | 0 <= i < j < |r| :: r[i] < r[j]
  {
    if n == 0 then []
    else
      var rest := Select(n - 1, p);
      assert forall k | 0 <= k < |rest| :: rest[k] in rest;
      if p(n - 1) then rest + [n - 1] else rest
  }

  function FindExactBlock(lines: seq<string>, oldText: string): (r: seq<nat>)
    ensures forall i: nat :: i in r <==> TextLines(oldText) != [""] && BlockAt(lines, i, TextLines(oldText))
  {
    var block := TextLines(oldText);
    if block == [""] then [] else Select(|lines|, (i: nat) => BlockAt(lines, i, block))
  }

  function FindSingleLineStripped(lines: seq<string>, oldText: string): (r: seq<nat>)
    ensures forall i: nat :: i in r <==> i < |lines| && Strip(oldText) != "" && Strip(lines[i]) == Strip(oldText)
  {
    var target := Strip(oldText);
    if target == "" then [] else Select(|lines|, (i: nat) => i < |lines| && Strip(lines[i]) == target)
  }

  predicate InTarget(i: nat, target: Target) { target.Whole? || target.first <= i <= target.last }

  function FilterToRange(indexes: seq<nat>, target: Target): (r: seq<nat>)
    ensures forall i: nat :: i in r <==> i in indexes && InTarget(i, target)
  {
    if indexes == [] then []
    else (if InTarget(indexes[0], target) then [indexes[0]] else []) + FilterToRange(indexes[1..], target)
  }

  function Min(a: int, b: int): int { if a <= b then a else b }

  function NamedDefs(defs: seq<Def>, name: string): seq<Def> {
    if defs == [] then []
    else (if defs[0].name == name && defs[0].lineno > 0 then [defs[0]] else []) + NamedDefs(defs[1..], name)
  }

  /** The lines of the one function with the requested name; None when there is not exactly one. */
  function FunctionTarget(tree: Option<PyModule>, isPy: bool, name: string, count: nat): Option<Target> {
    if name == "" then Some(Whole)
    else if !isPy || tree.None? then None
    else
      var found := NamedDefs(tree.value.defs, name);
      if |found| != 1 then None
      else
        var d := found[0];
        Some(Within(d.lineno - 1, Min((if d.endLineno <= 0 then d.lineno else d.endLineno) - 1, count - 1)))
  }

  predicate LooksReturn(text: string) { "return " <= Strip(text) }

  predicate HasReturn(text: string) { exists line | line in TextLines(text) :: LooksReturn(line) }

  function ReturnIndexes(numbers: seq<int>, target: Target, count: nat): (r: seq<nat>)
    ensures forall i | i in r :: i < count && i + 1 in numbers && InTarget(i, target)
  {
    if numbers == [] then []
    else
      var n := numbers[0];
      (if 0 < n <= count && InTarget(n - 1, target) then [n - 1] else []) + ReturnIndexes(numbers[1..], target, count)
  }

  /** The one return statement in range, for an edit that looks like one. */
  function ReturnLine(tree: Option<PyModule>, isPy: bool, oldText: string, newText: string,
                      target: Target, count: nat): (r: Option<nat>)
    ensures r.Some? ==> r.value < count && InTarget(r.value, target)
    ensures r.Some? ==> tree.Some? && ReturnIndexes(tree.value.returnLines, target, count) == [r.value]
  {
    if !isPy || !(LooksReturn(oldText) || HasReturn(newText)) || tree.None? then None
    else
      var found := ReturnIndexes(tree.value.returnLines, target, count);
      if |found| == 1 then (assert found[0] in found; Some(found[0])) else None
  }

  function Locate(tree: Option<PyModule>, isPy: bool, lines: seq<string>, target: Target,
                  oldText: string, newText: string): Located
  {
    var exact := FilterToRange(FindExactBlock(lines, oldText), target);
    if |exact| == 1 then At(exact[0], |TextLines(oldText)|, ExactBlock)
    else if |exact| > 1 then Nowhere
    else if '\n' in oldText || '\r' in oldText then Nowhere
    else
      var stripped := FilterToRange(FindSingleLineStripped(lines, oldText), target);
      if |stripped| == 1 then At(stripped[0], 1, StrippedLine)
      else
        match ReturnLine(tree, isPy, oldText, newText, target, |lines|)
        case Some(i) => At(i, 1, ReturnFallback)
        case None => Nowhere
  }

  predicate InsideTarget(target: Target, start: nat, width: nat) {
    target.Whole? || (start >= target.first && start + width - 1 <= target.last)
  }

  predicate InLines(at: Located, lines: seq<string>) {
    at.At? && at.width > 0 && at.start + at.width <= |lines|
  }

  function Rewrite(lines: seq<string>, at: Located, newText: string): seq<string>
    requires InLines(at, lines)
  {
    lines[..at.start] + ApplyIndent(lines[at.start], newText) + lines[at.start + at.width..]
  }

  /** A located window is never empty and lies inside the file. */
  lemma LocatedInLines(tree: Option<PyModule>, isPy: bool, lines: seq<string>, target: Target,
                       oldText: string, newText: string)
    ensures var at := Locate(tree, isPy, lines, target, oldText, newText);
            at.At? ==> InLines(at, lines) && InTarget(at.start, target)
  {
    var exact := FilterToRange(FindExactBlock(lines, oldText), target);
    var stripped := FilterToRange(FindSingleLineStripped(lines, oldText), target);
    if |exact| == 1 {
      assert exact[0] in exact;
    } else if |exact| == 0 && |stripped| == 1 {
      assert stripped[0] in stripped;
    }
  }

  function EditLines(tools: Tools, tree: Option<PyModule>, isPy: bool, lines: seq<string>,
                     functionName: string, oldText: string, newText: string): Option<Edit>
  {
    match FunctionTarget(tree, isPy, functionName, |lines|)
    case None => None
    case Some(target) =>
      var at := Locate(tree, isPy, lines, target, oldText, newText);
      LocatedInLines(tree, isPy, lines, target, oldText, newText);
      if at.Nowhere? || !InsideTarget(target, at.start, at.width) then None
      else
        var after := Rewrite(lines, at, newText);
        if tools.sizeOk(lines, after) then Some(Edit(at, ApplyIndent(lines[at.start], newText), after)) else None
  }

  predicate IsPython(filePath: string) { HasTail(Lower(filePath), ".py") }

  /** The edited file must parse, and an edit of a return statement must hit one. */
  predicate AstOk(tools: Tools, isPy: bool, before: string, after: string, line: nat, oldText: string) {
    !isPy
    || (&& tools.python(after).Some?
        && (tools.python(before).Some? && LooksReturn(oldText) ==> line in tools.python(before).value.returnLines))
  }

  /** The text of the file after the edit; None when any check refuses it. */
  function EditText(tools: Tools, filePath: string, before: string,
                    functionName: string, oldText: string, newText: string): Option<string>
  {
    var isPy := IsPython(filePath);
    var k := SplitKeepStyle(before);
    match EditLines(tools, tools.python(before), isPy, k.lines, functionName, oldText, newText)
    case None => None
    case Some(edit) =>
      var after := JoinKeepStyle(edit.after, k.newline, k.finalNewline);
      if AstOk(tools, isPy, before, after, edit.at.start + 1, oldText) then Some(after) else None
  }

  // ---- The indentation repair ----

  predicate Unindented(tools: Tools, lines: seq<string>, i: nat) {
    i + 1 < |lines| && tools.isHeader(lines[i]) && Strip(lines[i + 1]) != "" && LeadingWs(lines[i + 1]) == ""
  }

  function FirstUnindented(tools: Tools, lines: seq<string>, from: nat): (r: Option<nat>)
    ensures r.Some? ==> from <= r.value && Unindented(tools, lines, r.value)
    ensures forall j | from <= j < (if r.Some? then r.value else |lines|) :: !Unindented(tools, lines, j)
    decreases |lines| - from
  {
    if from >= |lines| then None
    else if Unindented(tools, lines, from) then Some(from)
    else FirstUnindented(tools, lines, from + 1)
  }

  function RepairedLine(header: string, line: string): string {
    LeadingWs(header) + "    " + LStrip(line, IsBlank)
  }

  function RepairText(tools: Tools, filePath: string, before: string): Option<string> {
    var k := SplitKeepStyle(before);
    match FirstUnindented(tools, k.lines, 0)
    case None => None
    case Some(i) =>
      var after := JoinKeepStyle(k.lines[i + 1 := RepairedLine(k.lines[i], k.lines[i + 1])], k.newline, k.finalNewline);
      if AstOk(tools, IsPython(filePath), before, after, i + 2, k.lines[i + 1]) then Some(after) else None
  }

  // ---- Main results ----

  lemma {:induction false} FilterSingle(indexes: seq<nat>, target: Target, i: nat)
    requires forall a, b | 0 <= a < b < |indexes| :: indexes[a] < indexes[b]
    requires i in indexes && InTarget(i, target) && forall j | j in indexes && InTarget(j, target) :: j == i
    ensures FilterToRange(indexes, target) == [i]
  {
    if indexes[0] == i {
      FilterNone(indexes[1..], target);
    } else {
      assert indexes[0] in indexes;
      FilterSingle(indexes[1..], target, i);
    }
  }

  lemma {:induction false} FilterNone(indexes: seq<nat>, target: Target)
    requires forall j | j in indexes :: !InTarget(j, target)
    ensures FilterToRange(indexes, target) == []
  {
    if indexes != [] {
      assert indexes[0] in indexes;
      FilterNone(indexes[1..], target);
    }
  }

  /** The window of a successful exact edit is the only place in range where the block stands. */
  predicate UniqueBlock(lines: seq<string>, block: seq<string>, target: Target, start: nat) {
    && BlockAt(lines, start, block) && InTarget(start, target)
    && forall i | 0 <= i < |lines| && BlockAt(lines, i, block) && InTarget(i, target) :: i == start
  }

  predicate UniqueStripped(lines: seq<string>, oldText: string, target: Target, start: nat) {
    && start < |lines| && Strip(lines[start]) == Strip(oldText) && InTarget(start, target)
    && (forall i | 0 <= i < |lines| && Strip(lines[i]) == Strip(oldText) && InTarget(i, target) :: i == start)
  }

  lemma SingleMember(r: seq<nat>)
    requires |r| == 1
    ensures forall i | i in r :: i == r[0]
    ensures r[0] in r
  {}

  /** What a successful edit rewrites: the one accepted match, wholly inside the requested function,
      with every line around it kept and the line count changed by the difference in width. */
  lemma EditFrame(tools: Tools, tree: Option<PyModule>, isPy: bool, lines: seq<string>,
                  functionName: string, oldText: string, newText: string)
    requires EditLines(tools, tree, isPy, lines, functionName, oldText, newText).Some?
    ensures var e := EditLines(tools, tree, isPy, lines, functionName, oldText, newText).value;
            var target := FunctionTarget(tree, isPy, functionName, |lines|);
            && target.Some? && InLines(e.at, lines) && e.replacement != []
            && (target.value.Within? ==> target.value.first <= e.at.start && e.at.start + e.at.width - 1 <= target.value.last)
            && e.replacement == ApplyIndent(lines[e.at.start], newText)
            && |e.after| == |lines| + |e.replacement| - e.at.width
            && e.after[..e.at.start] == lines[..e.at.start]
            && e.after[e.at.start..e.at.start + |e.replacement|] == e.replacement
            && e.after[e.at.start + |e.replacement|..] == lines[e.at.start + e.at.width..]
            && match e.at.mode {
                 case ExactBlock =>
                   e.at.width == |TextLines(oldText)| && UniqueBlock(lines, TextLines(oldText), target.value, e.at.start)
                 case StrippedLine =>
                   e.at.width == 1 && UniqueStripped(lines, oldText, target.value, e.at.start)
                 case ReturnFallback =>
                   e.at.width == 1 && tree.Some? && ReturnIndexes(tree.value.returnLines, target.value, |lines|) == [e.at.start]
               }
  {
    hide Strip, ApplyIndent, LooksReturn, HasReturn, NamedDefs, ReturnIndexes, FindExactBlock, FindSingleLineStripped, FilterToRange;
    var target := FunctionTarget(tree, isPy, functionName, |lines|).value;
    LocatedInLines(tree, isPy, lines, target, oldText, newText);
    var exact := FilterToRange(FindExactBlock(lines, oldText), target);
    if |exact| == 1 {
      SingleMember(exact);
    } else {
      var stripped := FilterToRange(FindSingleLineStripped(lines, oldText), target);
      if |stripped| == 1 { SingleMember(stripped); }
    }
  }

  /** A block that occurs once in range is what `Locate` finds. */
  lemma UniqueIsLocated(tree: Option<PyModule>, isPy: bool, lines: seq<string>, target: Target,
                        oldText: string, newText: string, start: nat)
    requires TextLines(oldText) != [""] && UniqueBlock(lines, TextLines(oldText), target, start)
    ensures Locate(tree, isPy, lines, target, oldText, newText) == At(start, |TextLines(oldText)|, ExactBlock)
  {
    var block := TextLines(oldText);
    var found := FindExactBlock(lines, oldText);
    assert found == Select(|lines|, (i: nat) => BlockAt(lines, i, block));
    FilterSingle(found, target, start);
  }

  // ---- Every way to find the place ----

  predicate NoBlock(lines: seq<string>, oldText: string, target: Target) {
    TextLines(oldText) == [""] || forall i | 0 <= i < |lines| && InTarget(i, target) :: !BlockAt(lines, i, TextLines(oldText))
  }

  predicate IsReturn(n: int, target: Target, count: nat) { 0 < n <= count && InTarget(n - 1, target) }

  /** Of the reported return statements exactly one is in range, and it stands at `start`. */
  ghost predicate UniqueReturn(numbers: seq<int>, target: Target, count: nat, start: nat) {
    exists j | 0 <= j < |numbers| ::
      && IsReturn(numbers[j], target, count) && numbers[j] == start + 1
      && forall i | 0 <= i < |numbers| && i != j :: !IsReturn(numbers[i], target, count)
  }

  /** Without a block in range, one line whose stripped text is the stripped old text. */
  ghost predicate StrippedPlace(lines: seq<string>, target: Target, oldText: string, start: nat) {
    && NoBlock(lines, oldText, target) && '\n' !in oldText && '\r' !in oldText
    && Strip(oldText) != "" && UniqueStripped(lines, oldText, target, start)
  }

  /** Without either, for an edit that looks like one of a return statement in a Python file that parses, the
      only return statement in range. */
  ghost predicate ReturnPlace(tree: Option<PyModule>, isPy: bool, lines: seq<string>, target: Target,
                              oldText: string, newText: string, start: nat)
  {
    && NoBlock(lines, oldText, target) && '\n' !in oldText && '\r' !in oldText
    && (forall i: nat :: !StrippedPlace(lines, target, oldText, i))
    && isPy && tree.Some?
    && ("return " <= Strip(oldText) || exists line | line in TextLines(newText) :: "return " <= Strip(line))
    && UniqueReturn(tree.value.returnLines, target, |lines|, start)
  }

  lemma {:induction false} ReturnsNone(numbers: seq<int>, target: Target, count: nat)
    ensures ReturnIndexes(numbers, target, count) == [] <==> forall i | 0 <= i < |numbers| :: !IsReturn(numbers[i], target, count)
  {
    if numbers != [] {
      var rest := numbers[1..];
      ReturnsNone(rest, target, count);
      forall i | 0 <= i < |rest| ensures rest[i] == numbers[i + 1] {}
      forall i | 0 < i < |numbers| ensures numbers[i] == rest[i - 1] {}
    }
  }

  lemma {:induction false} ReturnsOne(numbers: seq<int>, target: Target, count: nat, start: nat)
    ensures ReturnIndexes(numbers, target, count) == [start] <==> UniqueReturn(numbers, target, count, start)
  {
    hide UniqueReturn, ReturnIndexes, IsReturn;
    if numbers == [] {
      NoReturns(target, count, start);
    }
    if numbers != [] {
      var rest := numbers[1..];
      ReturnsOne(rest, target, count, start);
      ReturnsNone(rest, target, count);
      ReturnsCons(numbers, target, count);
      if IsReturn(numbers[0], target, count) {
        OneInFront(numbers[0] - 1, ReturnIndexes(rest, target, count), start);
        ReturnHere(numbers, target, count, start);
      } else {
        ReturnLater(numbers, target, count, start);
      }
    }
  }

  lemma NoReturns(target: Target, count: nat, start: nat)
    ensures ReturnIndexes([], target, count) == [] && !UniqueReturn([], target, count, start)
  {}

  lemma ReturnsCons(numbers: seq<int>, target: Target, count: nat)
    requires numbers != []
    ensures IsReturn(numbers[0], target, count) ==> numbers[0] > 0
    ensures var n, rest := numbers[0], ReturnIndexes(numbers[1..], target, count);
            ReturnIndexes(numbers, target, count) == if IsReturn(n, target, count) then [n - 1] + rest else rest
  {
    assert [] + ReturnIndexes(numbers[1..], target, count) == ReturnIndexes(numbers[1..], target, count);
  }

  lemma OneInFront(n: nat, rest: seq<nat>, start: nat)
    ensures [n] + rest == [start] <==> n == start && rest == []
  {
    assert rest == [] ==> [n] + rest == [n];
    assert ([n] + rest)[0] == n && |[n] + rest| == |rest| + 1;
  }

  lemma ReturnHere(numbers: seq<int>, target: Target, count: nat, start: nat)
    requires numbers != [] && IsReturn(numbers[0], target, count)
    ensures UniqueReturn(numbers, target, count, start) <==>
              numbers[0] == start + 1 && forall i | 0 <= i < |numbers| - 1 :: !IsReturn(numbers[1..][i], target, count)
  {
    var rest := numbers[1..];
    if numbers[0] == start + 1 && forall i | 0 <= i < |rest| :: !IsReturn(rest[i], target, count) {
      forall i | 0 < i < |numbers| ensures !IsReturn(numbers[i], target, count) { assert numbers[i] == rest[i - 1]; }
    }
  }

  lemma ReturnLater(numbers: seq<int>, target: Target, count: nat, start: nat)
    requires numbers != [] && !IsReturn(numbers[0], target, count)
    ensures UniqueReturn(numbers, target, count, start) <==> UniqueReturn(numbers[1..], target, count, start)
  {
    var rest := numbers[1..];
    if UniqueReturn(numbers, target, count, start) {
      var j :| 0 <= j < |numbers| && IsReturn(numbers[j], target, count) && numbers[j] == start + 1
               && forall i | 0 <= i < |numbers| && i != j :: !IsReturn(numbers[i], target, count);
      assert rest[j - 1] == numbers[j];
      forall i | 0 <= i < |rest| && i != j - 1 ensures !IsReturn(rest[i], target, count) { assert rest[i] == numbers[i + 1]; }
    }
    if UniqueReturn(rest, target, count, start) {
      var j :| 0 <= j < |rest| && IsReturn(rest[j], target, count) && rest[j] == start + 1
               && forall i | 0 <= i < |rest| && i != j :: !IsReturn(rest[i], target, count);
      assert numbers[j + 1] == rest[j];
      forall i | 0 <= i < |numbers| && i != j + 1 ensures !IsReturn(numbers[i], target, count) {
        if i > 0 { assert numbers[i] == rest[i - 1]; }
      }
    }
  }

  lemma ExactNone(lines: seq<string>, oldText: string, target: Target)
    ensures FilterToRange(FindExactBlock(lines, oldText), target) == [] <==> NoBlock(lines, oldText, target)
  {
    hide TextLines, BlockAt, FindExactBlock, InTarget;
    var exact := FilterToRange(FindExactBlock(lines, oldText), target);
    assert exact != [] ==> exact[0] in exact;
    BlocksBegin(lines, oldText);
  }

  lemma BlocksBegin(lines: seq<string>, oldText: string)
    ensures forall i: nat :: i in FindExactBlock(lines, oldText) ==> i < |lines|
  {}

  lemma StrippedOne(lines: seq<string>, oldText: string, target: Target, start: nat)
    ensures FilterToRange(FindSingleLineStripped(lines, oldText), target) == [start] <==>
              Strip(oldText) != "" && UniqueStripped(lines, oldText, target, start)
  {
    hide Strip, InTarget, FilterToRange;
    var found := FindSingleLineStripped(lines, oldText);
    var stripped := FilterToRange(found, target);
    if |stripped| == 1 { SingleMember(stripped); }
    if Strip(oldText) != "" && UniqueStripped(lines, oldText, target, start) {
      assert found == Select(|lines|, (i: nat) => i < |lines| && Strip(lines[i]) == Strip(oldText));
      FilterSingle(found, target, start);
    }
  }

  lemma ReturnLineIff(tree: Option<PyModule>, isPy: bool, oldText: string, newText: string, target: Target, count: nat, i: nat)
    ensures ReturnLine(tree, isPy, oldText, newText, target, count) == Some(i) <==>
              && isPy && tree.Some?
              && ("return " <= Strip(oldText) || exists line | line in TextLines(newText) :: "return " <= Strip(line))
              && UniqueReturn(tree.value.returnLines, target, count, i)
  {
    hide Strip, TextLines, ReturnIndexes, UniqueReturn;
    if tree.Some? {
      ReturnsOne(tree.value.returnLines, target, count, i);
      var found := ReturnIndexes(tree.value.returnLines, target, count);
      assert |found| == 1 ==> found == [found[0]];
    }
  }

  /** Without an exact block the place is the one stripped line, else the one return statement, else nowhere. */
  lemma FallbackIff(tree: Option<PyModule>, isPy: bool, lines: seq<string>, target: Target,
                    oldText: string, newText: string)
    requires NoBlock(lines, oldText, target)
    ensures match Locate(tree, isPy, lines, target, oldText, newText)
            case At(start, width, StrippedLine) => width == 1 && StrippedPlace(lines, target, oldText, start)
            case At(start, width, ReturnFallback) => width == 1 && ReturnPlace(tree, isPy, lines, target, oldText, newText, start)
            case At(_, _, ExactBlock) => false
            case Nowhere => forall i: nat :: !StrippedPlace(lines, target, oldText, i)
                                             && !ReturnPlace(tree, isPy, lines, target, oldText, newText, i)
  {
    hide TextLines, Strip, BlockAt, InTarget, FindExactBlock, FindSingleLineStripped, FilterToRange, ReturnLine, UniqueStripped, UniqueReturn, NoBlock;
    ExactNone(lines, oldText, target);
    var stripped := FilterToRange(FindSingleLineStripped(lines, oldText), target);
    assert |stripped| == 1 ==> stripped == [stripped[0]];
    forall i: nat ensures stripped == [i] <==> Strip(oldText) != "" && UniqueStripped(lines, oldText, target, i) {
      StrippedOne(lines, oldText, target, i);
    }
    if |stripped| == 1 { assert StrippedPlace(lines, target, oldText, stripped[0]) || '\n' in oldText || '\r' in oldText; }
    forall i: nat
      ensures ReturnPlace(tree, isPy, lines, target, oldText, newText, i) <==>
                && ReturnLine(tree, isPy, oldText, newText, target, |lines|) == Some(i)
                && |stripped| != 1 && '\n' !in oldText && '\r' !in oldText
    {
      ReturnLineIff(tree, isPy, oldText, newText, target, |lines|, i);
      if |stripped| != 1 { assert forall j: nat :: !StrippedPlace(lines, target, oldText, j); }
    }
  }

  // ---- Functions and the parser ----

  predicate IsNamed(d: Def, name: string) { d.name == name && d.lineno > 0 }

  /** Of the reported functions exactly number `j` has the name. */
  predicate UniqueDef(defs: seq<Def>, name: string, j: nat) {
    && j < |defs| && IsNamed(defs[j], name)
    && forall i | 0 <= i < |defs| && i != j :: !IsNamed(defs[i], name)
  }

  function LastLine(d: Def): int { if d.endLineno <= 0 then d.lineno else d.endLineno }

  lemma {:induction false} NamedNone(defs: seq<Def>, name: string)
    ensures NamedDefs(defs, name) == [] <==> forall i | 0 <= i < |defs| :: !IsNamed(defs[i], name)
  {
    if defs != [] {
      var rest := defs[1..];
      NamedNone(rest, name);
      forall i | 0 <= i < |rest| ensures rest[i] == defs[i + 1] {}
      forall i | 0 < i < |defs| ensures defs[i] == rest[i - 1] {}
    }
  }

  lemma {:induction false} NamedOne(defs: seq<Def>, name: string) returns (j: nat)
    requires |NamedDefs(defs, name)| == 1
    ensures UniqueDef(defs, name, j) && NamedDefs(defs, name) == [defs[j]]
  {
    var rest := defs[1..];
    forall i | 0 < i < |defs| ensures defs[i] == rest[i - 1] {}
    if IsNamed(defs[0], name) {
      NamedNone(rest, name);
      j := 0;
    } else {
      j := NamedOne(rest, name);
      j := j + 1;
    }
  }

  lemma {:induction false} NamedUnique(defs: seq<Def>, name: string, j: nat)
    requires UniqueDef(defs, name, j)
    ensures NamedDefs(defs, name) == [defs[j]]
  {
    var rest := defs[1..];
    forall i | 0 <= i < |rest| ensures rest[i] == defs[i + 1] {}
    if j == 0 { NamedNone(rest, name); } else { NamedUnique(rest, name, j - 1); }
  }

  /** A name is a target exactly when the file is Python, parses, and has one function of that name; the range
      is that function's lines, as far as the file has them. */
  lemma FunctionTargetIff(tree: Option<PyModule>, isPy: bool, name: string, count: nat)
    requires name != ""
    ensures FunctionTarget(tree, isPy, name, count).Some? <==> isPy && tree.Some? && exists j: nat :: UniqueDef(tree.value.defs, name, j)
    ensures isPy && tree.Some? ==> forall j: nat | UniqueDef(tree.value.defs, name, j) ::
              && var d := tree.value.defs[j];
              && var t := FunctionTarget(tree, isPy, name, count);
              && t.Some? && t.value.Within? && t.value.first == d.lineno - 1
              && forall i: nat :: InTarget(i, t.value) <==> d.lineno <= i + 1 <= LastLine(d) && i < count
  {
    hide NamedDefs;
    if isPy && tree.Some? {
      var defs := tree.value.defs;
      if |NamedDefs(defs, name)| == 1 { var j := NamedOne(defs, name); }
      forall j: nat | UniqueDef(defs, name, j) ensures NamedDefs(defs, name) == [defs[j]] { NamedUnique(defs, name, j); }
    }
  }

  /** An edit inside a named function changes lines of the one function of that name, and none outside it. */
  lemma EditStaysInFunction(tools: Tools, filePath: string, before: string,
                            functionName: string, oldText: string, newText: string) returns (j: nat)
    requires functionName != "" && EditText(tools, filePath, before, functionName, oldText, newText).Some?
    ensures IsPython(filePath) && tools.python(before).Some? && UniqueDef(tools.python(before).value.defs, functionName, j)
    ensures var d := tools.python(before).value.defs[j];
            var lines := SplitKeepStyle(before).lines;
            var e := EditLines(tools, tools.python(before), true, lines, functionName, oldText, newText);
            && e.Some? && e.value.at.At?
            && d.lineno <= e.value.at.start + 1 && e.value.at.start + e.value.at.width <= LastLine(d)
            && e.value.after[..d.lineno - 1] == lines[..d.lineno - 1]
            && (LastLine(d) <= |lines| ==>
                  e.value.after[LastLine(d) + |e.value.after| - |lines|..] == lines[LastLine(d)..])
  {
    hide SplitKeepStyle, JoinKeepStyle, AstOk, IsPython, Locate, ApplyIndent, FunctionTarget, BlockAt, TextLines, Strip, ReturnIndexes;
    var lines, tree := SplitKeepStyle(before).lines, tools.python(before);
    EditFrame(tools, tree, IsPython(filePath), lines, functionName, oldText, newText);
    FunctionTargetIff(tree, IsPython(filePath), functionName, |lines|);
    var i: nat :| UniqueDef(tree.value.defs, functionName, i);
    j := i;
    var d := tree.value.defs[j];
    var e := EditLines(tools, tree, true, lines, functionName, oldText, newText).value;
    var stop := e.at.start + e.at.width;
    assert InTarget(stop - 1, FunctionTarget(tree, true, functionName, |lines|).value);
    assert lines[..d.lineno - 1] == lines[..e.at.start][..d.lineno - 1];
    assert e.after[..d.lineno - 1] == e.after[..e.at.start][..d.lineno - 1];
    if LastLine(d) <= |lines| {
      assert lines[LastLine(d)..] == lines[stop..][LastLine(d) - stop..];
    }
  }

  /** An edit is accepted exactly when it can be made within the size limit and, in a Python file, the result
      parses, and an edit of a return statement hits one of those that the parser reports. */
  lemma EditTextIff(tools: Tools, filePath: string, before: string,
                    functionName: string, oldText: string, newText: string)
    ensures var k := SplitKeepStyle(before);
            var e := EditLines(tools, tools.python(before), HasTail(Lower(filePath), ".py"), k.lines, functionName, oldText, newText);
            var r := EditText(tools, filePath, before, functionName, oldText, newText);
            && (e.Some? ==> tools.sizeOk(k.lines, e.value.after) && e.value.at.At?)
            && (r.Some? <==>
                  && e.Some?
                  && var after := JoinKeepStyle(e.value.after, k.newline, k.finalNewline);
                     HasTail(Lower(filePath), ".py") ==>
                       && tools.python(after).Some?
                       && ("return " <= Strip(oldText) && tools.python(before).Some? ==>
                             e.value.at.start + 1 in tools.python(before).value.returnLines))
  {
    hide SplitKeepStyle, JoinKeepStyle, FunctionTarget, Locate, HasTail, Lower, Strip, ApplyIndent;
  }

  // ---- Re-indenting ----

  /** A block that stands twice in range is never edited: no fallback is tried for it. */
  lemma AmbiguousIsRefused(tree: Option<PyModule>, isPy: bool, lines: seq<string>, target: Target,
                           oldText: string, newText: string, i: nat, j: nat)
    requires TextLines(oldText) != [""] && i < j
    requires BlockAt(lines, i, TextLines(oldText)) && InTarget(i, target)
    requires BlockAt(lines, j, TextLines(oldText)) && InTarget(j, target)
    ensures Locate(tree, isPy, lines, target, oldText, newText) == Nowhere
  {
    hide TextLines, BlockAt, FindExactBlock, FilterToRange, FindSingleLineStripped, ReturnLine;
    var exact := FilterToRange(FindExactBlock(lines, oldText), target);
    assert i in exact && j in exact;
    if |exact| == 1 { SingleMember(exact); }
  }

  /** A block that stands once in the file is edited there, unless the size limit or the parser objects. */
  lemma UniqueIsEdited(tools: Tools, filePath: string, before: string, oldText: string, newText: string, start: nat)
    requires TextLines(oldText) != [""] && UniqueBlock(SplitKeepStyle(before).lines, TextLines(oldText), Whole, start)
    ensures var k := SplitKeepStyle(before);
            var at := At(start, |TextLines(oldText)|, ExactBlock);
            && InLines(at, k.lines)
            && var lines := Rewrite(k.lines, at, newText);
               var after := JoinKeepStyle(lines, k.newline, k.finalNewline);
               EditText(tools, filePath, before, "", oldText, newText) ==
                 if tools.sizeOk(k.lines, lines) && AstOk(tools, IsPython(filePath), before, after, start + 1, oldText)
                 then Some(after) else None
  {
    hide SplitKeepStyle, JoinKeepStyle, TextLines, UniqueBlock, Locate, AstOk, Rewrite, IsPython, ApplyIndent;
    var k := SplitKeepStyle(before);
    var tree, isPy := tools.python(before), IsPython(filePath);
    LocatedInLines(tree, isPy, k.lines, Whole, oldText, newText);
    UniqueIsLocated(tree, isPy, k.lines, Whole, oldText, newText, start);
  }

  lemma TextLinesOfJoin(lines: seq<string>)
    requires lines != [] && NoBreaks(lines)
    ensures TextLines(Join(lines, LF)) == lines
  {
    LfJoin(lines, false);
    var text := Join(lines, LF);
    assert text + "" == text;
    NormalizeInOnePass(text);
    OnePassPlain(text);
  }

  lemma TextLinesNoBreaks(text: string)
    ensures NoBreaks(TextLines(text))
  {
    NormalizeInOnePass(text);
    SplitChars(Normalize(text), '\n', '\r');
  }

  lemma SubUnbroken(line: string, i: nat, j: nat)
    requires i <= j <= |line| && Unbroken(line)
    ensures Unbroken(line[i..j])
  {}

  lemma StripUnbroken(line: string)
    requires Unbroken(line)
    ensures Unbroken(Strip(line)) && Unbroken(LStrip(line, IsBlank)) && Unbroken(LeadingWs(line))
  {
    hide Unbroken, LStrip, RStrip;
    assert Strip(line) == RStrip(LStrip(line, IsSpace), IsSpace);
    LStripUnbroken(line, IsSpace);
    RStripUnbroken(LStrip(line, IsSpace), IsSpace);
    LStripUnbroken(line, IsBlank);
    SubUnbroken(line, 0, |LeadingWs(line)|);
    assert line[0..|LeadingWs(line)|] == LeadingWs(line);
  }

  lemma LStripUnbroken(line: string, p: char -> bool)
    requires Unbroken(line)
    ensures Unbroken(LStrip(line, p))
  {
    hide Unbroken, LStrip;
    SubUnbroken(line, |line| - |LStrip(line, p)|, |line|);
    LStripIsTail(line, p);
    assert line[|line| - |LStrip(line, p)|..|line|] == line[|line| - |LStrip(line, p)|..];
  }

  lemma RStripUnbroken(line: string, p: char -> bool)
    requires Unbroken(line)
    ensures Unbroken(RStrip(line, p))
  {
    hide Unbroken, RStrip;
    SubUnbroken(line, 0, |RStrip(line, p)|);
    RStripIsHead(line, p);
  }

  lemma IndentedUnbroken(indent: string, line: string)
    requires Unbroken(indent) && Unbroken(line)
    ensures Unbroken(IndentLine(indent, line)) && Unbroken(IndentOnly(indent, line))
  {
    hide Unbroken, LStrip, Strip, LeadingWs;
    StripUnbroken(line);
    UnbrokenConcat(indent, Strip(line));
    UnbrokenConcat(indent, LStrip(line, IsBlank));
  }

  lemma IndentNoBreaks(baseOldLine: string, newText: string)
    requires Unbroken(baseOldLine)
    ensures NoBreaks(ApplyIndent(baseOldLine, newText))
  {
    hide Unbroken, TextLines, LeadingWs, IndentLine, IndentOnly;
    var newLines, indent := TextLines(newText), LeadingWs(baseOldLine);
    TextLinesNoBreaks(newText);
    StripUnbroken(baseOldLine);
    if |newLines| == 1 {
      assert newLines[0] in newLines;
      IndentedUnbroken(indent, newLines[0]);
    } else {
      IndentAllNoBreaks(indent, newLines);
    }
  }

  lemma IndentAllNoBreaks(indent: string, lines: seq<string>)
    requires Unbroken(indent) && NoBreaks(lines)
    ensures NoBreaks(IndentAll(indent, lines))
  {
    hide Unbroken, IndentLine, IndentAll;
    forall line | line in IndentAll(indent, lines) ensures Unbroken(line) {
      var i :| 0 <= i < |lines| && IndentAll(indent, lines)[i] == line;
      assert lines[i] in lines;
      IndentedUnbroken(indent, lines[i]);
    }
  }

  lemma LeadingWsMeans(line: string)
    ensures var w := LeadingWs(line);
            && AllBlank(w) && w <= line && line == w + LStrip(line, IsBlank)
            && (|w| < |line| ==> !IsBlank(line[|w|]))
  {
    LeadingBlank(line);
    LStripIsTail(line, IsBlank);
    var w, rest := LeadingWs(line), LStrip(line, IsBlank);
    assert line[|w|..] == rest;
    if |w| < |line| { assert line[|w|] == rest[0]; }
  }

  lemma {:induction false} LStripSpaces(w: string, s: string)
    requires AllBlank(w)
    ensures LStrip(w + s, IsSpace) == LStrip(s, IsSpace)
  {
    if w == "" {
      assert w + s == s;
    } else {
      assert (w + s)[1..] == w[1..] + s;
      LStripSpaces(w[1..], s);
    }
  }

  lemma StripBehindBlanks(w: string, s: string)
    requires AllBlank(w)
    ensures Strip(w + s) == Strip(s)
  {
    hide LStrip, RStrip, IsSpace;
    LStripSpaces(w, s);
  }

  lemma IndentedBegins(indent: string, s: string)
    requires AllBlank(indent) && (s != "" ==> !IsBlank(s[0]))
    ensures LeadingWs(indent + s) == indent && LStrip(indent + s, IsBlank) == s
  {
    hide LStrip, IsBlank;
    LStripPast(indent, s, IsBlank);
    assert (indent + s)[..|indent|] == indent;
  }

  lemma InkIsNotBlank(c: char)
    requires !IsSpace(c)
    ensures !IsBlank(c)
  {}

  lemma IndentOnlyKeepsText(indent: string, line: string)
    requires AllBlank(indent)
    ensures var r := IndentOnly(indent, line);
            && Strip(r) == Strip(line)
            && (r == line <==> Strip(line) == "" || indent <= line)
            && (r != line ==> LeadingWs(r) == indent && r != indent)
  {
    hide Strip, LeadingWs, IsSpace, IsBlank;
    var ink := Strip(line);
    StripBehindBlanks(indent, ink);
    assert Strip(ink) == ink;
    if ink != "" {
      InkIsNotBlank(ink[0]);
      IndentedBegins(indent, ink);
      assert indent <= indent + ink;
    }
  }

  lemma IndentLineKeepsText(indent: string, line: string)
    requires AllBlank(indent)
    ensures var r := IndentLine(indent, line);
            && Strip(r) == Strip(line) && LStrip(r, IsBlank) == LStrip(line, IsBlank)
            && (r == line <==> line == "" || indent <= line)
            && (r != line ==> LeadingWs(r) == indent)
  {
    hide Strip, LeadingWs, IsBlank;
    var ink := LStrip(line, IsBlank);
    LeadingWsMeans(line);
    StripBehindBlanks(LeadingWs(line), ink);
    StripBehindBlanks(indent, ink);
    IndentedBegins(indent, ink);
    assert indent <= indent + ink;
  }

  /** Re-indenting keeps the text: every line of the replacement stands there with its text unchanged; a line
      that already begins with the old line's indentation, or has nothing to indent, is as it was, and any other
      one begins with exactly that indentation. */
  lemma ReindentKeepsText(baseOldLine: string, newText: string, i: nat)
    requires i < |TextLines(newText)|
    ensures var single := |TextLines(newText)| == 1;
            var indent, line, r := LeadingWs(baseOldLine), TextLines(newText)[i], ApplyIndent(baseOldLine, newText)[i];
            && AllBlank(indent) && indent <= baseOldLine && (|indent| < |baseOldLine| ==> !IsBlank(baseOldLine[|indent|]))
            && Strip(r) == Strip(line)
            && (!single ==> LStrip(r, IsBlank) == LStrip(line, IsBlank))
            && (r == line <==> indent <= line || (if single then Strip(line) == "" else line == ""))
            && (r != line ==> LeadingWs(r) == indent && (single ==> r != indent))
  {
    hide Strip, LeadingWs, IsBlank, LStrip, TextLines, IndentOnly, IndentLine, AllBlank;
    var indent, line := LeadingWs(baseOldLine), TextLines(newText)[i];
    LeadingWsMeans(baseOldLine);
    IndentOnlyKeepsText(indent, line);
    IndentLineKeepsText(indent, line);
  }

  /** Re-indenting an already re-indented replacement changes nothing. */
  lemma ReindentIdempotent(baseOldLine: string, newText: string)
    requires Unbroken(baseOldLine)
    ensures var r := ApplyIndent(baseOldLine, newText);
            ApplyIndent(baseOldLine, Join(r, LF)) == r
  {
    var r := ApplyIndent(baseOldLine, newText);
    IndentNoBreaks(baseOldLine, newText);
    TextLinesOfJoin(r);
    var indent := LeadingWs(baseOldLine);
    if |r| > 1 {
      var again := ApplyIndent(baseOldLine, Join(r, LF));
      forall i | 0 <= i < |r| ensures again[i] == r[i] {
        assert again[i] == IndentLine(indent, r[i]);
      }
    }
  }

  /** The blocks that re-indenting under a given indent leaves alone. */
  predicate CarriesIndent(indent: string, block: seq<string>) {
    if |block| == 1 then Strip(block[0]) == "" || indent <= block[0]
    else forall line | line in block :: line == "" || indent <= line
  }

  lemma ReindentUnchangedIff(baseOldLine: string, newText: string)
    ensures ApplyIndent(baseOldLine, newText) == TextLines(newText)
            <==> CarriesIndent(LeadingWs(baseOldLine), TextLines(newText))
  {
    var block, indent := TextLines(newText), LeadingWs(baseOldLine);
    var r := ApplyIndent(baseOldLine, newText);
    if |block| == 1 {
      assert indent <= indent + Strip(block[0]);
    } else {
      forall i | 0 <= i < |block|
        ensures r[i] == block[i] <==> block[i] == "" || indent <= block[i]
      {
        assert r[i] == IndentLine(indent, block[i]);
        assert indent <= indent + LStrip(block[i], IsBlank);
      }
      if r == block {
        forall line | line in block ensures line == "" || indent <= line {
          var i :| 0 <= i < |block| && block[i] == line;
          assert r[i] == block[i];
        }
      } else if CarriesIndent(indent, block) {
        forall i | 0 <= i < |block| ensures r[i] == block[i] { assert block[i] in block; }
      }
    }
  }

  /** Undoing an exact edit: when the new block stands once in the result, the reverse edit finds it,
      and it restores the original lines exactly when the old block carries the indentation that the
      new block's first line ends up with. */
  lemma ReverseEditIff(tree: Option<PyModule>, isPy: bool, lines: seq<string>, start: nat,
                       oldText: string, newText: string)
    requires NoBreaks(lines) && BlockAt(lines, start, TextLines(oldText))
    requires var at := At(start, |TextLines(oldText)|, ExactBlock);
             var block := ApplyIndent(lines[start], newText);
             block != [""] && UniqueBlock(Rewrite(lines, at, newText), block, Whole, start)
    ensures var at := At(start, |TextLines(oldText)|, ExactBlock);
            var block := ApplyIndent(lines[start], newText);
            var after := Rewrite(lines, at, newText);
            var back := At(start, |block|, ExactBlock);
            && Locate(tree, isPy, after, Whole, Join(block, LF), oldText) == back
            && InLines(back, after)
            && (Rewrite(after, back, oldText) == lines
                <==> CarriesIndent(LeadingWs(block[0]), TextLines(oldText)))
  {
    hide Unbroken, LeadingWs, Strip, Join, UniqueBlock, Locate, CarriesIndent, ApplyIndent, TextLines;
    var was := TextLines(oldText);
    var at := At(start, |was|, ExactBlock);
    var block := ApplyIndent(lines[start], newText);
    var after := Rewrite(lines, at, newText);
    assert lines[start] in lines;
    IndentNoBreaks(lines[start], newText);
    TextLinesOfJoin(block);
    UniqueIsLocated(tree, isPy, after, Whole, Join(block, LF), oldText, start);
    var back := At(start, |block|, ExactBlock);
    assert after[start] == block[0];
    assert after[..start] == lines[..start];
    assert after[start + |block|..] == lines[start + |was|..];
    ReindentUnchangedIff(block[0], oldText);
    SplicedBack(lines, start, was, ApplyIndent(block[0], oldText));
  }

  lemma SplicedBack(lines: seq<string>, start: nat, block: seq<string>, other: seq<string>)
    requires BlockAt(lines, start, block) && |other| == |block|
    ensures lines[..start] + other + lines[start + |block|..] == lines <==> other == block
  {
    var s := lines[..start] + other + lines[start + |block|..];
    assert s[start..start + |block|] == other;
    assert lines == lines[..start] + lines[start..start + |block|] + lines[start + |block|..];
  }

  // ---- The text of the edited file ----

  lemma RewriteNoBreaks(lines: seq<string>, at: Located, newText: string)
    requires InLines(at, lines) && NoBreaks(lines)
    ensures NoBreaks(Rewrite(lines, at, newText)) && Rewrite(lines, at, newText) != []
  {
    assert lines[at.start] in lines;
    IndentNoBreaks(lines[at.start], newText);
  }

  /** The edited text keeps to one newline style, so reading it back changes nothing; and splitting it
      gives exactly the edited lines, unless those end in an empty line without a final line break. */
  lemma EditedText(tools: Tools, filePath: string, before: string,
                   functionName: string, oldText: string, newText: string)
    requires EditText(tools, filePath, before, functionName, oldText, newText).Some?
    ensures var after := EditText(tools, filePath, before, functionName, oldText, newText).value;
            var k := SplitKeepStyle(before);
            var e := EditLines(tools, tools.python(before), IsPython(filePath), k.lines, functionName, oldText, newText);
            && Canonical(after) == after
            && e.Some?
            && (SplitKeepStyle(after).lines == e.value.after && SplitKeepStyle(after).finalNewline == k.finalNewline
                <==> !DropsLastLine(e.value.after, k.finalNewline))
  {
    var k := SplitKeepStyle(before);
    var tree, isPy := tools.python(before), IsPython(filePath);
    var e := EditLines(tools, tree, isPy, k.lines, functionName, oldText, newText).value;
    CanonicalForm(before);
    EditFrame(tools, tree, isPy, k.lines, functionName, oldText, newText);
    RewriteNoBreaks(k.lines, e.at, newText);
    SplitOfJoinKeepStyle(e.after, k.newline, k.finalNewline);
    CanonicalIffUniform(JoinKeepStyle(e.after, k.newline, k.finalNewline));
  }

  /** The indentation repair goes to the first block header whose next line has text but no indentation; it is
      done exactly when there is one and, in a Python file, the result parses and a return statement is where one
      was reported. */
  lemma RepairTextIff(tools: Tools, filePath: string, before: string)
    ensures var k := SplitKeepStyle(before);
            var first := FirstUnindented(tools, k.lines, 0);
            && (first.Some? <==> exists i | 0 <= i < |k.lines| - 1 :: UnindentedBody(tools, k.lines[i], k.lines[i + 1]))
            && (first.Some? ==>
                  && first.value + 1 < |k.lines|
                  && UnindentedBody(tools, k.lines[first.value], k.lines[first.value + 1])
                  && (forall i | 0 <= i < first.value :: !UnindentedBody(tools, k.lines[i], k.lines[i + 1]))
                  && var was := k.lines[first.value + 1];
                     var lines := k.lines[first.value + 1 := RepairedLine(k.lines[first.value], was)];
                     var after := JoinKeepStyle(lines, k.newline, k.finalNewline);
                     RepairText(tools, filePath, before).Some? <==>
                       (HasTail(Lower(filePath), ".py") ==>
                          && tools.python(after).Some?
                          && ("return " <= Strip(was) && tools.python(before).Some? ==>
                                first.value + 2 in tools.python(before).value.returnLines)))
            && (first.None? ==> RepairText(tools, filePath, before).None?)
  {
    hide SplitKeepStyle, JoinKeepStyle, HasTail, Lower, Strip, RepairedLine;
    var k := SplitKeepStyle(before);
    forall i | 0 <= i < |k.lines| - 1
      ensures Unindented(tools, k.lines, i) <==> UnindentedBody(tools, k.lines[i], k.lines[i + 1])
    {
      NoLeadingWs(k.lines[i + 1]);
    }
  }

  /** A block header, and a line with text that does not begin with a blank. */
  predicate UnindentedBody(tools: Tools, header: string, line: string) {
    tools.isHeader(header) && Strip(line) != "" && !IsBlank(line[0])
  }

  lemma NoLeadingWs(line: string)
    ensures Strip(line) != "" ==> line != ""
    ensures LeadingWs(line) == "" <==> line == "" || !IsBlank(line[0])
  {}

  /** The indentation repair changes one line, and only the white space in front of it, which becomes the
      header's and four blanks. */
  lemma RepairFrame(tools: Tools, filePath: string, before: string)
    requires RepairText(tools, filePath, before).Some?
    ensures var after := RepairText(tools, filePath, before).value;
            var k, r := SplitKeepStyle(before), SplitKeepStyle(after);
            var first := FirstUnindented(tools, k.lines, 0);
            && first.Some?
            && r.lines == k.lines[first.value + 1 := RepairedLine(k.lines[first.value], k.lines[first.value + 1])]
            && LStrip(r.lines[first.value + 1], IsBlank) == LStrip(k.lines[first.value + 1], IsBlank)
            && LeadingWs(r.lines[first.value + 1]) == LeadingWs(k.lines[first.value]) + "    "
            && r.finalNewline == k.finalNewline
            && Canonical(after) == after
  {
    var k := SplitKeepStyle(before);
    var i := FirstUnindented(tools, k.lines, 0).value;
    CanonicalForm(before);
    SplitDropsNothing(before);
    RepairedLines(k.lines, i, k.finalNewline);
    var lines := k.lines[i + 1 := RepairedLine(k.lines[i], k.lines[i + 1])];
    RepairedText(lines, k.newline, k.finalNewline);
    RepairLineInk(k.lines[i], k.lines[i + 1]);
  }

  lemma RepairedText(lines: seq<string>, newline: string, finalNewline: bool)
    requires lines != [] && NoBreaks(lines) && newline in {LF, CRLF} && !DropsLastLine(lines, finalNewline)
    ensures var after := JoinKeepStyle(lines, newline, finalNewline);
            && Canonical(after) == after
            && SplitKeepStyle(after).lines == lines && SplitKeepStyle(after).finalNewline == finalNewline
  {
    SplitOfJoinKeepStyle(lines, newline, finalNewline);
    CanonicalIffUniform(JoinKeepStyle(lines, newline, finalNewline));
  }

  lemma RepairedLines(lines: seq<string>, i: nat, finalNewline: bool)
    requires i + 1 < |lines| && NoBreaks(lines) && !DropsLastLine(lines, finalNewline)
    ensures var lines' := lines[i + 1 := RepairedLine(lines[i], lines[i + 1])];
            NoBreaks(lines') && !DropsLastLine(lines', finalNewline)
  {
    hide Unbroken, RepairedLine;
    assert Unbroken(lines[i]) && Unbroken(lines[i + 1]);
    RepairLineUnbroken(lines[i], lines[i + 1]);
  }

  lemma RepairLineInk(header: string, line: string)
    ensures LStrip(RepairedLine(header, line), IsBlank) == LStrip(line, IsBlank)
    ensures LeadingWs(RepairedLine(header, line)) == LeadingWs(header) + "    "
  {
    hide LeadingWs, LStrip, AllBlank;
    LeadingBlank(header);
    BlankConcat(LeadingWs(header));
    IndentedBegins(LeadingWs(header) + "    ", LStrip(line, IsBlank));
  }

  predicate AllBlank(w: string) { forall j | 0 <= j < |w| :: IsBlank(w[j]) }

  lemma BlankConcat(w: string)
    requires AllBlank(w)
    ensures AllBlank(w + "    ")
  {}

  lemma RepairLineUnbroken(header: string, line: string)
    requires Unbroken(header) && Unbroken(line)
    ensures Unbroken(RepairedLine(header, line)) && RepairedLine(header, line) != ""
  {
    hide Unbroken, LeadingWs, LStrip, Strip;
    StripUnbroken(header);
    StripUnbroken(line);
    FourBlanks();
    UnbrokenConcat(LeadingWs(header), "    ");
    UnbrokenConcat(LeadingWs(header) + "    ", LStrip(line, IsBlank));
  }

  lemma FourBlanks()
    ensures Unbroken("    ")
  {}

  lemma UnbrokenConcat(a: string, b: string)
    requires Unbroken(a) && Unbroken(b)
    ensures Unbroken(a + b)
  {}

  lemma {:induction false} LeadingBlank(line: string)
    ensures AllBlank(LeadingWs(line))
  {
    if line != "" && IsBlank(line[0]) {
      LeadingBlank(line[1..]);
      assert LeadingWs(line) == [line[0]] + LeadingWs(line[1..]);
    }
  }
}
