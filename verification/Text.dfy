/** The string operations of the original that the other modules build on. */
module Text {

  datatype Option<+T> = None | Some(value: T)

  /** The characters that `str.strip()` and the class `\s` take as white space. */
  predicate IsSpace(c: char) {
    || '\t' <= c <= '\r'
    || '\U{1C}' <= c <= ' '
    || c == '\U{85}' || c == '\U{A0}' || c == '\U{1680}'
    || '\U{2000}' <= c <= '\U{200A}'
    || c == '\U{2028}' || c == '\U{2029}' || c == '\U{202F}' || c == '\U{205F}' || c == '\U{3000}'
  }

  /** `s.lstrip(chars)`, with the character set given as a predicate. */
  function LStrip(s: string, p: char -> bool): (r: string)
    ensures |r| <= |s|
    ensures r != [] ==> !p(r[0])
    ensures |r| < |s| ==> p(s[0])
  {
    if s == [] || !p(s[0]) then s else LStrip(s[1..], p)
  }

  /** `s.rstrip(chars)`. */
  function RStrip(s: string, p: char -> bool): (r: string)
    ensures |r| <= |s|
    ensures |r| < |s| ==> p(s[|s| - 1])
    ensures r != [] ==> !p(r[|r| - 1])
  {
    if s == [] || !p(s[|s| - 1]) then s else RStrip(s[..|s| - 1], p)
  }

  /** `s.strip(chars)`. */
  function StripBy(s: string, p: char -> bool): (r: string)
    ensures r != [] ==> !p(r[0]) && !p(r[|r| - 1])
    ensures (s == [] || (!p(s[0]) && !p(s[|s| - 1]))) ==> r == s
  {
    RStripIsHead(LStrip(s, p), p);
    RStrip(LStrip(s, p), p)
  }

  lemma {:induction false} LStripIsTail(s: string, p: char -> bool)
    ensures LStrip(s, p) == s[|s| - |LStrip(s, p)|..]
  {
    if s != [] && p(s[0]) { LStripIsTail(s[1..], p); }
  }

  lemma {:induction false} LStripPast(gap: string, s: string, p: char -> bool)
    requires forall i | 0 <= i < |gap| :: p(gap[i])
    requires s == "" || !p(s[0])
    ensures LStrip(gap + s, p) == s
  {
    if gap == "" {
      assert gap + s == s;
    } else {
      assert (gap + s)[1..] == gap[1..] + s;
      LStripPast(gap[1..], s, p);
    }
  }

  lemma {:induction false} RStripIsHead(s: string, p: char -> bool)
    ensures RStrip(s, p) == s[..|RStrip(s, p)|]
  {
    if s != [] && p(s[|s| - 1]) { RStripIsHead(s[..|s| - 1], p); }
  }

  function Strip(s: string): (r: string)
    ensures r != [] ==> !IsSpace(r[0]) && !IsSpace(r[|r| - 1])
    ensures (s == [] || (!IsSpace(s[0]) && !IsSpace(s[|s| - 1]))) ==> r == s
  {
    StripBy(s, IsSpace)
  }

  /** `str.lower()`, exact as far as comparisons with ASCII text go (the Kelvin sign is the one
      character outside ASCII whose lower case is inside). */
  function LowerChar(c: char): char {
    if 'A' <= c <= 'Z' then (c as int + 32) as char
    else if c == '\U{212A}' then 'k' else c
  }

  function Lower(s: string): (r: string)
    ensures |r| == |s| && forall i | 0 <= i < |s| :: r[i] == LowerChar(s[i])
  {
    if s == [] then [] else [LowerChar(s[0])] + Lower(s[1..])
  }

  /** Lower case maps each capital to the small letter at its place in the alphabet, and keeps every text without
      capitals. */
  lemma LowerMeans(s: string)
    ensures forall i | 0 <= i < |s| && 'A' <= s[i] <= 'Z' ::
              'a' <= Lower(s)[i] <= 'z' && Lower(s)[i] as int - 'a' as int == s[i] as int - 'A' as int
    ensures (forall i | 0 <= i < |s| :: !('A' <= s[i] <= 'Z') && s[i] != '\U{212A}') ==> Lower(s) == s
  {
    hide Lower;
  }

  /** `a < b` for strings, by code point. */
  predicate LessText(a: string, b: string) {
    b != "" && (a == "" || a[0] < b[0] || (a[0] == b[0] && LessText(a[1..], b[1..])))
  }

  lemma {:induction false} LessTextOrder(a: string, b: string, c: string)
    ensures !LessText(a, a)
    ensures LessText(a, b) && LessText(b, c) ==> LessText(a, c)
    ensures !LessText(a, b) && !LessText(b, c) ==> !LessText(a, c)
    ensures LessText(a, b) || a == b || LessText(b, a)
  {
    if a != "" && b != "" && c != "" {
      LessTextOrder(a[1..], b[1..], c[1..]);
      assert a == [a[0]] + a[1..] && b == [b[0]] + b[1..];
    } else if a != "" && b != "" {
      LessTextOrder(a[1..], b[1..], c);
      assert a == [a[0]] + a[1..] && b == [b[0]] + b[1..];
    } else if a != "" {
      LessTextOrder(a[1..], b, c);
    }
  }

  /** `pat in s`. */
  predicate Contains(s: string, pat: string) {
    pat <= s || (s != [] && Contains(s[1..], pat))
  }

  lemma OnePrefix(a: char, s: string)
    ensures [a] <= s <==> s != "" && s[0] == a
  {
    if [a] <= s { assert s[..1] == [a]; }
  }

  lemma PairPrefix(a: char, b: char, s: string)
    ensures [a, b] <= s <==> |s| >= 2 && s[0] == a && s[1] == b
  {
    if [a, b] <= s { assert s[..2] == [a, b]; }
  }

  /** `s.replace(pat, rep)`: leftmost occurrences first, without overlaps. */
  function ReplaceAll(s: string, pat: string, rep: string): string
    requires pat != []
  {
    if s == [] then []
    else if pat <= s then rep + ReplaceAll(s[|pat|..], pat, rep)
    else [s[0]] + ReplaceAll(s[1..], pat, rep)
  }

  /** `s.split(sep)` for a one-character separator. */
  function Split(s: string, sep: char): (r: seq<string>)
    ensures r != []
    ensures forall line | line in r :: sep !in line
  {
    if s == [] then [[]]
    else
      var rest := Split(s[1..], sep);
      if s[0] == sep then [[]] + rest else [[s[0]] + rest[0]] + rest[1..]
  }

  /** `sep.join(lines)`. */
  function Join(lines: seq<string>, sep: string): string {
    if lines == [] then []
    else if |lines| == 1 then lines[0]
    else lines[0] + sep + Join(lines[1..], sep)
  }

  lemma {:induction false} JoinOfSplit(s: string, sep: char)
    ensures Join(Split(s, sep), [sep]) == s
  {
    if s != [] {
      JoinOfSplit(s[1..], sep);
      var rest := Split(s[1..], sep);
      if s[0] == sep {
        assert ([[]] + rest)[1..] == rest;
        assert s == [sep] + s[1..];
      } else {
        var all := [[s[0]] + rest[0]] + rest[1..];
        assert all[1..] == rest[1..];
        assert Join(all, [sep]) == [s[0]] + Join(rest, [sep]);
        assert s == [s[0]] + s[1..];
      }
    }
  }

  lemma {:induction false} SplitOfJoin(lines: seq<string>, sep: char)
    requires lines != [] && forall line | line in lines :: sep !in line
    ensures Split(Join(lines, [sep]), sep) == lines
  {
    if |lines| == 1 {
      SplitLine(lines[0], [], sep);
      assert lines[0] + [] == lines[0];
    } else {
      SplitOfJoin(lines[1..], sep);
      var rest := Join(lines[1..], [sep]);
      assert Join(lines, [sep]) == lines[0] + ([sep] + rest);
      SplitLine(lines[0], [sep] + rest, sep);
      assert ([sep] + rest)[1..] == rest;
      assert lines[0] + [] == lines[0];
      assert ([[]] + lines[1..])[1..] == lines[1..];
    }
  }

  /** Splitting brings in no character that was not there. */
  lemma {:induction false} SplitChars(s: string, sep: char, c: char)
    requires c !in s
    ensures forall line | line in Split(s, sep) :: c !in line
  {
    if s != [] { SplitChars(s[1..], sep, c); }
  }

  /** A separator-free line in front joins the first piece of what follows. */
  lemma {:induction false} SplitLine(line: string, rest: string, sep: char)
    requires sep !in line
    ensures Split(line + rest, sep) == [line + Split(rest, sep)[0]] + Split(rest, sep)[1..]
  {
    var pieces := Split(rest, sep);
    if line == [] {
      assert line + rest == rest;
      assert line + pieces[0] == pieces[0];
      assert Split(line + rest, sep) == [line + pieces[0]] + pieces[1..];
    } else {
      SplitLine(line[1..], rest, sep);
      assert (line + rest)[1..] == line[1..] + rest;
      assert line[0] in line;
      assert [line[0]] + (line[1..] + pieces[0]) == line + pieces[0];
      var tail := Split(line[1..] + rest, sep);
      assert tail[1..] == pieces[1..];
      assert Split(line + rest, sep) == [[line[0]] + tail[0]] + tail[1..];
    }
  }

  /** `Join` ends with its last line, and grows by one line at a time from the right. */
  lemma {:induction false} JoinSnoc(lines: seq<string>, last: string, sep: string)
    requires lines != []
    ensures Join(lines + [last], sep) == Join(lines, sep) + sep + last
  {
    if |lines| > 1 {
      assert (lines + [last])[1..] == lines[1..] + [last];
      JoinSnoc(lines[1..], last, sep);
    }
  }

  // One more character in front of the pieces.
  function Grow(c: char, sep: char, pieces: seq<string>): seq<string>
    requires pieces != []
  {
    if c == sep then [[]] + pieces else [[c] + pieces[0]] + pieces[1..]
  }

  lemma GrowBefore(c: char, sep: char, before: seq<string>, head: string, first: string, rest: seq<string>)
      returns (before': seq<string>, head': string)
    ensures Grow(c, sep, before + [head + first] + rest) == before' + [head' + first] + rest
    ensures Grow(c, sep, before + [head]) == before' + [head']
  {
    var all, front := before + [head + first] + rest, before + [head];
    if c == sep {
      before', head' := [[]] + before, head;
    } else if before == [] {
      before', head' := [], [c] + head;
      assert all[0] == head + first && all[1..] == rest && front[0] == head && front[1..] == [];
      assert [c] + (head + first) == ([c] + head) + first;
    } else {
      before', head' := [[c] + before[0]] + before[1..], head;
      assert all[1..] == before[1..] + [head + first] + rest && front[1..] == before[1..] + [head];
    }
  }

  /** Text in front changes at most how the first piece begins. */
  lemma {:induction false} SplitBehind(front: string, s: string, sep: char) returns (before: seq<string>, head: string)
    ensures var pieces := Split(s, sep);
            Split(front + s, sep) == before + [head + pieces[0]] + pieces[1..]
    ensures Split(front, sep) == before + [head]
  {
    hide Split, Grow;
    var pieces := Split(s, sep);
    if front == [] {
      assert front + s == s;
      before, head := [], [];
      assert head + pieces[0] == pieces[0] && pieces == [pieces[0]] + pieces[1..];
      SplitNone(sep);
    } else {
      before, head := SplitBehind(front[1..], s, sep);
      assert (front + s)[1..] == front[1..] + s;
      SplitCons(front, sep);
      SplitCons(front + s, sep);
      before, head := GrowBefore(front[0], sep, before, head, pieces[0], pieces[1..]);
    }
  }

  lemma SplitNone(sep: char)
    ensures Split("", sep) == [""]
  {}

  lemma SplitCons(s: string, sep: char)
    requires s != ""
    ensures Split(s, sep) == Grow(s[0], sep, Split(s[1..], sep))
  {}
}
