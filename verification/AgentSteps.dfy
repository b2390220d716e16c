/** Cutting one task into the explicit steps of a plan. */
module AgentSteps {
  import opened Text
  import opened TaskText
  import opened Transaction

  const STEP: string := "||STEP||"
  const SEMI: string := "; THEN ;"

  function GrowHead(c: char, pieces: seq<string>): (r: seq<string>)
    requires pieces != []
    ensures |r| == |pieces|
  {
    [[c] + pieces[0]] + pieces[1..]
  }

  /** `s.split(sep)`: leftmost occurrences first, without overlaps. */
  function SplitOn(s: string, sep: string): (r: seq<string>)
    requires sep != ""
    ensures r != []
    ensures s != "" && !(sep <= s) ==> r[0] != "" && r[0][0] == s[0]
  {
    if s == "" then [""]
    else if sep <= s then [""] + SplitOn(s[|sep|..], sep)
    else GrowHead(s[0], SplitOn(s[1..], sep))
  }

  /** How long the separator white space, "then" in any case, white space is at the start of `s`; 0 when
      it is not there. */
  function ThenLength(s: string): (n: nat)
    ensures n <= |s|
    ensures n > 0 ==> IsSpace(s[0])
  {
    var t := LStrip(s, IsSpace);
    if |t| < |s| && |t| > 4 && Lower(t[..4]) == "then" && IsSpace(t[4]) then |s| - |LStrip(t[4..], IsSpace)| else 0
  }

  /** `re.split` at that separator. */
  function SplitThen(s: string): (r: seq<string>)
    ensures r != []
    ensures s != "" && !IsSpace(s[0]) ==> r[0] != "" && r[0][0] == s[0]
    decreases |s|
  {
    if s == "" then [""]
    else if ThenLength(s) > 0 then [""] + SplitThen(s[ThenLength(s)..])
    else GrowHead(s[0], SplitThen(s[1..]))
  }

  /** The pieces, trimmed, without the blank ones. */
  function Kept(pieces: seq<string>): (r: seq<string>)
    ensures |r| <= |pieces|
  {
    if pieces == [] then []
    else (if Strip(pieces[0]) == "" then [] else [Strip(pieces[0])]) + Kept(pieces[1..])
  }

  function RawPieces(text: string): seq<string> {
    if Contains(text, STEP) then SplitOn(text, STEP)
    else if Contains(text, SEMI) then SplitOn(text, SEMI)
    else SplitThen(text)
  }

  function SplitAgentSteps(task: string): seq<string> {
    var text := Strip(task);
    if text == "" then []
    else
      var parts := Kept(RawPieces(text));
      if parts == [] then [text] else parts
  }

  // ---- Splitting undoes joining ----

  predicate Trimmed(s: string) { s != "" && !IsSpace(s[0]) && !IsSpace(s[|s| - 1]) }

  /** Where `sep` follows `s`, it does not begin any earlier. */
  predicate Clean(s: string, sep: string) { forall i | 0 <= i < |s| :: !(sep <= (s + sep)[i..]) }

  predicate CleanSteps(steps: seq<string>, sep: string)
    requires steps != []
  {
    && (forall i | 0 <= i < |steps| - 1 :: Clean(steps[i], sep))
    && !Contains(steps[|steps| - 1], sep)
  }

  lemma SplitOnStep(s: string, sep: string)
    requires sep != "" && s != ""
    ensures SplitOn(s, sep) == if sep <= s then [""] + SplitOn(s[|sep|..], sep) else GrowHead(s[0], SplitOn(s[1..], sep))
    ensures Contains(s, sep) <==> sep <= s || Contains(s[1..], sep)
  {}

  lemma {:induction false} SplitOnPlain(s: string, sep: string)
    requires sep != "" && !Contains(s, sep)
    ensures SplitOn(s, sep) == [s]
  {
    if s != "" {
      SplitOnPlain(s[1..], sep);
      assert s == [s[0]] + s[1..];
    }
  }

  lemma CleanTail(s: string, sep: string)
    requires s != "" && Clean(s, sep)
    ensures Clean(s[1..], sep) && !(sep <= s + sep)
  {
    assert (s + sep)[0..] == s + sep;
    forall i | 0 <= i < |s| - 1 ensures !(sep <= (s[1..] + sep)[i..]) {
      assert (s[1..] + sep)[i..] == (s + sep)[i + 1..];
    }
  }

  lemma AtSeparator(sep: string, rest: string)
    ensures var all := "" + sep + rest; sep <= all && all[|sep|..] == rest
  {
    assert "" + sep + rest == sep + rest;
  }

  lemma AtStep(s: string, sep: string, rest: string)
    requires s != ""
    ensures var all := s + sep + rest;
            all[0] == s[0] && all[1..] == s[1..] + sep + rest && (sep <= all <==> sep <= s + sep)
  {
    assert (s + sep + rest)[..|sep|] == (s + sep)[..|sep|];
  }

  lemma GrowSnipped(s: string, rest: seq<string>)
    requires s != ""
    ensures GrowHead(s[0], [s[1..]] + rest) == [s] + rest
  {
    assert [s[0]] + s[1..] == s;
  }

  lemma {:induction false} SplitOnClean(s: string, rest: string, sep: string)
    requires sep != "" && Clean(s, sep)
    ensures SplitOn(s + sep + rest, sep) == [s] + SplitOn(rest, sep)
  {
    hide SplitOn, Clean, GrowHead;
    var all := s + sep + rest;
    SplitOnStep(all, sep);
    if s == "" {
      AtSeparator(sep, rest);
    } else {
      CleanTail(s, sep);
      AtStep(s, sep, rest);
      SplitOnClean(s[1..], rest, sep);
      GrowSnipped(s, SplitOn(rest, sep));
    }
  }

  lemma {:induction false} SplitOfCleanJoin(steps: seq<string>, sep: string)
    requires sep != "" && steps != [] && CleanSteps(steps, sep)
    ensures SplitOn(Join(steps, sep), sep) == steps
  {
    if |steps| == 1 {
      SplitOnPlain(steps[0], sep);
    } else {
      SplitOfCleanJoin(steps[1..], sep);
      SplitOnClean(steps[0], Join(steps[1..], sep), sep);
    }
  }

  /** What `split` returns is clean, and joins back to the text. */
  lemma {:induction false} SplitOnIsClean(s: string, sep: string)
    requires sep != ""
    ensures CleanSteps(SplitOn(s, sep), sep) && Join(SplitOn(s, sep), sep) == s
  {
    hide SplitOn, GrowHead, Join, CleanSteps;
    if s == "" {
      CleanNone(sep);
    } else {
      SplitOnStep(s, sep);
      if sep <= s {
        SplitOnIsClean(s[|sep|..], sep);
        CleanFront(s, SplitOn(s[|sep|..], sep), sep);
      } else {
        SplitOnIsClean(s[1..], sep);
        GrowFirst(s, SplitOn(s[1..], sep), sep);
      }
    }
  }

  lemma CleanNone(sep: string)
    requires sep != ""
    ensures SplitOn("", sep) == [""] && CleanSteps([""], sep) && Join([""], sep) == ""
  {}

  lemma CleanFront(s: string, rest: seq<string>, sep: string)
    requires sep != "" && sep <= s && rest != [] && CleanSteps(rest, sep) && Join(rest, sep) == s[|sep|..]
    ensures CleanSteps([""] + rest, sep) && Join([""] + rest, sep) == s
  {
    hide Contains, Clean;
    var all := [""] + rest;
    assert all[1..] == rest && |all| >= 2 && all[|all| - 1] == rest[|rest| - 1];
    forall i | 0 <= i < |all| - 1 ensures Clean(all[i], sep) {
      if i > 0 { assert all[i] == rest[i - 1]; } else { CleanEmpty(sep); }
    }
    assert "" + sep + s[|sep|..] == s;
  }

  lemma CleanEmpty(sep: string)
    ensures Clean("", sep)
  {}

  lemma GrowFirst(s: string, rest: seq<string>, sep: string)
    requires sep != "" && s != "" && !(sep <= s) && rest != [] && CleanSteps(rest, sep) && Join(rest, sep) == s[1..]
    ensures var r := GrowHead(s[0], rest); CleanSteps(r, sep) && Join(r, sep) == s
  {
    var first := [s[0]] + rest[0];
    var r := [first] + rest[1..];
    assert r[1..] == rest[1..];
    if |rest| == 1 {
      assert first == s && first[1..] == rest[0];
    } else {
      assert rest[0] + sep + Join(rest[1..], sep) == s[1..];
      assert first + sep + Join(rest[1..], sep) == s;
      forall i | 0 <= i < |first| ensures !(sep <= (first + sep)[i..]) {
        if i == 0 {
          assert s[..|sep|] == (first + sep)[..|sep|];
          assert (first + sep)[0..] == first + sep;
        } else {
          assert (first + sep)[i..] == (rest[0] + sep)[i - 1..];
        }
      }
    }
  }

  lemma TrimmedStays(s: string)
    requires Trimmed(s)
    ensures Strip(s) == s
  {}

  lemma {:induction false} KeptTrimmed(steps: seq<string>)
    requires forall s | s in steps :: Trimmed(s)
    ensures Kept(steps) == steps
  {
    hide Strip;
    if steps != [] {
      assert steps[0] in steps;
      TrimmedStays(steps[0]);
      KeptTrimmed(steps[1..]);
    }
  }

  // The characters of all pieces together.
  function Size(pieces: seq<string>): nat { if pieces == [] then 0 else |pieces[0]| + Size(pieces[1..]) }

  lemma {:induction false} JoinSize(pieces: seq<string>, sep: string)
    requires pieces != []
    ensures |Join(pieces, sep)| == Size(pieces) + (|pieces| - 1) * |sep|
  {
    if |pieces| > 1 { JoinSize(pieces[1..], sep); }
  }

  lemma StripShrinks(s: string)
    ensures |Strip(s)| <= |s| && (|Strip(s)| == |s| ==> Strip(s) == s)
  {}

  lemma {:induction false} KeptShrinks(pieces: seq<string>)
    ensures Size(Kept(pieces)) <= Size(pieces)
    ensures |Kept(pieces)| == |pieces| && Size(Kept(pieces)) == Size(pieces) ==> Kept(pieces) == pieces
  {
    hide Strip, Kept, Size;
    if pieces == [] {
      NothingKept();
    } else {
      KeptShrinks(pieces[1..]);
      StripShrinks(pieces[0]);
      KeptStep(pieces);
      SizeStep(pieces[0], pieces[1..]);
      SizeStep(Strip(pieces[0]), Kept(pieces[1..]));
      assert pieces == [pieces[0]] + pieces[1..];
    }
  }

  lemma NothingKept()
    ensures Kept([]) == []
  {}

  lemma KeptStep(pieces: seq<string>)
    requires pieces != []
    ensures var s, rest := Strip(pieces[0]), Kept(pieces[1..]); Kept(pieces) == if s == "" then rest else [s] + rest
  {
    hide Strip;
    assert [] + Kept(pieces[1..]) == Kept(pieces[1..]);
  }

  lemma SizeStep(first: string, rest: seq<string>)
    ensures Size([first] + rest) == |first| + Size(rest)
  {
    assert ([first] + rest)[1..] == rest;
  }

  /** Nothing is lost in trimming only when there was nothing to trim. */
  lemma KeptSame(pieces: seq<string>, steps: seq<string>, sep: string)
    requires sep != "" && pieces != [] && steps != []
    requires Join(pieces, sep) == Join(steps, sep) && Kept(pieces) == steps
    ensures pieces == steps
  {
    hide Join, Kept;
    JoinSize(pieces, sep);
    JoinSize(steps, sep);
    KeptShrinks(pieces);
    if |steps| < |pieces| { Grows(|steps| - 1, |pieces| - 1, |sep|); }
  }

  lemma Grows(a: nat, b: nat, k: nat)
    requires a < b && k > 0
    ensures a * k < b * k
  {}

  lemma {:induction false} JoinEnds(steps: seq<string>, sep: string)
    requires steps != [] && forall s | s in steps :: Trimmed(s)
    ensures Trimmed(Join(steps, sep))
  {
    if |steps| > 1 {
      assert steps[0] in steps;
      JoinEnds(steps[1..], sep);
    } else {
      assert steps[0] in steps;
    }
  }

  lemma {:induction false} ContainsAt(s: string, pat: string, front: string, back: string)
    requires s == front + pat + back
    ensures Contains(s, pat)
  {
    if front == "" {
      assert s[..|pat|] == pat;
    } else {
      ContainsAt(s[1..], pat, front[1..], back);
    }
  }

  /** Splitting undoes joining, for two or more trimmed steps, exactly when no separator begins inside a
      step: not even one that the step's own end forms together with the separator behind it. */
  lemma StepsRoundTripIff(steps: seq<string>)
    requires |steps| >= 2 && forall s | s in steps :: Trimmed(s)
    ensures SplitAgentSteps(Join(steps, STEP)) == steps <==> CleanSteps(steps, STEP)
  {
    hide Strip, Join, Contains, Kept, SplitOn, CleanSteps, Trimmed;
    var text := Join(steps, STEP);
    JoinEnds(steps, STEP);
    TrimmedStays(text);
    JoinContains(steps, STEP);
    NotBlank(text);
    SplitOnIsClean(text, STEP);
    if CleanSteps(steps, STEP) {
      SplitOfCleanJoin(steps, STEP);
      KeptTrimmed(steps);
    }
    if SplitAgentSteps(text) == steps && Kept(SplitOn(text, STEP)) == steps {
      KeptSame(SplitOn(text, STEP), steps, STEP);
    }
  }

  /** The same for the second separator, in a text without the first one. */
  lemma SemiRoundTripIff(steps: seq<string>)
    requires |steps| >= 2 && (forall s | s in steps :: Trimmed(s)) && !Contains(Join(steps, SEMI), STEP)
    ensures SplitAgentSteps(Join(steps, SEMI)) == steps <==> CleanSteps(steps, SEMI)
  {
    hide Strip, Join, Contains, Kept, SplitOn, CleanSteps, Trimmed;
    var text := Join(steps, SEMI);
    JoinEnds(steps, SEMI);
    TrimmedStays(text);
    JoinContains(steps, SEMI);
    NotBlank(text);
    SplitOnIsClean(text, SEMI);
    if CleanSteps(steps, SEMI) {
      SplitOfCleanJoin(steps, SEMI);
      KeptTrimmed(steps);
    }
    if SplitAgentSteps(text) == steps && Kept(SplitOn(text, SEMI)) == steps {
      KeptSame(SplitOn(text, SEMI), steps, SEMI);
    }
  }

  // ---- The word "then" ----

  predicate Gap(s: string) { s != "" && forall i | 0 <= i < |s| :: IsSpace(s[i]) }

  /** White space, the word in upper or lower case, white space. */
  ghost predicate IsThen(sep: string) {
    exists before, word, behind | Gap(before) && Lower(word) == "then" && Gap(behind) :: sep == before + word + behind
  }

  lemma ThenInk(word: string, i: nat)
    requires Lower(word) == "then" && i < 4
    ensures |word| == 4 && !IsSpace(word[i])
  {
    assert Lower(word)[i] == LowerChar(word[i]) == "then"[i];
  }

  lemma ThenLengthMeans(sep: string, rest: string)
    requires IsThen(sep) && (rest == "" || !IsSpace(rest[0]))
    ensures ThenLength(sep + rest) == |sep| > 0
  {
    hide IsSpace, Lower;
    var before, word, behind :| Gap(before) && Lower(word) == "then" && Gap(behind) && sep == before + word + behind;
    ThenInk(word, 0);
    var t := word + behind + rest;
    assert sep + rest == before + t && t[0] == word[0];
    LStripPast(before, t, IsSpace);
    assert t[..4] == word && t[4] == behind[0] && t[4..] == behind + rest;
    LStripPast(behind, rest, IsSpace);
  }

  /** A separator that begins in a step that ends in ink does not reach behind the step's next character. */
  lemma ThenIsLocal(s: string, tail: string)
    requires s != "" && !IsSpace(s[|s| - 1]) && tail != "" && IsSpace(tail[0])
    ensures ThenLength(s + tail) > 0 <==> ThenLength(s + " ") > 0
  {
    hide IsSpace, Lower;
    var u := LStrip(s, IsSpace);
    LStripInk(s, IsSpace);
    LStripIsTail(s, IsSpace);
    var w := s[..|s| - |u|];
    StrippedOff(s, IsSpace);
    assert s + tail == w + (u + tail) && s + " " == w + (u + " ");
    LStripPast(w, u + tail, IsSpace);
    LStripPast(w, u + " ", IsSpace);
    BlankIsSpace();
    if |u| >= 4 {
      assert (u + tail)[..4] == u[..4] == (u + " ")[..4];
      assert IsSpace((u + tail)[4]) <==> |u| == 4 || IsSpace(u[4]);
      assert IsSpace((u + " ")[4]) <==> |u| == 4 || IsSpace(u[4]);
    } else if |u + tail| > 4 {
      if Lower((u + tail)[..4]) == "then" { ThenInk((u + tail)[..4], |u|); }
    }
  }

  lemma BlankIsSpace()
    ensures IsSpace(' ')
  {}

  lemma {:induction false} StrippedOff(s: string, p: char -> bool)
    ensures forall i | 0 <= i < |s| - |LStrip(s, p)| :: p(s[i])
  {
    if s != "" && p(s[0]) { StrippedOff(s[1..], p); }
  }

  /** No separator begins in the step, not even one that white space behind the step would complete. */
  predicate ClearOfThen(s: string) { forall i | 0 <= i < |s| :: ThenLength((s + " ")[i..]) == 0 }

  lemma {:induction false} SplitThenClean(s: string, sep: string, rest: string)
    requires (s == "" || !IsSpace(s[|s| - 1])) && ClearOfThen(s) && IsThen(sep)
    requires rest != "" && !IsSpace(rest[0])
    ensures SplitThen(s + sep + rest) == [s] + SplitThen(rest)
  {
    hide ThenLength, SplitThen, IsThen, IsSpace, GrowHead;
    var all := s + sep + rest;
    ThenLengthMeans(sep, rest);
    ThenBegins(sep, rest);
    if s == "" {
      assert all == sep + rest;
      SplitThenStep(all);
      assert all[|sep|..] == rest;
    } else {
      assert all == s + (sep + rest) && (sep + rest)[0] == sep[0];
      ThenIsLocal(s, sep + rest);
      assert (s + " ")[0..] == s + " ";
      SplitThenStep(all);
      assert all[0] == s[0] && all[1..] == s[1..] + sep + rest;
      forall i | 0 <= i < |s[1..]| ensures ThenLength((s[1..] + " ")[i..]) == 0 {
        assert (s[1..] + " ")[i..] == (s + " ")[i + 1..];
      }
      SplitThenClean(s[1..], sep, rest);
      GrowSnipped(s, SplitThen(rest));
    }
  }

  lemma ThenBegins(sep: string, rest: string)
    requires IsThen(sep)
    ensures sep != "" && IsSpace(sep[0])
  {
    var before, word, behind :| Gap(before) && Lower(word) == "then" && Gap(behind) && sep == before + word + behind;
    assert sep[0] == before[0];
  }

  /** The steps with a separator between each two. */
  function Weave(steps: seq<string>, seps: seq<string>): string
    requires |steps| == |seps| + 1
  {
    if seps == [] then steps[0] else steps[0] + seps[0] + Weave(steps[1..], seps[1..])
  }

  ghost predicate ClearSteps(steps: seq<string>)
    requires steps != []
  {
    && (forall i | 0 <= i < |steps| - 1 :: ClearOfThen(steps[i]))
    && !HasThen(steps[|steps| - 1])
  }

  lemma {:induction false} SplitOfWeave(steps: seq<string>, seps: seq<string>)
    requires |steps| == |seps| + 1 && (forall s | s in steps :: Trimmed(s)) && (forall sep | sep in seps :: IsThen(sep))
    requires ClearSteps(steps)
    ensures SplitThen(Weave(steps, seps)) == steps && Trimmed(Weave(steps, seps))
  {
    hide IsThen, ClearOfThen, HasThen, IsSpace, SplitThen;
    assert Trimmed(steps[0]);
    if seps == [] {
      SplitThenWhole(steps[0]);
    } else {
      var rest := Weave(steps[1..], seps[1..]);
      SplitOfWeave(steps[1..], seps[1..]);
      assert seps[0] in seps;
      SplitThenClean(steps[0], seps[0], rest);
      var all := steps[0] + seps[0] + rest;
      assert all[0] == steps[0][0] && all[|all| - 1] == rest[|rest| - 1];
    }
  }

  /** Trimmed steps parted by the word "then", in upper or lower case and with any white space around it, come back
      as those steps, when no such separator begins in one of them and neither of the others stands anywhere. */
  lemma ThenRoundTrip(steps: seq<string>, seps: seq<string>)
    requires |steps| == |seps| + 1 && (forall s | s in steps :: Trimmed(s)) && (forall sep | sep in seps :: IsThen(sep))
    requires ClearSteps(steps)
    requires var text := Weave(steps, seps); !Contains(text, STEP) && !Contains(text, SEMI)
    ensures SplitAgentSteps(Weave(steps, seps)) == steps
  {
    hide Strip, IsSpace, Contains, SplitThen, Kept, Weave, ClearSteps, IsThen, Trimmed;
    var text := Weave(steps, seps);
    SplitOfWeave(steps, seps);
    TrimmedStays(text);
    NotBlank(text);
    KeptTrimmed(steps);
  }

  lemma NotBlank(s: string)
    requires Trimmed(s)
    ensures s != ""
  {}

  lemma JoinContains(steps: seq<string>, sep: string)
    requires |steps| >= 2
    ensures Contains(Join(steps, sep), sep)
  {
    ContainsAt(Join(steps, sep), sep, steps[0], Join(steps[1..], sep));
  }

  /** Such a task then runs as the transaction of its steps. */
  lemma PlannedTransaction(env: Env, w: World, steps: seq<string>)
    requires |steps| >= 2 && (forall s | s in steps :: Trimmed(s)) && CleanSteps(steps, STEP)
    ensures var task := Join(steps, STEP);
            RunPlan(env, w, task, SplitAgentSteps(task)) == Together(RunTransaction(env, w, steps))
  {
    hide CleanSteps, Trimmed, SplitAgentSteps, Join, RunTransaction;
    StepsRoundTripIff(steps);
  }

  // ---- When a task stays whole ----

  ghost predicate HasThen(s: string) { exists i | 0 <= i < |s| :: ThenLength(s[i..]) > 0 }

  ghost predicate HasSeparator(s: string) { Contains(s, STEP) || Contains(s, SEMI) || HasThen(s) }

  lemma ThenTail(s: string)
    requires s != ""
    ensures HasThen(s) <==> ThenLength(s) > 0 || HasThen(s[1..])
  {
    hide ThenLength;
    assert s[0..] == s;
    forall i | 0 <= i < |s| - 1 ensures s[1..][i..] == s[i + 1..] {}
    if HasThen(s) {
      var i :| 0 <= i < |s| && ThenLength(s[i..]) > 0;
      if i > 0 { assert s[1..][i - 1..] == s[i..]; }
    }
  }

  lemma {:induction false} SplitThenWhole(s: string)
    requires !HasThen(s)
    ensures SplitThen(s) == [s]
  {
    hide ThenLength, HasThen;
    if s != "" {
      ThenTail(s);
      SplitThenWhole(s[1..]);
      assert s == [s[0]] + s[1..];
    }
  }

  lemma {:induction false} AllSpace(s: string)
    requires LStrip(s, IsSpace) == ""
    ensures forall c | c in s :: IsSpace(c)
  {
    if s != "" { AllSpace(s[1..]); }
  }

  /** The separator ends in white space, so it is not all of a text that does not. */
  lemma ThenIsNotAll(s: string)
    requires s != "" && !IsSpace(s[|s| - 1])
    ensures ThenLength(s) < |s|
  {
    hide Lower, IsSpace;
    var t := LStrip(s, IsSpace);
    LStripIsTail(s, IsSpace);
    if |t| > 4 && LStrip(t[4..], IsSpace) == "" {
      AllSpace(t[4..]);
      assert t[4..][|t| - 5] == s[|s| - 1];
    }
  }

  lemma SplitThenStep(s: string)
    requires s != ""
    ensures SplitThen(s) == if ThenLength(s) > 0 then [""] + SplitThen(s[ThenLength(s)..]) else GrowHead(s[0], SplitThen(s[1..]))
  {
    hide ThenLength;
  }

  lemma {:induction false} SplitThenCuts(s: string)
    requires s != "" && !IsSpace(s[|s| - 1])
    ensures HasThen(s) ==> |SplitThen(s)| >= 2
    ensures var last := SplitThen(s)[|SplitThen(s)| - 1]; last != "" && last[|last| - 1] == s[|s| - 1]
  {
    hide ThenLength, HasThen, IsSpace, SplitThen;
    ThenTail(s);
    ThenIsNotAll(s);
    SplitThenStep(s);
    if ThenLength(s) > 0 {
      SplitThenCuts(s[ThenLength(s)..]);
    } else if |s| > 1 {
      SplitThenCuts(s[1..]);
    } else {
      assert s[1..] == "";
      NoThen();
    }
  }

  lemma NoThen()
    ensures !HasThen("") && SplitThen("") == [""]
  {}

  lemma {:induction false} SplitOnCuts(s: string, sep: string)
    requires sep != "" && s != "" && s[|s| - 1] != sep[|sep| - 1]
    ensures Contains(s, sep) ==> |SplitOn(s, sep)| >= 2
    ensures var last := SplitOn(s, sep)[|SplitOn(s, sep)| - 1]; last != "" && last[|last| - 1] == s[|s| - 1]
  {
    hide SplitOn, Contains;
    SplitOnStep(s, sep);
    if sep <= s {
      assert s == sep + s[|sep|..];
      SplitOnCuts(s[|sep|..], sep);
    } else if |s| > 1 {
      SplitOnCuts(s[1..], sep);
    } else {
      assert s[1..] == "";
      NotInEmpty(sep);
    }
  }

  lemma NotInEmpty(sep: string)
    requires sep != ""
    ensures !Contains("", sep) && SplitOn("", sep) == [""]
  {}

  lemma {:induction false} RStripInk(s: string, p: char -> bool)
    requires s != "" && !p(s[0])
    ensures RStrip(s, p) != ""
  {
    if |s| > 1 { RStripInk(s[..|s| - 1], p); }
  }

  lemma {:induction false} LStripInk(s: string, p: char -> bool)
    requires s != "" && !p(s[|s| - 1])
    ensures LStrip(s, p) != ""
  {
    if |s| > 1 { LStripInk(s[1..], p); }
  }

  lemma StripInk(s: string)
    requires s != "" && (!IsSpace(s[0]) || !IsSpace(s[|s| - 1]))
    ensures Strip(s) != ""
  {
    hide IsSpace;
    var t := LStrip(s, IsSpace);
    if !IsSpace(s[|s| - 1]) { LStripInk(s, IsSpace); }
    RStripInk(t, IsSpace);
  }

  lemma {:induction false} KeptLast(pieces: seq<string>)
    requires pieces != [] && Strip(pieces[|pieces| - 1]) != ""
    ensures Kept(pieces) != []
  {
    hide Strip;
    if |pieces| > 1 { KeptLast(pieces[1..]); }
  }

  /** Two pieces that are not blank are kept. */
  lemma KeptEnds(pieces: seq<string>)
    requires |pieces| >= 2
    requires pieces[0] != "" && !IsSpace(pieces[0][0])
    requires var last := pieces[|pieces| - 1]; last != "" && !IsSpace(last[|last| - 1])
    ensures |Kept(pieces)| >= 2
  {
    hide Strip, IsSpace;
    StripInk(pieces[0]);
    StripInk(pieces[|pieces| - 1]);
    KeptLast(pieces[1..]);
  }

  predicate SepEdge(c: char) { c == '|' || c == ';' }

  lemma RawCuts(text: string)
    requires Trimmed(text) && !SepEdge(text[0]) && !SepEdge(text[|text| - 1]) && HasSeparator(text)
    ensures |Kept(RawPieces(text))| >= 2
  {
    hide IsSpace, Contains, HasThen, SplitOn, SplitThen, Kept;
    assert STEP[0] == '|' && STEP[7] == '|' && SEMI[0] == ';' && SEMI[7] == ';';
    if Contains(text, STEP) {
      SplitOnCuts(text, STEP);
    } else if Contains(text, SEMI) {
      SplitOnCuts(text, SEMI);
    } else {
      SplitThenCuts(text);
    }
    KeptEnds(RawPieces(text));
  }

  lemma {:induction false} SplitOnCount(s: string, sep: string)
    requires sep != "" && Contains(s, sep)
    ensures |SplitOn(s, sep)| >= 2
  {
    hide SplitOn, Contains;
    if s == "" {
      NotInEmpty(sep);
    } else {
      SplitOnStep(s, sep);
      if !(sep <= s) { SplitOnCount(s[1..], sep); }
    }
  }

  lemma GrowSize(c: char, pieces: seq<string>)
    requires pieces != []
    ensures Size(GrowHead(c, pieces)) == Size(pieces) + 1
  {
    assert GrowHead(c, pieces)[1..] == pieces[1..];
  }

  lemma EmptySize(pieces: seq<string>)
    ensures Size([""] + pieces) == Size(pieces)
  {
    assert ([""] + pieces)[1..] == pieces;
  }

  lemma {:induction false} SplitThenSize(s: string)
    ensures Size(SplitThen(s)) <= |s| && (HasThen(s) ==> Size(SplitThen(s)) < |s|)
    decreases |s|
  {
    hide ThenLength, HasThen, SplitThen, Size, GrowHead;
    if s == "" {
      NoThen();
      EmptySize([]);
      NoSize();
    } else {
      SplitThenStep(s);
      ThenTail(s);
      if ThenLength(s) > 0 {
        SplitThenSize(s[ThenLength(s)..]);
        EmptySize(SplitThen(s[ThenLength(s)..]));
      } else {
        SplitThenSize(s[1..]);
        GrowSize(s[0], SplitThen(s[1..]));
      }
    }
  }

  lemma NoSize()
    ensures Size([]) == 0 && [""] + [] == [""]
  {}

  /** A separator takes characters away from the pieces. */
  lemma SeparatedIsShorter(text: string)
    requires HasSeparator(text)
    ensures Size(RawPieces(text)) < |text|
  {
    hide Contains, HasThen, SplitOn, SplitThen, Size, Join;
    if Contains(text, STEP) {
      OnIsShorter(text, STEP);
    } else if Contains(text, SEMI) {
      OnIsShorter(text, SEMI);
    } else {
      SplitThenSize(text);
    }
  }

  lemma OnIsShorter(text: string, sep: string)
    requires sep != "" && Contains(text, sep)
    ensures Size(SplitOn(text, sep)) < |text|
  {
    hide Contains, SplitOn, Size, Join, CleanSteps;
    SplitOnCount(text, sep);
    SplitOnIsClean(text, sep);
    JoinSize(SplitOn(text, sep), sep);
    Grows(0, |SplitOn(text, sep)| - 1, |sep|);
  }

  /** A trimmed text is the one step it spells exactly when no separator stands anywhere in it, quoted or not,
      or nothing but separators and white space does. */
  lemma WholeIff(text: string)
    requires Trimmed(text)
    ensures SplitAgentSteps(text) == [text] <==> !HasSeparator(text) || Kept(RawPieces(text)) == []
  {
    hide Strip, IsSpace, HasSeparator, Kept, RawPieces, Size;
    TrimmedStays(text);
    NotBlank(text);
    var parts := Kept(RawPieces(text));
    if HasSeparator(text) {
      SeparatedIsShorter(text);
      KeptShrinks(RawPieces(text));
      SizeOne(text);
    } else {
      Unseparated(text);
    }
  }

  lemma SizeOne(s: string)
    ensures Size([s]) == |s|
  {
    assert [s][1..] == [] && Size([]) == 0;
  }

  lemma Unseparated(text: string)
    requires Trimmed(text) && !HasSeparator(text)
    ensures Kept(RawPieces(text)) == [text]
  {
    hide IsSpace, Contains, HasThen, SplitOn, SplitThen, Kept;
    SplitThenWhole(text);
    KeptTrimmed([text]);
  }

  /** Only a blank task has no steps, and white space around a task makes no difference. */
  lemma BlankHasNoSteps(task: string)
    ensures SplitAgentSteps(task) == [] <==> Strip(task) == ""
    ensures SplitAgentSteps(task) == SplitAgentSteps(Strip(task))
  {
    hide StripBy, RawPieces, Kept;
    assert Strip(Strip(task)) == Strip(task);
  }

  /** A text that neither begins nor ends with a separator's edge is cut in two or more by any separator. */
  lemma CutInside(text: string)
    requires Trimmed(text) && !SepEdge(text[0]) && !SepEdge(text[|text| - 1])
    ensures HasSeparator(text) ==> |SplitAgentSteps(text)| >= 2
    ensures !HasSeparator(text) ==> SplitAgentSteps(text) == [text]
  {
    hide Strip, IsSpace, HasSeparator, RawPieces, Kept;
    TrimmedStays(text);
    NotBlank(text);
    if HasSeparator(text) { RawCuts(text); } else { Unseparated(text); }
  }

  lemma PrintedIsTrimmed(path: string, oldText: string, newText: string)
    ensures var task := MakeReplaceTask(path, oldText, newText);
            Trimmed(task) && task[0] == 'M' && task[|task| - 1] == '\''
  {
    hide ReplaceAll;
  }

  /** So a printed replacement is the one step it spells exactly when none of the separators, in particular the
      word "then" between white space, stands in its path or texts, and is cut in two or more otherwise. */
  lemma PrintedStaysWholeIff(path: string, oldText: string, newText: string)
    ensures var task := MakeReplaceTask(path, oldText, newText);
            && (SplitAgentSteps(task) == [task] <==> !HasSeparator(task))
            && (HasSeparator(task) ==> |SplitAgentSteps(task)| >= 2)
  {
    hide HasSeparator, SplitAgentSteps, MakeReplaceTask;
    PrintedIsTrimmed(path, oldText, newText);
    CutInside(MakeReplaceTask(path, oldText, newText));
  }

  /** And then its plan runs as that one edit: when verification passes, the step succeeds with the edit, and
      nothing else but a backup, in the files. */
  lemma PrintedPlanRuns(env: Env, w: World, path: string, oldText: string, newText: string, start: nat)
    requires Printable(path, oldText, newText) && Ready(env, w, path, oldText, newText, start)
    requires !HasSeparator(MakeReplaceTask(path, oldText, newText))
    requires forall tick: nat, files: Files :: AllOk(env.verify(0, tick, files))
    ensures var task := MakeReplaceTask(path, oldText, newText);
            var r := RunPlan(env, w, task, SplitAgentSteps(task));
            && r == Alone(RunStep(env, 0, w, task))
            && r.step.status == StepOk && EditIsIn(env, w, r.step.world.files, path, oldText, newText, start)
  {
    hide HasSeparator, SplitAgentSteps, MakeReplaceTask, Ready, Printable, EditIsIn, RunStep, AllOk;
    PrintedStaysWholeIff(path, oldText, newText);
    PrintedEditRuns(env, 0, w, path, oldText, newText, start);
  }

  lemma {:induction false} QuoteAppend(a: string, b: string)
    ensures ShellQuote(a + b) == ShellQuote(a) + ShellQuote(b)
  {
    if a == "" {
      assert a + b == b;
    } else {
      QuoteAppend(a[1..], b);
      assert (a + b)[1..] == a[1..] + b;
      OnePrefix('\'', a);
      OnePrefix('\'', a + b);
    }
  }

  lemma ThenStands(back: string)
    ensures ThenLength(" then " + back) > 0
  {
    hide Lower;
    var s := " then " + back;
    var t := "then " + back;
    assert s[1..] == t && s[0] == ' ';
    LStripOne(s);
    assert t[..4] == "then";
    LowerThen();
    assert t[4] == ' ' && t[4..][0] == ' ';
  }

  lemma LStripOne(s: string)
    requires |s| >= 2 && s[0] == ' ' && s[1] == 't'
    ensures LStrip(s, IsSpace) == s[1..]
  {
    assert s[1..][0] == 't';
  }

  lemma LowerThen()
    ensures Lower("then") == "then"
  {
    hide Lower;
    forall i | 0 <= i < 4 ensures Lower("then")[i] == "then"[i] {}
  }

  lemma HasThenAt(front: string, back: string)
    ensures HasThen(front + " then " + back)
  {
    hide ThenLength;
    var s := front + " then " + back;
    ThenStands(back);
    assert s[|front|..] == " then " + back;
  }

  /** For one: an edit of any text with the word "then" in it is cut in two at that word. */
  lemma ThenIsCut(path: string, front: string, back: string, newText: string)
    ensures |SplitAgentSteps(MakeReplaceTask(path, front + " then " + back, newText))| >= 2
  {
    hide HasThen, SplitAgentSteps, ShellQuote, Contains;
    QuoteAppend(front + " then ", back);
    QuoteAppend(front, " then ");
    PlainThen();
    var task := MakeReplaceTask(path, front + " then " + back, newText);
    var before := "Modify " + path + ": replace '" + ShellQuote(front);
    var behind := ShellQuote(back) + "' with '" + ShellQuote(newText) + "'";
    assert task == before + " then " + behind;
    HasThenAt(before, behind);
    PrintedStaysWholeIff(path, front + " then " + back, newText);
  }

  lemma PlainThen()
    ensures ShellQuote(" then ") == " then "
  {
    hide ShellQuote;
    NoQuote(" then ");
  }

  lemma {:induction false} NoQuote(s: string)
    requires '\'' !in s
    ensures ShellQuote(s) == s
  {
    if s != "" {
      NoQuote(s[1..]);
      OnePrefix('\'', s);
      assert s == [s[0]] + s[1..];
    }
  }
}
