/** The fragment of Python's regular expressions that the patterns of controlled edits use: a sequence of items,
    matched from the start of the text by backtracking, up to the end anchor `$`. */
module Pattern {
  import opened Text

  datatype Item =
    | Lit(text: string)  // the text itself
    | Ws0                // \s*
    | Ws1                // \s+
    | Lazy               // .+? with DOTALL
    | Ident              // [A-Za-z_][A-Za-z0-9_]*
    | Quoted             // (?:\\'|[^'])*

  predicate IdentStart(c: char) { 'A' <= c <= 'Z' || 'a' <= c <= 'z' || c == '_' }

  predicate IdentChar(c: char) { IdentStart(c) || '0' <= c <= '9' }

  predicate AllSpace(s: string) { forall i | 0 <= i < |s| :: IsSpace(s[i]) }

  predicate IsIdent(s: string) {
    s != "" && IdentStart(s[0]) && forall i | 0 <= i < |s| :: IdentChar(s[i])
  }

  /** Every apostrophe has a backslash right in front of it. */
  predicate Escaped(s: string) {
    forall i | 0 <= i < |s| :: s[i] == '\'' ==> EscapedAt(s, i)
  }

  predicate EscapedAt(s: string, i: nat)
    requires i < |s|
  {
    i > 0 && s[i - 1] == '\\'
  }

  /** The pieces of text that an item stands for. */
  predicate Accepts(item: Item, piece: string) {
    match item
    case Lit(t) => piece == t
    case Ws0 => AllSpace(piece)
    case Ws1 => AllSpace(piece) && piece != ""
    case Lazy => piece != ""
    case Ident => IsIdent(piece)
    case Quoted => Escaped(piece)
  }

  // ---- The engine ----

  /** The length of the longest prefix whose characters all satisfy `p`. */
  function Span(s: string, p: char -> bool): (n: nat)
    ensures n <= |s|
    ensures forall i | 0 <= i < n :: p(s[i])
    ensures n < |s| ==> !p(s[n])
  {
    if s == "" || !p(s[0]) then 0 else 1 + Span(s[1..], p)
  }

  /** A greedy item tries the longest piece first. */
  function Down(hi: nat, lo: nat): (r: seq<nat>)
    ensures forall k: nat :: k in r <==> lo <= k <= hi
  {
    if hi < lo then [] else if hi == 0 then [0] else [hi] + Down(hi - 1, lo)
  }

  /** A lazy item tries the shortest piece first. */
  function Up(lo: nat, hi: nat): (r: seq<nat>)
    ensures forall k: nat :: k in r <==> lo <= k <= hi
    decreases hi + 1 - lo
  {
    if hi < lo then [] else [lo] + Up(lo + 1, hi)
  }

  function Shift(r: seq<nat>, d: nat): (q: seq<nat>)
    ensures forall k: nat :: k in q <==> k >= d && k - d in r
  {
    if r == [] then [] else [r[0] + d] + Shift(r[1..], d)
  }

  /** The greedy loop over "an escaped apostrophe, or any character but an apostrophe". */
  function QuotedEnds(s: string): seq<nat> {
    (if "\\'" <= s then Shift(QuotedEnds(s[2..]), 2) else [])
    + (if s != "" && s[0] != '\'' then Shift(QuotedEnds(s[1..]), 1) else [])
    + [0]
  }

  /** The lengths of the pieces an item can take from the front of `s`, in the order they are tried. */
  function Ends(item: Item, s: string): seq<nat> {
    match item
    case Lit(t) => if t <= s then [|t|] else []
    case Ws0 => Down(Span(s, IsSpace), 0)
    case Ws1 => Down(Span(s, IsSpace), 1)
    case Lazy => Up(1, |s|)
    case Ident => if s != "" && IdentStart(s[0]) then Down(Span(s, IdentChar), 1) else []
    case Quoted => QuotedEnds(s)
  }

  /** The piece taken by each item from item `i` on, in the first way that works. */
  function MatchFrom(items: seq<Item>, i: nat, s: string): (r: Option<seq<string>>)
    requires i <= |items|
    decreases |items| - i, 1, 0
  {
    if i == |items| then (if s == "" || s == "\n" then Some([]) else None)
    else TryEnds(items, i, s, Ends(items[i], s))
  }

  function TryEnds(items: seq<Item>, i: nat, s: string, ends: seq<nat>): (r: Option<seq<string>>)
    requires i < |items|
    decreases |items| - i, 0, |ends|
  {
    if ends == [] then None
    else if ends[0] > |s| then TryEnds(items, i, s, ends[1..])
    else
      match MatchFrom(items, i + 1, s[ends[0]..])
      case Some(rest) => Some([s[..ends[0]]] + rest)
      case None => TryEnds(items, i, s, ends[1..])
  }

  // ---- What the engine finds ----

  lemma EscapedStep(x: string)
    requires x != ""
    ensures Escaped(x) <==> x[0] != '\'' && if |x| >= 2 && x[1] == '\'' then x[0] == '\\' && Escaped(x[2..]) else Escaped(x[1..])
  {
    var d := if |x| >= 2 && x[1] == '\'' then 2 else 1;
    var t := x[d..];
    if Escaped(x) {
      assert |x| >= 2 && x[1] == '\'' ==> EscapedAt(x, 1);
      forall i | 0 <= i < |t| && t[i] == '\'' ensures EscapedAt(t, i) {
        assert x[i + d] == '\'' && EscapedAt(x, i + d);
        assert i > 0 ==> t[i - 1] == x[i + d - 1];
      }
    }
    if x[0] != '\'' && Escaped(t) && (d == 2 ==> x[0] == '\\') {
      forall i | 0 <= i < |x| && x[i] == '\'' ensures EscapedAt(x, i) {
        if i >= d { assert t[i - d] == '\'' && EscapedAt(t, i - d); }
      }
    }
  }

  lemma QuotedUnfold(s: string)
    ensures QuotedEnds(s) ==
            (if "\\'" <= s then Shift(QuotedEnds(s[2..]), 2) else [])
            + (if s != "" && s[0] != '\'' then Shift(QuotedEnds(s[1..]), 1) else [])
            + [0]
  {}

  lemma QuotedMember(s: string, k: nat)
    ensures k in QuotedEnds(s) <==>
            || k == 0
            || (|s| >= 2 && s[0] == '\\' && s[1] == '\'' && k >= 2 && k - 2 in QuotedEnds(s[2..]))
            || (s != "" && s[0] != '\'' && k >= 1 && k - 1 in QuotedEnds(s[1..]))
  {
    hide Shift, QuotedEnds;
    QuotedUnfold(s);
    PairPrefix('\\', '\'', s);
    var escaped := if "\\'" <= s then Shift(QuotedEnds(s[2..]), 2) else [];
    var single := if s != "" && s[0] != '\'' then Shift(QuotedEnds(s[1..]), 1) else [];
    assert k in escaped + single + [0] <==> k in escaped || k in single || k == 0;
  }

  lemma {:induction false} EscapedPrefixes(s: string, k: nat)
    ensures k in QuotedEnds(s) <==> k <= |s| && Escaped(s[..k])
    decreases |s|
  {
    QuotedMember(s, k);
    if k > 0 && s != "" {
      EscapedPrefixes(s[1..], k - 1);
      if |s| >= 2 && k >= 2 { EscapedPrefixes(s[2..], k - 2); }
      if k <= |s| { EscapedPrefixStep(s, k); }
    }
  }

  lemma EscapedPrefixStep(s: string, k: nat)
    requires 0 < k <= |s|
    ensures Escaped(s[..k]) <==>
            || (k >= 2 && s[0] == '\\' && s[1] == '\'' && Escaped(s[2..][..k - 2]))
            || (s[0] != '\'' && Escaped(s[1..][..k - 1]))
  {
    var x := s[..k];
    EscapedStep(x);
    assert x[1..] == s[1..][..k - 1];
    if k >= 2 {
      assert x[2..] == s[2..][..k - 2];
      if x[1] == '\'' { EscapedStep(x[1..]); }
    }
  }

  lemma SpanPrefixes(s: string, p: char -> bool, k: nat)
    ensures k <= Span(s, p) <==> k <= |s| && forall i | 0 <= i < k :: p(s[..k][i])
  {
    if k <= |s| {
      assert forall i | 0 <= i < k :: s[..k][i] == s[i];
    }
  }

  /** The engine tries exactly the prefixes that the item accepts. */
  lemma EndsAreAccepted(item: Item, s: string, k: nat)
    ensures k in Ends(item, s) <==> k <= |s| && Accepts(item, s[..k])
  {
    match item
    case Lit(t) =>
    case Ws0 => SpanPrefixes(s, IsSpace, k);
    case Ws1 => SpanPrefixes(s, IsSpace, k);
    case Lazy =>
    case Ident => SpanPrefixes(s, IdentChar, k);
    case Quoted => EscapedPrefixes(s, k);
  }

  function Cat(pieces: seq<string>): string {
    if pieces == [] then "" else pieces[0] + Cat(pieces[1..])
  }

  /** The pieces fit the items from item `i` on and make up the text, up to the end anchor. */
  ghost predicate Fits(items: seq<Item>, i: nat, pieces: seq<string>, s: string)
    requires i <= |items|
  {
    && |pieces| == |items| - i
    && (forall j | 0 <= j < |pieces| :: Accepts(items[i + j], pieces[j]))
    && (s == Cat(pieces) || s == Cat(pieces) + "\n")
  }

  lemma {:induction false} MatchSound(items: seq<Item>, i: nat, s: string)
    requires i <= |items| && MatchFrom(items, i, s).Some?
    ensures Fits(items, i, MatchFrom(items, i, s).value, s)
    decreases |items| - i, 1, 0
  {
    if i < |items| {
      forall k | k in Ends(items[i], s) ensures k <= |s| && Accepts(items[i], s[..k]) {
        EndsAreAccepted(items[i], s, k);
      }
      TrySound(items, i, s, Ends(items[i], s));
    }
  }

  lemma {:induction false} TrySound(items: seq<Item>, i: nat, s: string, ends: seq<nat>)
    requires i < |items| && TryEnds(items, i, s, ends).Some?
    requires forall k | k in ends :: k <= |s| && Accepts(items[i], s[..k])
    ensures Fits(items, i, TryEnds(items, i, s, ends).value, s)
    decreases |items| - i, 0, |ends|
  {
    assert ends[0] in ends;
    var tail := s[ends[0]..];
    if MatchFrom(items, i + 1, tail).Some? {
      MatchSound(items, i + 1, tail);
      var rest := MatchFrom(items, i + 1, tail).value;
      FitsCons(items, i, s[..ends[0]], rest, tail);
      assert s == s[..ends[0]] + tail;
    } else {
      forall k | k in ends[1..] ensures k <= |s| && Accepts(items[i], s[..k]) {
        assert k in ends;
      }
      TrySound(items, i, s, ends[1..]);
    }
  }

  lemma FitsCons(items: seq<Item>, i: nat, piece: string, rest: seq<string>, tail: string)
    requires i < |items| && Accepts(items[i], piece) && Fits(items, i + 1, rest, tail)
    ensures Fits(items, i, [piece] + rest, piece + tail)
  {
    var all := [piece] + rest;
    assert all[1..] == rest;
    forall j | 0 <= j < |all| ensures Accepts(items[i + j], all[j]) {
      if j > 0 { assert Accepts(items[i + 1 + (j - 1)], rest[j - 1]); }
    }
    assert tail == Cat(rest) + "\n" ==> piece + tail == Cat(all) + "\n";
  }

  /** Backtracking finds a match whenever there is one. */
  lemma {:induction false} MatchComplete(items: seq<Item>, i: nat, pieces: seq<string>, s: string)
    requires i <= |items| && Fits(items, i, pieces, s)
    ensures MatchFrom(items, i, s).Some?
    decreases |items| - i, 1, 0
  {
    if i < |items| {
      var k := |pieces[0]|;
      assert s[..k] == pieces[0] && (s[k..] == Cat(pieces[1..]) || s[k..] == Cat(pieces[1..]) + "\n");
      assert Accepts(items[i + 0], pieces[0]);
      EndsAreAccepted(items[i], s, k);
      forall j | 0 <= j < |pieces[1..]| ensures Accepts(items[i + 1 + j], pieces[1..][j]) {
        assert Accepts(items[i + (j + 1)], pieces[j + 1]);
      }
      MatchComplete(items, i + 1, pieces[1..], s[k..]);
      TryComplete(items, i, s, Ends(items[i], s), k);
    }
  }

  lemma {:induction false} TryComplete(items: seq<Item>, i: nat, s: string, ends: seq<nat>, k: nat)
    requires i < |items| && k in ends && k <= |s|
    requires MatchFrom(items, i + 1, s[k..]).Some?
    ensures TryEnds(items, i, s, ends).Some?
  {
    if ends[0] != k { TryComplete(items, i, s, ends[1..], k); }
  }

  // ---- Which match is found ----

  /** Whether an item tries a piece of length `a` before one of length `b`. */
  predicate Sooner(item: Item, a: nat, b: nat) { if item.Lazy? then a < b else a > b }

  ghost predicate InOrder(item: Item, ends: seq<nat>) {
    forall a, b | 0 <= a < b < |ends| :: Sooner(item, ends[a], ends[b])
  }

  ghost predicate Falling(r: seq<nat>) { forall a, b | 0 <= a < b < |r| :: r[a] > r[b] }

  ghost predicate Rising(r: seq<nat>) { forall a, b | 0 <= a < b < |r| :: r[a] < r[b] }

  lemma InFront(n: nat, rest: seq<nat>)
    ensures Falling(rest) && (forall k | k in rest :: k < n) ==> Falling([n] + rest)
    ensures Rising(rest) && (forall k | k in rest :: n < k) ==> Rising([n] + rest)
  {
    var r := [n] + rest;
    forall b | 0 < b < |r| ensures r[b] == rest[b - 1] && r[b] in rest {}
  }

  lemma {:induction false} DownOrder(hi: nat, lo: nat)
    ensures Falling(Down(hi, lo))
  {
    if 0 < hi && lo <= hi {
      DownOrder(hi - 1, lo);
      InFront(hi, Down(hi - 1, lo));
    }
  }

  lemma {:induction false} UpOrder(lo: nat, hi: nat)
    ensures Rising(Up(lo, hi))
    decreases hi + 1 - lo
  {
    if lo <= hi {
      UpOrder(lo + 1, hi);
      InFront(lo, Up(lo + 1, hi));
    }
  }

  lemma {:induction false} ShiftAt(r: seq<nat>, d: nat)
    ensures |Shift(r, d)| == |r| && forall a | 0 <= a < |r| :: Shift(r, d)[a] == r[a] + d
  {
    if r != [] { ShiftAt(r[1..], d); }
  }

  lemma QuotedNone(s: string)
    requires s == "" || s[0] == '\''
    ensures QuotedEnds(s) == [0]
  {
    PairPrefix('\\', '\'', s);
  }

  lemma {:induction false} QuotedOrder(s: string)
    ensures Falling(QuotedEnds(s))
    ensures QuotedEnds(s) != [] && QuotedEnds(s)[|QuotedEnds(s)| - 1] == 0
    decreases |s|
  {
    hide QuotedEnds, Shift;
    QuotedUnfold(s);
    PairPrefix('\\', '\'', s);
    if s != "" && s[0] != '\'' {
      QuotedOrder(s[1..]);
      ShiftAt(QuotedEnds(s[1..]), 1);
      if "\\'" <= s {
        QuotedOrder(s[2..]);
        ShiftAt(QuotedEnds(s[2..]), 2);
        QuotedNone(s[1..]);
      }
    } else {
      QuotedNone(s);
    }
  }

  lemma GreedyOrder(item: Item, hi: nat, lo: nat)
    requires !item.Lazy?
    ensures InOrder(item, Down(hi, lo))
  {
    DownOrder(hi, lo);
  }

  lemma EndsInOrder(item: Item, s: string)
    ensures InOrder(item, Ends(item, s))
  {
    hide Down, Up, QuotedEnds, Span;
    match item
    case Lit(t) =>
    case Ws0 => GreedyOrder(item, Span(s, IsSpace), 0);
    case Ws1 => GreedyOrder(item, Span(s, IsSpace), 1);
    case Lazy =>
      UpOrder(1, |s|);
    case Ident => GreedyOrder(item, Span(s, IdentChar), 1);
    case Quoted => QuotedOrder(s);
  }

  /** Where two lists of pieces first differ, the first one has what its item tries sooner. */
  ghost predicate Preferred(items: seq<Item>, i: nat, p: seq<string>, q: seq<string>)
    requires i + |p| <= |items| && |q| == |p|
  {
    p == q || exists j | 0 <= j < |p| :: p[..j] == q[..j] && Sooner(items[i + j], |p[j]|, |q[j]|)
  }

  /** Backtracking finds the first match there is: of all ways to cut the text, the one in which, item by item, white
      space, identifiers and quoted texts are as long, and paths as short, as the items before them leave them. */
  lemma {:induction false} MatchIsFirst(items: seq<Item>, i: nat, q: seq<string>, s: string)
    requires i <= |items| && Fits(items, i, q, s)
    ensures MatchFrom(items, i, s).Some?
    ensures var p := MatchFrom(items, i, s).value; |p| == |q| == |items| - i && Preferred(items, i, p, q)
    decreases |items| - i
  {
    hide Ends, Accepts;
    MatchComplete(items, i, q, s);
    MatchSound(items, i, s);
    if i < |items| {
      EndsInOrder(items[i], s);
      var k := |q[0]|;
      FitsTail(items, i, q, s);
      EndsAreAccepted(items[i], s, k);
      MatchComplete(items, i + 1, q[1..], s[k..]);
      forall e | e in Ends(items[i], s) ensures e <= |s| { EndsAreAccepted(items[i], s, e); }
      var n := FirstEnd(items, i, s, Ends(items[i], s), k);
      var p := MatchFrom(items, i, s).value;
      if n == k {
        MatchIsFirst(items, i + 1, q[1..], s[k..]);
        PreferredCons(items, i, p, q);
      } else {
        assert p[..0] == q[..0] && Sooner(items[i + 0], |p[0]|, |q[0]|);
      }
    }
  }

  lemma FitsTail(items: seq<Item>, i: nat, q: seq<string>, s: string)
    requires i < |items| && Fits(items, i, q, s)
    ensures var k := |q[0]|;
            k <= |s| && s[..k] == q[0] && Accepts(items[i], s[..k]) && Fits(items, i + 1, q[1..], s[k..])
  {
    var k := |q[0]|;
    assert s[..k] == q[0] && (s[k..] == Cat(q[1..]) || s[k..] == Cat(q[1..]) + "\n");
    assert Accepts(items[i + 0], q[0]);
    forall j | 0 <= j < |q[1..]| ensures Accepts(items[i + 1 + j], q[1..][j]) {
      assert Accepts(items[i + (j + 1)], q[j + 1]);
    }
  }

  /** The end that is taken comes no later in the list than one that works. */
  lemma {:induction false} FirstEnd(items: seq<Item>, i: nat, s: string, ends: seq<nat>, k: nat) returns (n: nat)
    requires i < |items| && k in ends && k <= |s| && InOrder(items[i], ends)
    requires forall e | e in ends :: e <= |s|
    requires MatchFrom(items, i + 1, s[k..]).Some?
    ensures n <= |s| && (n == k || Sooner(items[i], n, k)) && MatchFrom(items, i + 1, s[n..]).Some?
    ensures TryEnds(items, i, s, ends) == Some([s[..n]] + MatchFrom(items, i + 1, s[n..]).value)
  {
    assert ends[0] in ends;
    if MatchFrom(items, i + 1, s[ends[0]..]).Some? {
      n := ends[0];
      var a :| 0 <= a < |ends| && ends[a] == k;
      assert a > 0 ==> Sooner(items[i], ends[0], ends[a]);
    } else {
      var rest := ends[1..];
      forall a, b | 0 <= a < b < |rest| ensures Sooner(items[i], rest[a], rest[b]) {
        assert rest[a] == ends[a + 1] && rest[b] == ends[b + 1];
      }
      forall e | e in rest ensures e <= |s| { assert e in ends; }
      n := FirstEnd(items, i, s, rest, k);
    }
  }

  lemma PreferredCons(items: seq<Item>, i: nat, p: seq<string>, q: seq<string>)
    requires i + |p| <= |items| && |p| == |q| > 0 && p[0] == q[0] && Preferred(items, i + 1, p[1..], q[1..])
    ensures Preferred(items, i, p, q)
  {
    if p[1..] == q[1..] {
      assert p == [p[0]] + p[1..] && q == [q[0]] + q[1..];
    } else {
      var j :| 0 <= j < |p[1..]| && p[1..][..j] == q[1..][..j] && Sooner(items[i + 1 + j], |p[1..][j]|, |q[1..][j]|);
      assert p[..j + 1] == [p[0]] + p[1..][..j] && q[..j + 1] == [q[0]] + q[1..][..j];
      assert Sooner(items[i + (j + 1)], |p[j + 1]|, |q[j + 1]|);
    }
  }

  lemma {:induction false} CatAppend(a: seq<string>, b: seq<string>)
    ensures Cat(a + b) == Cat(a) + Cat(b)
  {
    if a == [] {
      assert a + b == b;
    } else {
      assert (a + b)[1..] == a[1..] + b;
      CatAppend(a[1..], b);
    }
  }
}
