/** Reading a text file into memory and writing it back: byte order mark, encoding, newline style. */
module Snapshot {
  import opened Text
  import opened LineStyle
  import opened Utf8

  datatype TextSnapshot = TextSnapshot(content: string, hadBom: bool, newline: string, finalNewline: bool)

  /** Every leading mark goes. */
  function StripMarks(s: string): (r: string)
    ensures r == "" || r[0] != BOM_CHAR
  {
    if s != "" && s[0] == BOM_CHAR then StripMarks(s[1..]) else s
  }

  function DropMark(b: seq<Byte>): seq<Byte> {
    if BOM <= b then b[3..] else b
  }

  /** Bytes to text: one leading mark is set aside; if "utf-8" fails, "utf-8-sig" is tried. */
  function DecodeTextBytes(raw: seq<Byte>): Option<(string, bool)> {
    var body := DropMark(raw);
    match Decode(body)
    case Some(s) => Some((s, BOM <= raw))
    case None =>
      match Decode(DropMark(body))
      case Some(s) => Some((s, BOM <= raw))
      case None => None
  }

  function ReadSnapshot(raw: seq<Byte>): Option<TextSnapshot> {
    match DecodeTextBytes(raw)
    case None => None
    case Some((text, marked)) =>
      var content := StripMarks(text);
      var k := SplitKeepStyle(content);
      Some(TextSnapshot(JoinKeepStyle(k.lines, k.newline, k.finalNewline),
                        marked || content != text, k.newline, k.finalNewline))
  }

  function WriteText(content: string, keepBom: bool): seq<Byte> {
    (if keepBom then BOM else []) + Encode(StripMarks(content))
  }

  /** What a text reads as once it has been written to a file. */
  function Settle(content: string): string {
    Canonical(StripMarks(content))
  }

  // ---- Supporting lemmas ----

  /** The second codec never succeeds where the first one fails. */
  lemma FallbackIsIdle(b: seq<Byte>)
    ensures Decode(b) == None ==> Decode(DropMark(b)) == None
    ensures DecodeTextBytes(b) == match Decode(DropMark(b)) case None => None case Some(s) => Some((s, BOM <= b))
  {
    FallbackStep(b);
    FallbackStep(DropMark(b));
  }

  lemma FallbackStep(b: seq<Byte>)
    ensures Decode(b) == None ==> Decode(DropMark(b)) == None
  {
    if BOM <= b {
      assert b == BOM + b[3..];
      DecodeBom(b[3..]);
    }
  }

  lemma CanonicalKeepsFirst(c: string)
    requires c == [] || c[0] != BOM_CHAR
    ensures Canonical(c) == [] || Canonical(c)[0] != BOM_CHAR
  {
    CanonicalForm(c);
  }

  lemma EncodeInjective(a: string, b: string)
    requires Encode(a) == Encode(b)
    ensures a == b
  {
    DecodeOfEncode(a);
    DecodeOfEncode(b);
  }

  // ---- Main results ----

  /** A written text reads back as its settled form, with the byte order mark that was asked for. */
  lemma ReadBack(content: string, keepBom: bool)
    ensures var r := ReadSnapshot(WriteText(content, keepBom));
            r.Some? && r.value.content == Settle(content) && r.value.hadBom == keepBom
  {
    var c := StripMarks(content);
    var raw := WriteText(content, keepBom);
    FallbackIsIdle(raw);
    DecodeOfEncode(c);
    if keepBom {
      assert DropMark(raw) == Encode(c);
    } else {
      assert raw == Encode(c);
      if BOM <= raw {
        assert raw == BOM + raw[3..];
        DecodeBom(raw[3..]);
        assert false;
      }
    }
  }

  lemma SettleIdempotent(content: string)
    ensures Settle(Settle(content)) == Settle(content)
  {
    var c := StripMarks(content);
    CanonicalKeepsFirst(c);
    CanonicalIdempotent(c);
  }

  /** Snapshot content never changes when it is written and read again. */
  lemma SnapshotIsSettled(raw: seq<Byte>)
    requires ReadSnapshot(raw).Some?
    ensures Settle(ReadSnapshot(raw).value.content) == ReadSnapshot(raw).value.content
  {
    var (text, marked) := DecodeTextBytes(raw).value;
    SettleIdempotent(text);
  }

  /** The files that one restore reproduces byte for byte: at most one byte order mark, one newline style. */
  ghost predicate RestoresExactly(raw: seq<Byte>) {
    && !(BOM + BOM <= raw)
    && Decode(DropMark(raw)).Some?
    && Uniform(Decode(DropMark(raw)).value)
  }

  predicate Marked(t: string) { t != [] && t[0] == BOM_CHAR }

  function Lead(marked: bool): seq<Byte> {
    if marked then BOM else []
  }

  /** A decodable file is an optional mark followed by the encoding of its text. */
  lemma Parts(raw: seq<Byte>) returns (t: string)
    requires ReadSnapshot(raw).Some?
    ensures Decode(DropMark(raw)) == Some(t)
    ensures raw == Lead(BOM <= raw) + Encode(t)
    ensures ReadSnapshot(raw).value.content == Settle(t)
    ensures ReadSnapshot(raw).value.hadBom == (BOM <= raw)
    ensures Marked(t) ==> BOM <= raw
    ensures Marked(t) <==> BOM <= DropMark(raw)
  {
    FallbackIsIdle(raw);
    var b := DropMark(raw);
    t := Decode(b).value;
    EncodeOfDecode(b);
    MarkedIffBom(b);
  }

  lemma MarkedIffBom(b: seq<Byte>)
    requires Decode(b).Some?
    ensures Marked(Decode(b).value) <==> BOM <= b
  {
    DecodeBom(b);
    if BOM <= b {
      assert b == BOM + b[3..];
      DecodeBom(b[3..]);
    }
  }

  lemma SettledIffPlain(t: string)
    ensures Settle(t) == t <==> !Marked(t) && Uniform(t)
    ensures StripMarks(Settle(t)) == Settle(t)
  {
    CanonicalKeepsFirst(StripMarks(t));
    if !Marked(t) {
      assert StripMarks(t) == t;
      CanonicalIffUniform(t);
    }
  }

  /** Reading a file and writing it back gives the original bytes for exactly those files. */
  lemma RestoreIffExact(raw: seq<Byte>)
    requires ReadSnapshot(raw).Some?
    ensures var s := ReadSnapshot(raw).value;
            WriteText(s.content, s.hadBom) == raw <==> RestoresExactly(raw)
  {
    var t := Parts(raw);
    SettledIffPlain(t);
    var lead := Lead(BOM <= raw);
    assert WriteText(Settle(t), BOM <= raw) == lead + Encode(Settle(t));
    if lead + Encode(Settle(t)) == lead + Encode(t) {
      assert (lead + Encode(Settle(t)))[|lead|..] == (lead + Encode(t))[|lead|..];
      EncodeInjective(Settle(t), t);
    }
    DoubleMark(raw);
  }

  lemma DoubleMark(raw: seq<Byte>)
    ensures BOM + BOM <= raw <==> BOM <= raw && BOM <= DropMark(raw)
  {
    if BOM <= raw {
      assert raw == BOM + raw[3..];
      if BOM <= raw[3..] {
        assert raw == BOM + (BOM + raw[3..][3..]);
      }
    }
  }

  /** For every decodable file, one pass reaches bytes and a snapshot that no further pass changes. */
  lemma RestoreReachesFixedPoint(raw: seq<Byte>)
    requires ReadSnapshot(raw).Some?
    ensures var s := ReadSnapshot(raw).value;
            var raw' := WriteText(s.content, s.hadBom);
            && ReadSnapshot(raw').Some?
            && ReadSnapshot(raw').value.content == s.content
            && ReadSnapshot(raw').value.hadBom == s.hadBom
            && RestoresExactly(raw')
  {
    var s := ReadSnapshot(raw).value;
    ReadBack(s.content, s.hadBom);
    SnapshotIsSettled(raw);
    RestoreIffExact(WriteText(s.content, s.hadBom));
  }
}
