/** The UTF-8 encoding of text (RFC 3629), as strict as Python's "utf-8" codec. */
module Utf8 {
  import opened Text

  type Byte = b: int | 0 <= b < 256

  const BOM_CHAR: char := '\U{FEFF}'
  const BOM: seq<Byte> := [0xEF, 0xBB, 0xBF]

  function EncodeChar(c: char): (r: seq<Byte>)
    ensures 1 <= |r| <= 4
  {
    var v := c as int;
    if v < 0x80 then [v]
    else if v < 0x800 then [0xC0 + v / 64, 0x80 + v % 64]
    else if v < 0x10000 then [0xE0 + v / 64 / 64, 0x80 + v / 64 % 64, 0x80 + v % 64]
    else [0xF0 + v / 64 / 64 / 64, 0x80 + v / 64 / 64 % 64, 0x80 + v / 64 % 64, 0x80 + v % 64]
  }

  function Encode(s: string): seq<Byte> {
    if s == [] then [] else EncodeChar(s[0]) + Encode(s[1..])
  }

  predicate Trail(b: Byte) { 0x80 <= b < 0xC0 }

  /** The first character of a byte string and how many bytes it takes; overlong forms and
      surrogates are refused. */
  function DecodeChar(b: seq<Byte>): (r: Option<(char, nat)>)
    ensures r.Some? ==> 1 <= r.value.1 <= |b|
  {
    if b == [] then None
    else if b[0] < 0x80 then Some((b[0] as char, 1))
    else if 0xC2 <= b[0] < 0xE0 && |b| >= 2 && Trail(b[1]) then
      Some((((b[0] as int - 0xC0) * 64 + (b[1] as int - 0x80)) as char, 2))
    else if 0xE0 <= b[0] < 0xF0 && |b| >= 3 && Trail(b[1]) && Trail(b[2]) then
      var v := (b[0] as int - 0xE0) * 4096 + (b[1] as int - 0x80) * 64 + (b[2] as int - 0x80);
      if v < 0x800 || 0xD800 <= v < 0xE000 then None else Some((v as char, 3))
    else if 0xF0 <= b[0] < 0xF5 && |b| >= 4 && Trail(b[1]) && Trail(b[2]) && Trail(b[3]) then
      var v := (b[0] as int - 0xF0) * 262144 + (b[1] as int - 0x80) * 4096 + (b[2] as int - 0x80) * 64 + (b[3] as int - 0x80);
      if v < 0x10000 || v >= 0x110000 then None else Some((v as char, 4))
    else None
  }

  function Decode(b: seq<Byte>): Option<string> {
    if b == [] then Some([])
    else
      match DecodeChar(b)
      case None => None
      case Some((c, n)) =>
        match Decode(b[n..])
        case None => None
        case Some(rest) => Some([c] + rest)
  }

  /** The table of section 3 of RFC 3629: how many bytes a character takes, the marks of the first and of the
      following ones, and the bits of the character in them, the highest first. */
  lemma EncodeCharMeans(c: char)
    ensures var v, r := c as int, EncodeChar(c);
            && (|r| == 1 <==> v < 0x80) && (|r| == 2 <==> 0x80 <= v < 0x800)
            && (|r| == 3 <==> 0x800 <= v < 0x10000) && (|r| == 4 <==> 0x10000 <= v)
            && (forall i | 1 <= i < |r| :: 0x80 <= r[i] < 0xC0)
            && (|r| == 1 ==> v == r[0])
            && (|r| == 2 ==> 0xC0 <= r[0] < 0xE0 && v == (r[0] as int - 0xC0) * 64 + (r[1] as int - 0x80))
            && (|r| == 3 ==> 0xE0 <= r[0] < 0xF0 && v == ((r[0] as int - 0xE0) * 64 + (r[1] as int - 0x80)) * 64 + (r[2] as int - 0x80))
            && (|r| == 4 ==> 0xF0 <= r[0] < 0xF8 &&
                             v == (((r[0] as int - 0xF0) * 64 + (r[1] as int - 0x80)) * 64 + (r[2] as int - 0x80)) * 64 + (r[3] as int - 0x80))
  {
    Digits(c as int);
  }

  lemma DecodeCharOfEncode(c: char, rest: seq<Byte>)
    ensures DecodeChar(EncodeChar(c) + rest) == Some((c, |EncodeChar(c)|))
  {
    var b := EncodeChar(c) + rest;
    Digits(c as int);
    assert |EncodeChar(c)| >= 2 ==> b[1] == EncodeChar(c)[1];
    assert |EncodeChar(c)| >= 3 ==> b[2] == EncodeChar(c)[2];
    assert |EncodeChar(c)| >= 4 ==> b[3] == EncodeChar(c)[3];
  }

  lemma Digits(v: nat)
    ensures v == v / 64 * 64 + v % 64
    ensures v / 64 == v / 64 / 64 * 64 + v / 64 % 64
    ensures v / 64 / 64 == v / 64 / 64 / 64 * 64 + v / 64 / 64 % 64
  {}

  lemma EncodeCharOfDecode(b: seq<Byte>)
    requires DecodeChar(b).Some?
    ensures var (c, n) := DecodeChar(b).value; EncodeChar(c) == b[..n]
  {
    var (c, n) := DecodeChar(b).value;
    if n == 2 {
      Low(b[0] as int - 0xC0, b[1] as int - 0x80);
    } else if n == 3 {
      var high := (b[0] as int - 0xE0) * 64 + (b[1] as int - 0x80);
      assert c as int == high * 64 + (b[2] as int - 0x80);
      Low(high, b[2] as int - 0x80);
      Low(b[0] as int - 0xE0, b[1] as int - 0x80);
    } else if n == 4 {
      var top := (b[0] as int - 0xF0) * 64 + (b[1] as int - 0x80);
      var high := top * 64 + (b[2] as int - 0x80);
      assert c as int == high * 64 + (b[3] as int - 0x80);
      Low(high, b[3] as int - 0x80);
      Low(top, b[2] as int - 0x80);
      Low(b[0] as int - 0xF0, b[1] as int - 0x80);
    }
  }

  /** Cutting off the lowest six bits. */
  lemma Low(high: int, low: int)
    requires 0 <= low < 64 && high >= 0
    ensures (high * 64 + low) / 64 == high && (high * 64 + low) % 64 == low
  {}

  /** Decoding undoes encoding. */
  lemma {:induction false} DecodeOfEncode(s: string)
    ensures Decode(Encode(s)) == Some(s)
  {
    if s != [] {
      DecodeCharOfEncode(s[0], Encode(s[1..]));
      DecodeOfEncode(s[1..]);
      var b := Encode(s);
      assert b[|EncodeChar(s[0])|..] == Encode(s[1..]);
      assert [s[0]] + s[1..] == s;
    }
  }

  /** Encoding undoes decoding: a decodable byte string has one spelling. */
  lemma {:induction false} EncodeOfDecode(b: seq<Byte>)
    requires Decode(b).Some?
    ensures Encode(Decode(b).value) == b
  {
    if b != [] {
      hide DecodeChar, EncodeChar, Encode;
      assert b == b[..DecodeChar(b).value.1] + b[DecodeChar(b).value.1..];
      var (c, n) := DecodeChar(b).value;
      EncodeOfDecode(b[n..]);
      EncodeCons(c, Decode(b[n..]).value);
      EncodeCharOfDecode(b);
    }
  }

  lemma EncodeCons(c: char, s: string)
    ensures Encode([c] + s) == EncodeChar(c) + Encode(s)
  {
    assert ([c] + s)[1..] == s;
  }

  /** A leading byte order mark in the bytes is a leading mark in the text, and the other way round. */
  lemma DecodeBom(b: seq<Byte>)
    ensures DecodeChar(BOM + b) == Some((BOM_CHAR, 3))
    ensures Decode(BOM + b) == match Decode(b) case None => None case Some(s) => Some([BOM_CHAR] + s)
    ensures Decode(b).Some? && Decode(b).value != [] && Decode(b).value[0] == BOM_CHAR ==> BOM <= b
  {
    assert EncodeChar(BOM_CHAR) == BOM;
    DecodeCharOfEncode(BOM_CHAR, b);
    assert (BOM + b)[3..] == b;
    if Decode(b).Some? && Decode(b).value != [] && Decode(b).value[0] == BOM_CHAR {
      EncodeCharOfDecode(b);
    }
  }
}
