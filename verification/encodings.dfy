/**
 * Bytes and the text encodings the CSV and text tools try: which byte strings
 * UTF-8 accepts (the well-formed sequences of section 4 of RFC 3629), which
 * cp1252 accepts (every byte but five unassigned ones), and the byte-order marks.
 */
module Encodings {
  import opened Text

  type Byte = x: int | 0 <= x < 256

  datatype Encoding = Utf8Sig | Utf8 | Utf16Le | Utf16Be | Utf32Le | Utf32Be | Cp1252 | Latin1

  const Utf8Bom: seq<Byte> := [0xEF, 0xBB, 0xBF]
  const Utf32LeBom: seq<Byte> := [0xFF, 0xFE, 0x00, 0x00]
  const Utf32BeBom: seq<Byte> := [0x00, 0x00, 0xFE, 0xFF]
  const Utf16LeBom: seq<Byte> := [0xFF, 0xFE]
  const Utf16BeBom: seq<Byte> := [0xFE, 0xFF]

  predicate InRange(b: Byte, lo: Byte, hi: Byte)
  {
    lo <= b <= hi
  }

  predicate Tail(b: Byte)
  {
    InRange(b, 0x80, 0xBF)
  }

  /**
   * The length of the well-formed UTF-8 character at the start of `b`, or 0 when
   * `b` does not start with one.
   */
  function Utf8CharLength(b: seq<Byte>): (n: nat)
    ensures n <= 4 && n <= |b|
  {
    if |b| == 0 then 0
    else if b[0] <= 0x7F then 1
    else if InRange(b[0], 0xC2, 0xDF) then
      if |b| >= 2 && Tail(b[1]) then 2 else 0
    else if b[0] == 0xE0 then
      if |b| >= 3 && InRange(b[1], 0xA0, 0xBF) && Tail(b[2]) then 3 else 0
    else if InRange(b[0], 0xE1, 0xEC) || InRange(b[0], 0xEE, 0xEF) then
      if |b| >= 3 && Tail(b[1]) && Tail(b[2]) then 3 else 0
    else if b[0] == 0xED then
      if |b| >= 3 && InRange(b[1], 0x80, 0x9F) && Tail(b[2]) then 3 else 0
    else if b[0] == 0xF0 then
      if |b| >= 4 && InRange(b[1], 0x90, 0xBF) && Tail(b[2]) && Tail(b[3]) then 4 else 0
    else if InRange(b[0], 0xF1, 0xF3) then
      if |b| >= 4 && Tail(b[1]) && Tail(b[2]) && Tail(b[3]) then 4 else 0
    else if b[0] == 0xF4 then
      if |b| >= 4 && InRange(b[1], 0x80, 0x8F) && Tail(b[2]) && Tail(b[3]) then 4 else 0
    else 0
  }

  /** A strict UTF-8 decoder accepts `b`: it is a run of well-formed characters. */
  predicate ValidUtf8(b: seq<Byte>)
    decreases |b|
  {
    b == [] || (Utf8CharLength(b) > 0 && ValidUtf8(b[Utf8CharLength(b)..]))
  }

  /** The five byte values cp1252 leaves unassigned; Python's codec rejects them. */
  const Cp1252Unassigned: set<Byte> := {0x81, 0x8D, 0x8F, 0x90, 0x9D}

  predicate Cp1252Decodable(b: seq<Byte>)
  {
    forall i :: 0 <= i < |b| ==> b[i] !in Cp1252Unassigned
  }

  lemma CharLengthOfLonger(a: seq<Byte>, c: seq<Byte>)
    requires Utf8CharLength(a) > 0
    ensures Utf8CharLength(a + c) == Utf8CharLength(a)
  {
    var n := Utf8CharLength(a);
    assert forall i :: 0 <= i < n ==> (a + c)[i] == a[i];
  }

  /** Well-formed UTF-8 strings stay well formed when joined. */
  lemma {:induction false} ValidUtf8Concat(a: seq<Byte>, c: seq<Byte>)
    requires ValidUtf8(a) && ValidUtf8(c)
    ensures ValidUtf8(a + c)
    decreases |a|
  {
    if a == [] {
      assert a + c == c;
    } else {
      var n := Utf8CharLength(a);
      CharLengthOfLonger(a, c);
      assert (a + c)[n..] == a[n..] + c;
      ValidUtf8Concat(a[n..], c);
    }
  }

  /** The UTF-8 byte-order mark is itself one well-formed character, U+FEFF. */
  lemma Utf8BomPrefix(rest: seq<Byte>)
    ensures ValidUtf8(Utf8Bom + rest) <==> ValidUtf8(rest)
  {
    var b := Utf8Bom + rest;
    assert b[0] == 0xEF && b[1] == 0xBB && b[2] == 0xBF;
    assert Utf8CharLength(b) == 3;
    assert b[3..] == rest;
  }

  predicate Ascii(b: seq<Byte>)
  {
    forall i :: 0 <= i < |b| ==> b[i] <= 0x7F
  }

  lemma {:induction false} AsciiIsUtf8(b: seq<Byte>)
    requires Ascii(b)
    ensures ValidUtf8(b)
    decreases |b|
  {
    if b != [] {
      AsciiIsUtf8(b[1..]);
    }
  }

  lemma AsciiIsCp1252(b: seq<Byte>)
    requires Ascii(b)
    ensures Cp1252Decodable(b)
  {
  }

  /** The smallest inputs that separate the trial encodings. */
  lemma TrialWitnesses()
    ensures !ValidUtf8([0x93]) && Cp1252Decodable([0x93])
    ensures !ValidUtf8([0x81]) && !Cp1252Decodable([0x81])
    ensures !ValidUtf8([0xED, 0xA0, 0x80])
  {
    assert [0x81][0] == 0x81;
  }
}
