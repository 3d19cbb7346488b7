/**
  The byte view of text. A C++ `std::string` holds bytes, and the string
  literals of the greeter are stored in UTF-8 (the default source and
  execution character set of GCC and Clang), so the bytes of a greeting are
  the UTF-8 encoding of its characters. Dafny's `char` is a Unicode scalar
  value (0 to 0x10FFFF, surrogates excluded), which is exactly the domain
  UTF-8 encodes.
 */
module Utf8 {
  import opened Wrappers

  newtype byte = x: int | 0 <= x < 0x100

  /** A continuation byte `10xxxxxx`. */
  predicate IsContinuation(x: byte) {
    0x80 <= x < 0xC0
  }

  /** The encoding of one scalar value: one to four bytes, the lead byte saying how many. */
  function EncodeChar(c: char): (b: seq<byte>)
    ensures 1 <= |b| <= 4
    ensures |b| == 1 <==> (c as int) < 0x80
    ensures |b| == 1 ==> b[0] as int == c as int
    ensures |b| > 1 ==> forall i :: 1 <= i < |b| ==> IsContinuation(b[i])
  {
    var v := c as int;
    if v < 0x80 then
      [v as byte]
    else if v < 0x800 then
      [(0xC0 + v / 0x40) as byte, (0x80 + v % 0x40) as byte]
    else if v < 0x1_0000 then
      [(0xE0 + v / 0x1000) as byte, (0x80 + v / 0x40 % 0x40) as byte, (0x80 + v % 0x40) as byte]
    else
      [(0xF0 + v / 0x4_0000) as byte, (0x80 + v / 0x1000 % 0x40) as byte,
       (0x80 + v / 0x40 % 0x40) as byte, (0x80 + v % 0x40) as byte]
  }

  /** The encoding of a string: its characters' encodings, in order. */
  function Encode(s: string): (b: seq<byte>)
    ensures |s| <= |b| <= 4 * |s|
  {
    if s == [] then [] else EncodeChar(s[0]) + Encode(s[1..])
  }

  /**
    Reads the scalar value at the front of `b`; on success returns it with the
    number of bytes it took. Rejects what UTF-8 forbids: a stray continuation
    byte, an overlong form, a surrogate, a value above 0x10FFFF and a
    sequence cut short.
   */
  function DecodeChar(b: seq<byte>): (r: Option<(char, nat)>)
    requires |b| > 0
    ensures r.Some? ==> 1 <= r.value.1 <= |b| && r.value.1 <= 4
    ensures r.Some? && r.value.1 == 1 ==> r.value.0 as int == b[0] as int
  {
    var b0 := b[0] as int;
    if b0 < 0x80 then
      Some((b0 as char, 1))
    else if b0 < 0xC2 then
      None
    else if b0 < 0xE0 then
      if |b| < 2 || !IsContinuation(b[1]) then None
      else
        Some((((b0 - 0xC0) * 0x40 + (b[1] as int - 0x80)) as char, 2))
    else if b0 < 0xF0 then
      if |b| < 3 || !IsContinuation(b[1]) || !IsContinuation(b[2]) then None
      else
        var v := (b0 - 0xE0) * 0x1000 + (b[1] as int - 0x80) * 0x40 + (b[2] as int - 0x80);
        if v < 0x800 || (0xD800 <= v < 0xE000) then None else Some((v as char, 3))
    else if b0 < 0xF5 then
      if |b| < 4 || !IsContinuation(b[1]) || !IsContinuation(b[2]) || !IsContinuation(b[3]) then None
      else
        var v := (b0 - 0xF0) * 0x4_0000 + (b[1] as int - 0x80) * 0x1000
                 + (b[2] as int - 0x80) * 0x40 + (b[3] as int - 0x80);
        if v < 0x1_0000 || v > 0x10_FFFF then None else Some((v as char, 4))
    else
      None
  }

  /** Decodes a whole byte sequence, or `None` when any part of it is malformed. */
  function Decode(b: seq<byte>): (r: Option<string>)
    ensures r.Some? ==> |r.value| <= |b| <= 4 * |r.value|
    decreases |b|
  {
    if b == [] then Some([])
    else
      match DecodeChar(b)
      case None => None
      case Some((c, n)) =>
        match Decode(b[n..])
        case None => None
        case Some(s) => Some([c] + s)
  }

  /** Reads bytes one per character, as ISO 8859-1 (Latin-1) does. */
  function Latin1(b: seq<byte>): (s: string)
    ensures |s| == |b|
    ensures forall i :: 0 <= i < |b| ==> s[i] as int == b[i] as int
  {
    if b == [] then [] else [b[0] as int as char] + Latin1(b[1..])
  }

  /** Division by 0x40 recovers the digits of a base-0x40 numeral. */
  lemma DivMod64(v: int, q: int, r: int)
    requires v == q * 0x40 + r && 0 <= r < 0x40
    ensures v / 0x40 == q && v % 0x40 == r
  {
  }

  /** Decoding the encoding of a character gives the character back and consumes exactly its bytes. */
  lemma DecodeEncodeChar(c: char, rest: seq<byte>)
    ensures DecodeChar(EncodeChar(c) + rest) == Some((c, |EncodeChar(c)|))
  {
    var v := c as int;
    var b := EncodeChar(c) + rest;
    if v < 0x80 {
    } else if v < 0x800 {
      DivMod64(v, v / 0x40, v % 0x40);
    } else if v < 0x1_0000 {
      var v1 := v / 0x40;
      DivMod64(v, v1, v % 0x40);
      DivMod64(v1, v1 / 0x40, v1 % 0x40);
      assert v1 / 0x40 == v / 0x1000;
    } else {
      var v1 := v / 0x40;
      var v2 := v1 / 0x40;
      DivMod64(v, v1, v % 0x40);
      DivMod64(v1, v2, v1 % 0x40);
      DivMod64(v2, v2 / 0x40, v2 % 0x40);
      assert v2 == v / 0x1000;
      assert v2 / 0x40 == v / 0x4_0000;
    }
  }

  /** What `DecodeChar` reads is exactly the encoding of the character it returns. */
  lemma EncodeDecodeChar(b: seq<byte>)
    requires |b| > 0 && DecodeChar(b).Some?
    ensures DecodeChar(b).value.1 <= |b|
    ensures EncodeChar(DecodeChar(b).value.0) == b[..DecodeChar(b).value.1]
  {
    var b0 := b[0] as int;
    var c := DecodeChar(b).value.0;
    var v := c as int;
    if b0 < 0x80 {
    } else if b0 < 0xE0 {
      DivMod64(v, b0 - 0xC0, b[1] as int - 0x80);
    } else if b0 < 0xF0 {
      var v1 := (b0 - 0xE0) * 0x40 + (b[1] as int - 0x80);
      DivMod64(v, v1, b[2] as int - 0x80);
      DivMod64(v1, b0 - 0xE0, b[1] as int - 0x80);
      assert v / 0x1000 == v1 / 0x40;
    } else {
      var v2 := (b0 - 0xF0) * 0x40 + (b[1] as int - 0x80);
      var v1 := v2 * 0x40 + (b[2] as int - 0x80);
      DivMod64(v, v1, b[3] as int - 0x80);
      DivMod64(v1, v2, b[2] as int - 0x80);
      DivMod64(v2, b0 - 0xF0, b[1] as int - 0x80);
      assert v / 0x1000 == v2;
      assert v / 0x4_0000 == v2 / 0x40;
    }
  }

  /** Encoding distributes over concatenation. */
  lemma {:induction false} EncodeAppend(s: string, t: string)
    ensures Encode(s + t) == Encode(s) + Encode(t)
  {
    if s == [] {
      assert s + t == t;
    } else {
      assert (s + t)[1..] == s[1..] + t;
      EncodeAppend(s[1..], t);
    }
  }

  /** ASCII text is its own encoding, one byte per character. */
  lemma {:induction false} EncodeAscii(s: string)
    requires forall i :: 0 <= i < |s| ==> (s[i] as int) < 0x80
    ensures |Encode(s)| == |s|
    ensures forall i :: 0 <= i < |s| ==> Encode(s)[i] as int == s[i] as int
  {
    if s != [] {
      EncodeAscii(s[1..]);
      assert Encode(s) == [s[0] as int as byte] + Encode(s[1..]);
    }
  }

  /** Reading the bytes of ASCII text as Latin-1 gives the text back. */
  lemma Latin1Ascii(s: string)
    requires forall i :: 0 <= i < |s| ==> (s[i] as int) < 0x80
    ensures Latin1(Encode(s)) == s
  {
    EncodeAscii(s);
    var l := Latin1(Encode(s));
    assert forall i :: 0 <= i < |s| ==> l[i] as int == s[i] as int;
  }

  /** Latin-1 reading distributes over concatenation. */
  lemma {:induction false} Latin1Append(a: seq<byte>, b: seq<byte>)
    ensures Latin1(a + b) == Latin1(a) + Latin1(b)
  {
    if a != [] {
      assert (a + b)[1..] == a[1..] + b;
      Latin1Append(a[1..], b);
    }
  }

  /** Read as Latin-1, the encoding of a character followed by ASCII text is the character's bytes as characters, then the text. */
  lemma Latin1AsciiTail(c: char, rest: string)
    requires forall i :: 0 <= i < |rest| ==> (rest[i] as int) < 0x80
    ensures Latin1(Encode([c] + rest)) == Latin1(EncodeChar(c)) + rest
  {
    assert ([c] + rest)[1..] == rest;
    assert Encode([c] + rest) == EncodeChar(c) + Encode(rest);
    Latin1Append(EncodeChar(c), Encode(rest));
    Latin1Ascii(rest);
  }

  /** Every string survives a round trip through its bytes. */
  lemma {:induction false} DecodeEncode(s: string)
    ensures Decode(Encode(s)) == Some(s)
  {
    if s != [] {
      var e := EncodeChar(s[0]);
      var rest := Encode(s[1..]);
      assert Encode(s) == e + rest;
      DecodeEncodeChar(s[0], rest);
      assert (e + rest)[|e|..] == rest;
      DecodeEncode(s[1..]);
      assert Decode(e + rest) == Some([s[0]] + s[1..]);
      assert [s[0]] + s[1..] == s;
    }
  }

  /** Every well-formed byte sequence is the encoding of what it decodes to. */
  lemma {:induction false} EncodeDecode(b: seq<byte>)
    requires Decode(b).Some?
    ensures Encode(Decode(b).value) == b
    decreases |b|
  {
    if b != [] {
      var (c, n) := DecodeChar(b).value;
      EncodeDecodeChar(b);
      EncodeDecode(b[n..]);
      var s := Decode(b).value;
      assert s[0] == c && s[1..] == Decode(b[n..]).value;
      assert b == b[..n] + b[n..];
    }
  }

  /** Two strings with the same bytes are the same string. */
  lemma EncodeInjective(s: string, t: string)
    requires Encode(s) == Encode(t)
    ensures s == t
  {
    DecodeEncode(s);
    DecodeEncode(t);
  }
}
