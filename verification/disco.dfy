/**
 * `convert_to_utf8` of examples/disco/example.cpp, which is meant to transcode ISO-8859-1
 * (Latin-1) text to UTF-8, next to the transcoding it is meant to perform. The UTF-8 forms
 * are those of section 3 of RFC 3629, restricted to the one- and two-byte forms that
 * Latin-1 needs.
 */
module Disco {
  import opened Wrappers

  type Byte = x: int | 0 <= x < 256

  /** The bytes each input byte becomes, in input order. */
  function Expand(f: Byte -> seq<Byte>, s: seq<Byte>): seq<Byte>
  {
    if s == [] then [] else f(s[0]) + Expand(f, s[1..])
  }

  lemma {:induction false} ExpandAppend(f: Byte -> seq<Byte>, a: seq<Byte>, b: seq<Byte>)
    ensures Expand(f, a + b) == Expand(f, a) + Expand(f, b)
  {
    if a == [] {
      assert a + b == b;
    } else {
      assert (a + b)[0] == a[0];
      assert (a + b)[1..] == a[1..] + b;
      ExpandAppend(f, a[1..], b);
    }
  }

  // ---------------------------------------------------------------------------------------
  // The code as written
  // ---------------------------------------------------------------------------------------

  /** What the loop body writes for one byte: below 128 the byte, otherwise 195 and `v - 64`. */
  function ConvertByte(v: Byte): seq<Byte>
  {
    if v < 128 then [v] else [195, v - 64]
  }

  /** `convert_to_utf8`: the loop over the input bytes, appending to the output. */
  method ConvertToUtf8(str: seq<Byte>) returns (out: seq<Byte>)
    ensures out == Expand(ConvertByte, str)
  {
    out := [];
    var i := 0;
    while i < |str|
      invariant 0 <= i <= |str|
      invariant out == Expand(ConvertByte, str[..i])
    {
      var v := str[i];
      if v < 128 {
        out := out + [v];
      } else {
        out := out + [195, v - 64];
      }
      ExpandAppend(ConvertByte, str[..i], [v]);
      assert str[..i + 1] == str[..i] + [v];
      assert Expand(ConvertByte, [v]) == ConvertByte(v) + Expand(ConvertByte, []);
      i := i + 1;
    }
    assert str[..|str|] == str;
  }

  /** The number of bytes of `s` at or above 128. */
  function HighBytes(s: seq<Byte>): nat
  {
    if s == [] then 0 else (if s[0] >= 128 then 1 else 0) + HighBytes(s[1..])
  }

  /** Each byte below 128 stays one byte and each other byte becomes two. */
  lemma {:induction false} ConvertedLength(s: seq<Byte>)
    ensures |Expand(ConvertByte, s)| == |s| + HighBytes(s)
  {
    if s != [] {
      ConvertedLength(s[1..]);
    }
  }

  /** Pure ASCII text is copied unchanged. */
  lemma {:induction false} AsciiUnchanged(s: seq<Byte>)
    requires forall i :: 0 <= i < |s| ==> s[i] < 128
    ensures Expand(ConvertByte, s) == s
  {
    if s != [] {
      AsciiUnchanged(s[1..]);
      assert s == [s[0]] + s[1..];
    }
  }

  /** The conversion distributes over concatenation: each byte is converted on its own, in order. */
  lemma ConvertedAppend(a: seq<Byte>, b: seq<Byte>)
    ensures Expand(ConvertByte, a + b) == Expand(ConvertByte, a) + Expand(ConvertByte, b)
  {
    ExpandAppend(ConvertByte, a, b);
  }

  // ---------------------------------------------------------------------------------------
  // UTF-8, one- and two-byte forms (RFC 3629, section 3)
  // ---------------------------------------------------------------------------------------

  /** The UTF-8 encoding of a code point below U+0800. */
  function Utf8Encode(cp: nat): (out: seq<Byte>)
    requires cp < 0x800
    ensures cp < 0x80 ==> |out| == 1 && out[0] == cp
    ensures cp >= 0x80 ==> |out| == 2 && 0xC2 <= out[0] <= 0xDF && 0x80 <= out[1] <= 0xBF
    ensures cp >= 0x80 ==> (out[0] as int - 0xC0) * 64 + (out[1] as int - 0x80) == cp
  {
    if cp < 0x80 then [cp] else [0xC0 + cp / 64, 0x80 + cp % 64]
  }

  /**
   * Decodes text made of one- and two-byte UTF-8 sequences into code points; a lead byte
   * not followed by a continuation byte (0x80-0xBF), a stray continuation byte, an overlong
   * lead (0xC0, 0xC1) and the leads of longer forms are rejected.
   */
  function Utf8Decode(b: seq<Byte>): (r: Option<seq<int>>)
    ensures r.Some? && b != [] ==> b[0] < 0x80 || (0xC2 <= b[0] <= 0xDF && |b| >= 2 && 0x80 <= b[1] <= 0xBF)
  {
    if b == [] then Some([])
    else if b[0] < 0x80 then
      match Utf8Decode(b[1..])
      case None => None
      case Some(rest) => Some([b[0]] + rest)
    else if 0xC2 <= b[0] <= 0xDF && |b| >= 2 && 0x80 <= b[1] <= 0xBF then
      match Utf8Decode(b[2..])
      case None => None
      case Some(rest) => Some([(b[0] as int - 0xC0) * 64 + (b[1] as int - 0x80)] + rest)
    else None
  }

  /** For the upper quarter of Latin-1, 0xC0-0xFF, what the code writes is the UTF-8 encoding. */
  lemma UpperQuarterCorrect(v: Byte)
    requires v < 0x80 || v >= 0xC0
    ensures ConvertByte(v) == Utf8Encode(v)
  {
    if v >= 0xC0 {
      assert v / 64 == 3;
      assert v % 64 == v - 0xC0;
    }
  }

  /**
   * For 0x80-0xBF the code writes 0xC3 and a byte in 0x40-0x7F, which is not a continuation
   * byte: the output is not UTF-8, and it differs from the encoding of the character.
   */
  lemma {:induction false} SecondQuarterMisencoded(v: Byte)
    requires 0x80 <= v < 0xC0
    ensures ConvertByte(v) == [0xC3, v - 64] && 0x40 <= v - 64 < 0x80
    ensures ConvertByte(v) != Utf8Encode(v)
    ensures Utf8Decode(ConvertByte(v)).None?
  {
    var out := ConvertByte(v);
    assert out[0] == 0xC3 && out[1] < 0x80;
    assert Utf8Encode(v)[0] == 0xC2;
  }

  /** `©` (0xA9) becomes C3 69, which no UTF-8 decoder accepts; its encoding is C2 A9. */
  lemma CopyrightSignMisencoded()
    ensures ConvertByte(0xA9) == [0xC3, 0x69]
    ensures Utf8Encode(0xA9) == [0xC2, 0xA9]
    ensures Utf8Decode(ConvertByte(0xA9)).None?
  {
    SecondQuarterMisencoded(0xA9);
  }

  // ---------------------------------------------------------------------------------------
  // The intended transcoding
  // ---------------------------------------------------------------------------------------

  /** A Latin-1 byte is the code point of the same value. */
  function Latin1Encode(v: Byte): seq<Byte>
  {
    Utf8Encode(v)
  }

  /** Latin-1 to UTF-8: the same loop, with the lead byte 0xC2 or 0xC3 chosen by the top bits. */
  method Latin1ToUtf8(str: seq<Byte>) returns (out: seq<Byte>)
    ensures out == Expand(Latin1Encode, str)
  {
    out := [];
    var i := 0;
    while i < |str|
      invariant 0 <= i <= |str|
      invariant out == Expand(Latin1Encode, str[..i])
    {
      var v := str[i];
      if v < 128 {
        out := out + [v];
      } else {
        out := out + [0xC0 + v / 64, 0x80 + v % 64];
      }
      ExpandAppend(Latin1Encode, str[..i], [v]);
      assert str[..i + 1] == str[..i] + [v];
      assert Expand(Latin1Encode, [v]) == Latin1Encode(v) + Expand(Latin1Encode, []);
      i := i + 1;
    }
    assert str[..|str|] == str;
  }

  /** The intended output is UTF-8 and decodes back to the Latin-1 text. */
  lemma {:induction false} Latin1RoundTrip(s: seq<Byte>)
    ensures Utf8Decode(Expand(Latin1Encode, s)) == Some(s)
  {
    if s != [] {
      Latin1RoundTrip(s[1..]);
      var e := Latin1Encode(s[0]);
      var rest := Expand(Latin1Encode, s[1..]);
      var b := e + rest;
      if s[0] < 0x80 {
        assert b[0] == s[0] && b[1..] == rest;
      } else {
        assert b[0] == e[0] && b[1] == e[1] && b[2..] == rest;
      }
      assert s == [s[0]] + s[1..];
    }
  }

  /** Where the input has no byte in 0x80-0xBF, the code as written and the intended transcoding agree. */
  lemma {:induction false} AgreesOutsideSecondQuarter(s: seq<Byte>)
    requires forall i :: 0 <= i < |s| ==> s[i] < 0x80 || s[i] >= 0xC0
    ensures Expand(ConvertByte, s) == Expand(Latin1Encode, s)
  {
    if s != [] {
      UpperQuarterCorrect(s[0]);
      AgreesOutsideSecondQuarter(s[1..]);
    }
  }
}
