/** The byte encoding input_buf hands to its caller. The terminal library's
    encoder is not part of this model; this module writes UTF-8 as section 3
    of RFC 3629 defines it, and decodes it back to show that the encoding is
    well formed and loses nothing. */
module Utf8 {
  import opened Common

  type Byte = b: int | 0 <= b < 256

  /** A Unicode scalar value: at most U+10FFFF and not a surrogate. */
  predicate IsScalarValue(c: Codepoint)
  {
    c <= 0x10FFFF && !(0xD800 <= c <= 0xDFFF)
  }

  predicate AllScalarValues(s: seq<Codepoint>)
  {
    forall i :: 0 <= i < |s| ==> IsScalarValue(s[i])
  }

  /** The number of bytes RFC 3629 uses for a scalar value. */
  function EncodedLength(c: Codepoint): nat
  {
    if c < 0x80 then 1 else if c < 0x800 then 2 else if c < 0x10000 then 3 else 4
  }

  /** One codepoint in UTF-8. A value that is not a scalar value (a
      surrogate, or above U+10FFFF) has no encoding; it is written as
      U+FFFD. */
  function Encode(c: Codepoint): (r: seq<Byte>)
    ensures 1 <= |r| <= 4
    ensures IsScalarValue(c) ==> |r| == EncodedLength(c)
    ensures !IsScalarValue(c) ==> r == [0xEF, 0xBF, 0xBD]
  {
    if c < 0x80 then [c]
    else if c < 0x800 then [0xC0 + c / 64, 0x80 + c % 64]
    else if !IsScalarValue(c) then [0xEF, 0xBF, 0xBD]
    else if c < 0x10000 then [0xE0 + c / 4096, 0x80 + (c / 64) % 64, 0x80 + c % 64]
    else [0xF0 + c / 262144, 0x80 + (c / 4096) % 64, 0x80 + (c / 64) % 64, 0x80 + c % 64]
  }

  /** The encodings of a sequence of codepoints, one after the other. */
  function EncodeAll(s: seq<Codepoint>): seq<Byte>
  {
    if s == [] then [] else EncodeAll(s[..|s| - 1]) + Encode(s[|s| - 1])
  }

  lemma {:induction false} EncodeAllLength(s: seq<Codepoint>)
    ensures |s| <= |EncodeAll(s)| <= 4 * |s|
    ensures EncodeAll(s) == [] <==> s == []
  {
    if s != [] {
      EncodeAllLength(s[..|s| - 1]);
    }
  }

  /** ASCII text encodes to one byte per codepoint. */
  lemma {:induction false} EncodeAllAscii(s: seq<Codepoint>)
    requires forall i :: 0 <= i < |s| ==> s[i] < 0x80
    ensures |EncodeAll(s)| == |s|
  {
    if s != [] {
      EncodeAllAscii(s[..|s| - 1]);
    }
  }

  /** Extending a prefix by one codepoint extends its encoding by that
      codepoint's bytes. */
  lemma EncodeAllSnoc(s: seq<Codepoint>, i: nat)
    requires i < |s|
    ensures EncodeAll(s[..i + 1]) == EncodeAll(s[..i]) + Encode(s[i])
  {
    assert s[..i + 1][..i] == s[..i];
  }

  /** The encoding of a concatenation is the concatenation of the encodings. */
  lemma {:induction false} EncodeAllAppend(s: seq<Codepoint>, t: seq<Codepoint>)
    ensures EncodeAll(s + t) == EncodeAll(s) + EncodeAll(t)
    decreases |t|
  {
    if t == [] {
      assert s + t == s;
    } else {
      var u, x := t[..|t| - 1], t[|t| - 1];
      assert (s + t)[..|s + t| - 1] == s + u && (s + t)[|s + t| - 1] == x;
      EncodeAllAppend(s, u);
      assert EncodeAll(s + t) == EncodeAll(s + u) + Encode(x);
    }
  }

  lemma EncodeAllCons(c: Codepoint, s: seq<Codepoint>)
    ensures EncodeAll([c] + s) == Encode(c) + EncodeAll(s)
  {
    EncodeAllAppend([c], s);
    assert [c][..0] == [];
    assert EncodeAll([c]) == EncodeAll([]) + Encode(c);
  }

  predicate IsContinuation(b: Byte)
  {
    0x80 <= b < 0xC0
  }

  /** The first well-formed UTF-8 sequence at the start of b, as section 3 of
      RFC 3629 allows it (shortest form, no surrogates, at most U+10FFFF),
      with its length; None when b does not start with one. */
  function DecodeOne(b: seq<Byte>): (r: Option<(Codepoint, nat)>)
    ensures r.Some? ==> 1 <= r.value.1 <= |b| && r.value.1 <= 4
  {
    if |b| == 0 then None
    else if b[0] < 0x80 then Some((b[0], 1))
    else if 0xC0 <= b[0] < 0xE0 && |b| >= 2 && IsContinuation(b[1]) then
      var c: int := (b[0] as int - 0xC0) * 64 + (b[1] as int - 0x80);
      if c < 0x80 then None else Some((c, 2))
    else if 0xE0 <= b[0] < 0xF0 && |b| >= 3 && IsContinuation(b[1]) && IsContinuation(b[2]) then
      var c: int := (b[0] as int - 0xE0) * 4096 + (b[1] as int - 0x80) * 64 + (b[2] as int - 0x80);
      if c < 0x800 || (0xD800 <= c <= 0xDFFF) then None else Some((c, 3))
    else if 0xF0 <= b[0] < 0xF8 && |b| >= 4 && IsContinuation(b[1]) && IsContinuation(b[2]) && IsContinuation(b[3]) then
      var c: int := (b[0] as int - 0xF0) * 262144 + (b[1] as int - 0x80) * 4096 + (b[2] as int - 0x80) * 64 + (b[3] as int - 0x80);
      if c < 0x10000 || c > 0x10FFFF then None else Some((c, 4))
    else None
  }

  /** A whole byte string decoded, or None when it is not well-formed UTF-8. */
  function DecodeAll(b: seq<Byte>): Option<seq<Codepoint>>
    decreases |b|
  {
    if b == [] then Some([])
    else match DecodeOne(b)
      case None => None
      case Some((c, n)) =>
        match DecodeAll(b[n..])
        case None => None
        case Some(rest) => Some([c] + rest)
  }

  lemma DivMod64(c: int)
    requires 0 <= c
    ensures c == (c / 64) * 64 + c % 64
    ensures c / 4096 == (c / 64) / 64
    ensures c / 262144 == (c / 4096) / 64
  {
  }

  lemma ThreeByteValue(c: int)
    requires 0 <= c
    ensures (c / 4096) * 4096 + ((c / 64) % 64) * 64 + c % 64 == c
  {
    DivMod64(c);
    DivMod64(c / 64);
  }

  lemma FourByteValue(c: int)
    requires 0 <= c
    ensures (c / 262144) * 262144 + ((c / 4096) % 64) * 4096 + ((c / 64) % 64) * 64 + c % 64 == c
  {
    DivMod64(c);
    DivMod64(c / 64);
    DivMod64(c / 4096);
    ThreeByteValue(c);
  }

  /** Each scalar value's bytes decode back to it, whatever follows. */
  lemma DecodeOneEncode(c: Codepoint, rest: seq<Byte>)
    requires IsScalarValue(c)
    ensures DecodeOne(Encode(c) + rest) == Some((c, |Encode(c)|))
  {
    if c < 0x80 {
    } else if c < 0x800 {
      DecodeTwoBytes(c, rest);
    } else if c < 0x10000 {
      DecodeThreeBytes(c, rest);
    } else {
      DecodeFourBytes(c, rest);
    }
  }

  lemma DecodeTwoBytes(c: Codepoint, rest: seq<Byte>)
    requires 0x80 <= c < 0x800
    ensures DecodeOne(Encode(c) + rest) == Some((c, 2))
  {
    var b := Encode(c) + rest;
    DivMod64(c);
    assert b[0] == 0xC0 + c / 64 && b[1] == 0x80 + c % 64;
  }

  lemma DecodeThreeBytes(c: Codepoint, rest: seq<Byte>)
    requires 0x800 <= c < 0x10000 && IsScalarValue(c)
    ensures DecodeOne(Encode(c) + rest) == Some((c, 3))
  {
    var b := Encode(c) + rest;
    ThreeByteValue(c);
    assert b[0] == 0xE0 + c / 4096 && b[1] == 0x80 + (c / 64) % 64 && b[2] == 0x80 + c % 64;
  }

  lemma DecodeFourBytes(c: Codepoint, rest: seq<Byte>)
    requires 0x10000 <= c && IsScalarValue(c)
    ensures DecodeOne(Encode(c) + rest) == Some((c, 4))
  {
    var b := Encode(c) + rest;
    FourByteValue(c);
    assert b[0] == 0xF0 + c / 262144;
    assert b[1] == 0x80 + (c / 4096) % 64 && b[2] == 0x80 + (c / 64) % 64 && b[3] == 0x80 + c % 64;
  }

  /** The round trip: decoding the encoding of scalar values gives them
      back, so the encoding is well-formed UTF-8 and loses nothing. */
  lemma {:induction false} DecodeEncodeAll(s: seq<Codepoint>)
    requires AllScalarValues(s)
    ensures DecodeAll(EncodeAll(s)) == Some(s)
    decreases |s|
  {
    if s == [] {
    } else {
      var c, t := s[0], s[1..];
      assert s == [c] + t;
      EncodeAllCons(c, t);
      DecodeOneEncode(c, EncodeAll(t));
      EncodeAllLength(s);
      assert (Encode(c) + EncodeAll(t))[|Encode(c)|..] == EncodeAll(t);
      DecodeEncodeAll(t);
    }
  }

  /** What is not a scalar value comes back as U+FFFD. */
  lemma DecodeEncodeReplaced(c: Codepoint)
    requires !IsScalarValue(c)
    ensures DecodeAll(EncodeAll([c])) == Some([Replacement])
  {
    var b: seq<Byte> := [0xEF, 0xBF, 0xBD];
    assert EncodeAll([c]) == EncodeAll([]) + Encode(c) == b;
    assert DecodeOne(b) == Some((Replacement, 3));
    assert b[3..] == [];
    assert DecodeAll(b[3..]) == Some([]);
    assert DecodeAll(b) == Some([Replacement] + []);
    assert [Replacement] + [] == [Replacement];
  }
}
