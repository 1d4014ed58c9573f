/**
 * UTF-8 (RFC 3629) for Unicode scalar values: the byte sequence a character
 * is percent-encoded from, and a decoder that inverts it.
 */
module Utf8 {

  import opened Wrappers

  type Byte = b: int | 0 <= b < 256

  /** A code point that is a Unicode scalar value (not a surrogate). */
  predicate IsScalar(cp: int)
  {
    0 <= cp < 0xD800 || 0xE000 <= cp < 0x11_0000
  }

  /** A continuation byte, `10xxxxxx`. */
  predicate IsContinuation(b: Byte)
  {
    0x80 <= b < 0xC0
  }

  /** The UTF-8 bytes of one character: one byte below U+0080, then two, three or four. */
  function EncodeChar(c: char): (bs: seq<Byte>)
    ensures |bs| == 1 <==> c as int < 0x80
    ensures |bs| == 2 <==> 0x80 <= c as int < 0x800
    ensures |bs| == 3 <==> 0x800 <= c as int < 0x1_0000
    ensures |bs| == 4 <==> 0x1_0000 <= c as int
    ensures |bs| == 1 ==> bs[0] == c as int
    ensures |bs| == 2 ==> 0xC2 <= bs[0] < 0xE0
    ensures |bs| == 3 ==> 0xE0 <= bs[0] < 0xF0
    ensures |bs| == 4 ==> 0xF0 <= bs[0] <= 0xF4
    ensures forall i :: 1 <= i < |bs| ==> IsContinuation(bs[i])
  {
    var cp := c as int;
    if cp < 0x80 then [cp]
    else if cp < 0x800 then [0xC0 + cp / 64, 0x80 + cp % 64]
    else if cp < 0x1_0000 then
      var low := cp % 4096;
      [0xE0 + cp / 4096, 0x80 + low / 64, 0x80 + low % 64]
    else
      var low := cp % 262144;
      var lower := low % 4096;
      [0xF0 + cp / 262144, 0x80 + low / 4096, 0x80 + lower / 64, 0x80 + lower % 64]
  }

  /** The UTF-8 bytes of a string, character by character. */
  function Encode(s: string): (bs: seq<Byte>)
    ensures |s| <= |bs| <= 4 * |s|
    ensures (forall i :: 0 <= i < |s| ==> s[i] as int < 0x80) ==> |bs| == |s|
  {
    if s == [] then [] else EncodeChar(s[0]) + Encode(s[1..])
  }

  /**
   * The character of a decoded code point that took `n` bytes, or `None` when
   * it is not a scalar value or is an overlong form (it would fit in fewer
   * bytes than `min` requires).
   */
  function ScalarOf(cp: int, n: nat, min: int): (r: Option<(char, nat)>)
    ensures r.Some? <==> IsScalar(cp) && min <= cp
    ensures r.Some? ==> r.value.0 as int == cp && r.value.1 == n
  {
    if IsScalar(cp) && min <= cp then Some((cp as char, n)) else None
  }

  /**
   * The first character of `bs` and the number of bytes it takes, or `None`
   * when they do not start with a well-formed UTF-8 sequence (RFC 3629,
   * section 4): overlong forms, surrogates and code points past U+10FFFF are
   * rejected.
   */
  function DecodeFirst(bs: seq<Byte>): (r: Option<(char, nat)>)
    requires |bs| > 0
    ensures r.Some? ==> 1 <= r.value.1 <= |bs|
  {
    var b0: int := bs[0];
    if b0 < 0x80 then Some((b0 as char, 1))
    else if 0xC0 <= b0 < 0xE0 && |bs| >= 2 && IsContinuation(bs[1]) then
      ScalarOf((b0 - 0xC0) * 64 + (bs[1] as int - 0x80), 2, 0x80)
    else if 0xE0 <= b0 < 0xF0 && |bs| >= 3 && IsContinuation(bs[1]) && IsContinuation(bs[2]) then
      ScalarOf((b0 - 0xE0) * 4096 + (bs[1] as int - 0x80) * 64 + (bs[2] as int - 0x80), 3, 0x800)
    else if 0xF0 <= b0 <= 0xF4 && |bs| >= 4 && IsContinuation(bs[1]) && IsContinuation(bs[2])
            && IsContinuation(bs[3]) then
      ScalarOf((b0 - 0xF0) * 262144 + (bs[1] as int - 0x80) * 4096 + (bs[2] as int - 0x80) * 64 + (bs[3] as int - 0x80), 4, 0x1_0000)
    else None
  }

  /** Decodes a whole byte sequence, or `None` when some part of it is not UTF-8. */
  function Decode(bs: seq<Byte>): Option<string>
    decreases |bs|
  {
    if bs == [] then Some([])
    else match DecodeFirst(bs)
      case None => None
      case Some((c, n)) =>
        match Decode(bs[n..])
        case None => None
        case Some(rest) => Some([c] + rest)
  }

  /** The decoder reads back exactly the character the encoder wrote, whatever follows it. */
  lemma DecodeFirstOfEncoded(c: char, rest: seq<Byte>)
    ensures DecodeFirst(EncodeChar(c) + rest) == Some((c, |EncodeChar(c)|))
  {
    var cp := c as int;
    var bs := EncodeChar(c) + rest;
    if cp < 0x80 {
    } else if cp < 0x800 {
      assert bs[0] == 0xC0 + cp / 64 && bs[1] == 0x80 + cp % 64;
      assert (cp / 64) * 64 + cp % 64 == cp;
    } else if cp < 0x1_0000 {
      var low := cp % 4096;
      assert bs[0] == 0xE0 + cp / 4096 && bs[1] == 0x80 + low / 64 && bs[2] == 0x80 + low % 64;
      assert (cp / 4096) * 4096 + low == cp;
      assert (low / 64) * 64 + low % 64 == low;
    } else {
      var low := cp % 262144;
      var lower := low % 4096;
      assert bs[0] == 0xF0 + cp / 262144 && bs[1] == 0x80 + low / 4096;
      assert bs[2] == 0x80 + lower / 64 && bs[3] == 0x80 + lower % 64;
      assert (cp / 262144) * 262144 + low == cp;
      assert (low / 4096) * 4096 + lower == low;
      assert (lower / 64) * 64 + lower % 64 == lower;
    }
  }

  lemma DivMod64(q: int, r: int)
    requires 0 <= q && 0 <= r < 64
    ensures (q * 64 + r) / 64 == q && (q * 64 + r) % 64 == r
  {
  }

  lemma DivMod4096(q: int, r: int)
    requires 0 <= q && 0 <= r < 4096
    ensures (q * 4096 + r) / 4096 == q && (q * 4096 + r) % 4096 == r
  {
  }

  lemma DivMod262144(q: int, r: int)
    requires 0 <= q && 0 <= r < 262144
    ensures (q * 262144 + r) / 262144 == q && (q * 262144 + r) % 262144 == r
  {
  }

  /**
   * The decoder accepts only canonical encodings: the bytes it reads for a
   * character are exactly the bytes the encoder writes for it, so UTF-8 has
   * one byte sequence per character.
   */
  lemma DecodeFirstCanonical(bs: seq<Byte>)
    requires |bs| > 0 && DecodeFirst(bs).Some?
    ensures DecodeFirst(bs).value.1 <= |bs|
    ensures bs[..DecodeFirst(bs).value.1] == EncodeChar(DecodeFirst(bs).value.0)
  {
    var b0 := bs[0];
    if b0 < 0x80 {
    } else if b0 < 0xE0 {
      CanonicalTwo(bs);
    } else if b0 < 0xF0 {
      CanonicalThree(bs);
    } else {
      CanonicalFour(bs);
    }
  }

  /** A two-byte sequence the decoder accepts is the encoder's form of its character. */
  lemma CanonicalTwo(bs: seq<Byte>)
    requires |bs| > 0 && 0x80 <= bs[0] < 0xE0 && DecodeFirst(bs).Some?
    ensures DecodeFirst(bs).value.1 == 2 && bs[..2] == EncodeChar(DecodeFirst(bs).value.0)
  {
    var b0: int := bs[0];
    var x1 := bs[1] as int - 0x80;
    var c := DecodeFirst(bs).value.0;
    assert c as int == (b0 - 0xC0) * 64 + x1;
    DivMod64(b0 - 0xC0, x1);
    assert EncodeChar(c) == [bs[0], bs[1]];
  }

  /** A three-byte sequence the decoder accepts is the encoder's form of its character. */
  lemma CanonicalThree(bs: seq<Byte>)
    requires |bs| > 0 && 0xE0 <= bs[0] < 0xF0 && DecodeFirst(bs).Some?
    ensures DecodeFirst(bs).value.1 == 3 && bs[..3] == EncodeChar(DecodeFirst(bs).value.0)
  {
    var b0: int := bs[0];
    var x1, x2 := bs[1] as int - 0x80, bs[2] as int - 0x80;
    var low := x1 * 64 + x2;
    var c := DecodeFirst(bs).value.0;
    assert c as int == (b0 - 0xE0) * 4096 + low;
    DivMod64(x1, x2);
    DivMod4096(b0 - 0xE0, low);
    assert EncodeChar(c) == [bs[0], bs[1], bs[2]];
  }

  /** A four-byte sequence the decoder accepts is the encoder's form of its character. */
  lemma CanonicalFour(bs: seq<Byte>)
    requires |bs| > 0 && 0xF0 <= bs[0] && DecodeFirst(bs).Some?
    ensures DecodeFirst(bs).value.1 == 4 && bs[..4] == EncodeChar(DecodeFirst(bs).value.0)
  {
    var b0: int := bs[0];
    var x1, x2, x3 := bs[1] as int - 0x80, bs[2] as int - 0x80, bs[3] as int - 0x80;
    var lower := x2 * 64 + x3;
    var low := x1 * 4096 + lower;
    var c := DecodeFirst(bs).value.0;
    assert c as int == (b0 - 0xF0) * 262144 + low;
    DivMod64(x2, x3);
    DivMod4096(x1, lower);
    DivMod262144(b0 - 0xF0, low);
    assert EncodeChar(c) == [bs[0], bs[1], bs[2], bs[3]];
  }

  /** Decoding the UTF-8 encoding of a string gives the string back. */
  lemma {:induction false} DecodeEncode(s: string)
    ensures Decode(Encode(s)) == Some(s)
  {
    if s != [] {
      var head := EncodeChar(s[0]);
      var bs := Encode(s);
      assert bs == head + Encode(s[1..]);
      DecodeFirstOfEncoded(s[0], Encode(s[1..]));
      assert bs[|head|..] == Encode(s[1..]);
      DecodeEncode(s[1..]);
      assert s == [s[0]] + s[1..];
    }
  }
}
