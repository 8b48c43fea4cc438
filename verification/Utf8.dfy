/** utf16_literal_to_utf8: \uXXXX escapes, and the UTF-8 bytes they stand for. */
module Utf8 {
  import opened Bytes

  /** The value of a hexadecimal digit, or -1. */
  function HexValue(b: byte): (v: int)
    ensures -1 <= v < 16
  {
    if 48 <= b <= 57 then b - 48
    else if 65 <= b <= 70 then b - 55
    else if 97 <= b <= 102 then b - 87
    else -1
  }

  predicate IsHex(b: byte) { HexValue(b) >= 0 }

  predicate FourHex(s: bytes, i: nat) {
    i + 4 <= |s| && IsHex(s[i]) && IsHex(s[i + 1]) && IsHex(s[i + 2]) && IsHex(s[i + 3])
  }

  /** The number that four hexadecimal digits write, and 0 when they are not four digits. */
  function Hex4(s: bytes, i: nat): (h: nat)
    requires i + 4 <= |s|
    ensures h <= 0xFFFF
    ensures h != 0 ==> FourHex(s, i)
  {
    if FourHex(s, i) then
      HexValue(s[i]) * 4096 + HexValue(s[i + 1]) * 256
      + HexValue(s[i + 2]) * 16 + HexValue(s[i + 3])
    else 0
  }

  /** parse_hex4. */
  method ParseHex4(s: bytes, at: nat) returns (h: nat)
    requires at + 4 <= |s|
    ensures h == Hex4(s, at)
  {
    h := 0;
    var i := 0;
    while i < 4
      invariant 0 <= i <= 4
      invariant i > 0 ==> IsHex(s[at])
      invariant i > 1 ==> IsHex(s[at + 1])
      invariant i > 2 ==> IsHex(s[at + 2])
      invariant i > 3 ==> IsHex(s[at + 3])
      invariant i == 0 ==> h == 0
      invariant i == 1 ==> h == HexValue(s[at]) * 16
      invariant i == 2 ==> h == HexValue(s[at]) * 256 + HexValue(s[at + 1]) * 16
      invariant i == 3 ==> h == HexValue(s[at]) * 4096 + HexValue(s[at + 1]) * 256
                              + HexValue(s[at + 2]) * 16
      invariant i == 4 ==> h == HexValue(s[at]) * 4096 + HexValue(s[at + 1]) * 256
                              + HexValue(s[at + 2]) * 16 + HexValue(s[at + 3])
    {
      var b := s[at + i];
      if b >= 48 && b <= 57 {
        h := h + b - 48;
      } else if b >= 65 && b <= 70 {
        h := h + 10 + b - 65;
      } else if b >= 97 && b <= 102 {
        h := h + 10 + b - 97;
      } else {
        return 0;
      }
      if i < 3 {
        h := h * 16;
      }
      i := i + 1;
    }
  }

  predicate LeadSurrogate(h: nat) { 0xD800 <= h <= 0xDBFF }
  predicate TrailSurrogate(h: nat) { 0xDC00 <= h <= 0xDFFF }

  /** Unicode scalar values: code points that are not surrogates. */
  predicate Scalar(cp: nat) { cp <= 0x10FFFF && !(0xD800 <= cp <= 0xDFFF) }

  /** Section 2.2 of RFC 2781. */
  function FromSurrogates(w1: nat, w2: nat): (cp: nat)
    requires LeadSurrogate(w1) && TrailSurrogate(w2)
    ensures Scalar(cp) && cp >= 0x10000
  {
    (w1 - 0xD800) * 0x400 + (w2 - 0xDC00) + 0x10000
  }

  lemma LowBits(w1: nat, w2: nat)
    requires LeadSurrogate(w1) && TrailSurrogate(w2)
    ensures w1 % 0x400 == w1 - 0xD800 && w2 % 0x400 == w2 - 0xDC00
  {
  }

  datatype Literal = Bad | Good(length: nat, codepoint: nat)

  /** Which code point the literal at `p` stands for, and how many bytes of input it takes. */
  function LiteralAt(s: bytes, p: nat, end: nat): (r: Literal)
    requires end <= |s|
    ensures r.Good? ==> Scalar(r.codepoint) && (r.length == 6 || r.length == 12) && p + r.length <= end
  {
    if p + 6 > end then Bad
    else
      var first := Hex4(s, p + 2);
      if TrailSurrogate(first) then Bad
      else if LeadSurrogate(first) then
        if p + 12 > end || s[p + 6] != BACKSLASH || s[p + 7] != LETTER_U then Bad
        else
          var second := Hex4(s, p + 8);
          if TrailSurrogate(second) then Good(12, FromSurrogates(first, second)) else Bad
      else Good(6, first)
  }

  /** Section 3 of RFC 3629. */
  function Encode(cp: nat): (r: bytes)
    requires cp <= 0x10FFFF
    ensures 1 <= |r| <= 4
  {
    if cp < 0x80 then [cp]
    else if cp < 0x800 then [0xC0 + cp / 64, 0x80 + cp % 64]
    else if cp < 0x10000 then [0xE0 + cp / 4096, 0x80 + cp / 64 % 64, 0x80 + cp % 64]
    else [0xF0 + cp / 262144, 0x80 + cp / 4096 % 64, 0x80 + cp / 64 % 64, 0x80 + cp % 64]
  }

  /** What a byte 10xxxxxx carries, or -1. */
  function TailBits(b: byte): (v: int)
    ensures -1 <= v < 64
  {
    if 0x80 <= b <= 0xBF then b - 0x80 else -1
  }

  /** The syntax of section 4 of RFC 3629, one character, and the code point it encodes. */
  function Decode(b: bytes): Option<nat> {
    if |b| == 1 && b[0] <= 0x7F then Some(b[0])
    else if |b| == 2 && 0xC2 <= b[0] <= 0xDF && TailBits(b[1]) >= 0 then
      Some((b[0] - 0xC0) as int * 64 + TailBits(b[1]))
    else if |b| == 3 && TailBits(b[1]) >= 0 && TailBits(b[2]) >= 0
            && ((b[0] == 0xE0 && 0xA0 <= b[1]) || 0xE1 <= b[0] <= 0xEC
                || (b[0] == 0xED && b[1] <= 0x9F) || 0xEE <= b[0] <= 0xEF) then
      Some((b[0] - 0xE0) as int * 4096 + TailBits(b[1]) * 64 + TailBits(b[2]))
    else if |b| == 4 && TailBits(b[1]) >= 0 && TailBits(b[2]) >= 0 && TailBits(b[3]) >= 0
            && ((b[0] == 0xF0 && 0x90 <= b[1]) || 0xF1 <= b[0] <= 0xF3
                || (b[0] == 0xF4 && b[1] <= 0x8F)) then
      Some((b[0] - 0xF0) as int * 262144 + TailBits(b[1]) * 4096 + TailBits(b[2]) * 64 + TailBits(b[3]))
    else None
  }

  /**
   * The emitted bytes are well formed and encode the code point; and they are
   * the only bytes that do, so no shorter form exists.
   */
  lemma EncodingIsUtf8(cp: nat, other: bytes)
    requires Scalar(cp)
    ensures Decode(Encode(cp)) == Some(cp)
    ensures Decode(other) == Some(cp) <==> other == Encode(cp)
  {
    DecodeEncode(cp);
    if Decode(other) == Some(cp) {
      EncodeDecode(other);
    }
  }

  lemma DecodeEncode(cp: nat)
    requires Scalar(cp)
    ensures Decode(Encode(cp)) == Some(cp)
  {
    if cp < 0x800 {
    } else if cp < 0x10000 {
      DecodeEncodeThree(cp);
    } else {
      DecodeEncodeFour(cp);
    }
  }

  lemma DecodeEncodeThree(cp: nat)
    requires Scalar(cp) && 0x800 <= cp < 0x10000
    ensures Decode(Encode(cp)) == Some(cp)
  {
    assert cp / 4096 == cp / 64 / 64;
  }

  lemma DecodeEncodeFour(cp: nat)
    requires Scalar(cp) && 0x10000 <= cp
    ensures Decode(Encode(cp)) == Some(cp)
  {
    assert cp / 4096 == cp / 64 / 64 && cp / 262144 == cp / 64 / 64 / 64;
  }

  lemma SixBits(high: nat, low: nat)
    requires low < 64
    ensures (high * 64 + low) / 64 == high && (high * 64 + low) % 64 == low
  {
  }

  lemma EncodeDecode(b: bytes)
    requires Decode(b).Some?
    ensures Scalar(Decode(b).value) && Encode(Decode(b).value) == b
  {
    var cp := Decode(b).value;
    if |b| == 2 {
      SixBits(b[0] - 0xC0, TailBits(b[1]));
    } else if |b| == 3 {
      EncodeDecodeThree(b);
    } else if |b| == 4 {
      EncodeDecodeFour(b);
    }
  }

  lemma EncodeDecodeThree(b: bytes)
    requires Decode(b).Some? && |b| == 3
    ensures Scalar(Decode(b).value) && Encode(Decode(b).value) == b
  {
    var cp := Decode(b).value;
    var high := (b[0] - 0xE0) as int * 64 + TailBits(b[1]);
    SixBits(b[0] - 0xE0, TailBits(b[1]));
    SixBits(high, TailBits(b[2]));
    assert cp == high * 64 + TailBits(b[2]);
    assert cp / 4096 == cp / 64 / 64;
  }

  lemma EncodeDecodeFour(b: bytes)
    requires Decode(b).Some? && |b| == 4
    ensures Scalar(Decode(b).value) && Encode(Decode(b).value) == b
  {
    var cp := Decode(b).value;
    var high := (b[0] - 0xF0) as int * 64 + TailBits(b[1]);
    var middle := high * 64 + TailBits(b[2]);
    SixBits(b[0] - 0xF0, TailBits(b[1]));
    SixBits(high, TailBits(b[2]));
    SixBits(middle, TailBits(b[3]));
    assert cp == middle * 64 + TailBits(b[3]);
    assert cp / 4096 == cp / 64 / 64 && cp / 262144 == cp / 64 / 64 / 64;
  }

  /** The masks and shifts of the source, as the arithmetic used here. */
  lemma BitsAsArithmetic(x: bv32, mark: bv32, first: bv32, second: bv32)
    ensures ((x | 0x80) & 0xBF) & 0xFF == 0x80 + x % 64
    ensures x >> 6 == x / 64
    ensures x & 0x7F == x % 128
    ensures x < 0x20 ==> (x | 0xC0) & 0xFF == x + 0xC0
    ensures x < 0x10 ==> (x | 0xE0) & 0xFF == x + 0xE0
    ensures x < 0x08 ==> (x | 0xF0) & 0xFF == x + 0xF0
    ensures 0xD800 <= first <= 0xDBFF && 0xDC00 <= second <= 0xDFFF ==>
      0x10000 + (((first & 0x3FF) << 10) | (second & 0x3FF))
      == (first - 0xD800) * 0x400 + (second - 0xDC00) + 0x10000
  {
  }

  /** The encoder's loop: the last byte first, six bits at a time. */
  method EncodeInto(cp: nat, output: array<byte>, out: nat) returns (next: nat)
    requires Scalar(cp) && out + |Encode(cp)| <= output.Length
    modifies output
    ensures next == out + |Encode(cp)|
    ensures output[..next] == old(output[..out]) + Encode(cp)
    ensures output[next..] == old(output[next..])
  {
    hide Encode, Power64;
    EncodedFirst(cp);
    var codepoint := cp;
    var length, mark := 1, 0;
    if codepoint < 0x80 {
    } else if codepoint < 0x800 {
      length, mark := 2, 0xC0;
    } else if codepoint < 0x10000 {
      length, mark := 3, 0xE0;
    } else {
      length, mark := 4, 0xF0;
    }
    var position := length - 1;
    while position > 0
      invariant 0 <= position < length == |Encode(cp)|
      invariant codepoint == cp / Power64(length - 1 - position)
      invariant forall k :: position < k < length ==> output[out + k] == Encode(cp)[k]
      invariant output[..out] == old(output[..out])
      invariant output[out + length..] == old(output[out + length..])
    {
      EncodedByte(cp, position);
      output[out + position] := 0x80 + codepoint % 64;
      codepoint := codepoint / 64;
      position := position - 1;
    }
    if length > 1 {
      output[out] := codepoint + mark;
    } else {
      output[out] := codepoint % 128;
    }
    next := out + length;
    assert output[out..next] == Encode(cp);
    assert output[..next] == output[..out] + output[out..next];
  }

  lemma EncodedFirst(cp: nat)
    requires Scalar(cp)
    ensures |Encode(cp)| == if cp < 0x80 then 1 else if cp < 0x800 then 2 else if cp < 0x10000 then 3 else 4
    ensures cp / Power64(0) == cp
    ensures
      var n := |Encode(cp)|;
      var top := cp / Power64(n - 1);
      Encode(cp)[0] == (if n == 1 then top % 128
                        else top + if n == 2 then 0xC0 else if n == 3 then 0xE0 else 0xF0)
  {
  }

  function Power64(n: nat): (p: nat)
    ensures p > 0
    ensures n == 0 ==> p == 1
    ensures n == 1 ==> p == 64
    ensures n == 2 ==> p == 4096
    ensures n == 3 ==> p == 262144
  {
    if n == 0 then 1 else 64 * Power64(n - 1)
  }

  lemma EncodedByte(cp: nat, position: nat)
    requires Scalar(cp) && 0 < position < |Encode(cp)|
    ensures Encode(cp)[position] == 0x80 + cp / Power64(|Encode(cp)| - 1 - position) % 64
    ensures cp / Power64(|Encode(cp)| - 1 - position) / 64 == cp / Power64(|Encode(cp)| - position)
  {
  }
}
