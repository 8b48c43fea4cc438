/** Escapes, hexadecimal digits and code points, written as characters and numbers. */
module Escapes {
  import opened Bytes
  import opened CLibrary
  import opened Strings
  import opened Items
  import opened Utf8
  import opened StringParser
  import opened Grammar
  import opened Language
  import opened Completeness
  import opened Compare

  // ----- kinds of bytes

  lemma BytesSpelled(b: byte)
    ensures IsSpace(b) <==> b in Ascii(" \t\n\r")
    ensures IsDigit(b) <==> b in Ascii("0123456789")
    ensures NumberByte(b) <==> b in Ascii("0123456789+-.eE")
  {
    var space, digits, all := Ascii(" \t\n\r"), Ascii("0123456789"), Ascii("0123456789+-.eE");
    assert space == [32, 9, 10, 13];
    assert digits == [48, 49, 50, 51, 52, 53, 54, 55, 56, 57];
    assert all == digits + [43, 45, 46, 101, 69];
  }

  /** Only the letters of the alphabet have a lower case. */
  lemma LowerSpelled(b: byte)
    ensures
      var upper, lower := Ascii("ABCDEFGHIJKLMNOPQRSTUVWXYZ"), Ascii("abcdefghijklmnopqrstuvwxyz");
      && (b !in upper ==> Lower(b) == b)
      && forall i :: 0 <= i < 26 && b == upper[i] ==> Lower(b) == lower[i]
  {
    var upper, lower := Ascii("ABCDEFGHIJKLMNOPQRSTUVWXYZ"), Ascii("abcdefghijklmnopqrstuvwxyz");
    assert forall i :: 0 <= i < 26 ==> upper[i] == 65 + i && lower[i] == 97 + i;
    if 65 <= b <= 90 {
      assert upper[b - 65] == b;
    }
  }

  // ----- hexadecimal digits

  /** The digit `h` has the value `v`, in either case. */
  predicate Stands(h: byte, v: nat) {
    v < 16 && (h == Ascii("0123456789abcdef")[v] || h == Ascii("0123456789ABCDEF")[v])
  }

  lemma DigitsSpelled(h: byte, v: nat)
    ensures Stands(h, v) <==> HexValue(h) == v
    ensures v < 16 ==> HexDigit(v) == Ascii("0123456789abcdef")[v]
  {
    assert forall i :: 0 <= i < 10 ==> Ascii("0123456789abcdef")[i] == 48 + i == Ascii("0123456789ABCDEF")[i];
    assert forall i :: 10 <= i < 16 ==> Ascii("0123456789abcdef")[i] == 87 + i;
    assert forall i :: 10 <= i < 16 ==> Ascii("0123456789ABCDEF")[i] == 55 + i;
  }

  /** Four digits that write a number, the highest first. */
  predicate WritesHex(hex: bytes, n: nat) {
    && n < 0x10000 && |hex| == 4
    && Stands(hex[3], n % 16) && Stands(hex[2], n / 16 % 16)
    && Stands(hex[1], n / 16 / 16 % 16) && Stands(hex[0], n / 16 / 16 / 16)
  }

  lemma HexIsRead(hex: bytes, n: nat)
    requires WritesHex(hex, n)
    ensures |hex| == 4 && FourHex(hex, 0) && Hex4(hex, 0) == n
  {
    hide Stands, HexValue;
    var a, b, c, d := n / 16 / 16 / 16, n / 16 / 16 % 16, n / 16 % 16, n % 16;
    DigitsSpelled(hex[0], a);
    DigitsSpelled(hex[1], b);
    DigitsSpelled(hex[2], c);
    DigitsSpelled(hex[3], d);
    assert n / 16 == (a * 16 + b) * 16 + c && n == n / 16 * 16 + d;
  }

  // ----- code points

  /** Section 2.1 of RFC 2781: how a code point is written as two surrogates. */
  function LeadOf(cp: nat): nat
    requires 0x10000 <= cp <= 0x10FFFF
  {
    0xD800 + (cp - 0x10000) / 0x400
  }

  function TrailOf(cp: nat): nat
    requires 0x10000 <= cp <= 0x10FFFF
  {
    0xDC00 + (cp - 0x10000) % 0x400
  }

  lemma SurrogatesOf(cp: nat)
    requires 0x10000 <= cp <= 0x10FFFF
    ensures LeadSurrogate(LeadOf(cp)) && TrailSurrogate(TrailOf(cp))
    ensures FromSurrogates(LeadOf(cp), TrailOf(cp)) == cp
  {
  }

  lemma SurrogatesAreOf(w1: nat, w2: nat)
    requires LeadSurrogate(w1) && TrailSurrogate(w2)
    ensures LeadOf(FromSurrogates(w1, w2)) == w1 && TrailOf(FromSurrogates(w1, w2)) == w2
  {
  }

  /** Every code point beyond the basic plane is read from its two surrogates, wherever the string stands. */
  lemma PairIsRead(s: bytes, i: nat, cp: nat, lead: bytes, trail: bytes)
    requires 0x10000 <= cp <= 0x10FFFF && WritesHex(lead, LeadOf(cp)) && WritesHex(trail, TrailOf(cp))
    requires At(s, i, Ascii("\"\\u") + lead + Ascii("\\u") + trail + Ascii("\""))
    ensures ParseString(s, i) == StringRead(Encode(cp), i + 14)
  {
    hide WritesHex, At, Encode, ParseString, Hex4, FromSurrogates, LeadOf, TrailOf, QuotedChrs;
    SurrogatesOf(cp);
    HexIsRead(lead, LeadOf(cp));
    HexIsRead(trail, TrailOf(cp));
    OneChr(Pair(lead, trail));
    PairText(lead, trail);
    ParsesString(s, i, [Pair(lead, trail)]);
  }

  lemma PairText(lead: bytes, trail: bytes)
    ensures QuotedChrs([Pair(lead, trail)]) == Ascii("\"\\u") + lead + Ascii("\\u") + trail + Ascii("\"")
  {
    OneChr(Pair(lead, trail));
    assert Ascii("\"\\u") == [QUOTE] + [BACKSLASH, LETTER_U] && Ascii("\\u") == [BACKSLASH, LETTER_U];
    assert Ascii("\"") == [QUOTE];
    assert [QUOTE] + ([BACKSLASH, LETTER_U] + lead + [BACKSLASH, LETTER_U] + trail) + [QUOTE]
        == [QUOTE] + [BACKSLASH, LETTER_U] + lead + [BACKSLASH, LETTER_U] + trail + [QUOTE];
  }

  /** And every other one from its own four digits. */
  lemma UnitIsRead(s: bytes, i: nat, cp: nat, hex: bytes)
    requires cp < 0xD800 || 0xE000 <= cp < 0x10000
    requires WritesHex(hex, cp) && At(s, i, Ascii("\"\\u") + hex + Ascii("\""))
    ensures ParseString(s, i) == StringRead(Encode(cp), i + 8)
  {
    hide WritesHex, At, Encode, ParseString;
    HexIsRead(hex, cp);
    var c := Unit(hex);
    OneChr(c);
    assert Ascii("\"\\u") == [QUOTE] + [BACKSLASH, LETTER_U] && Ascii("\"") == [QUOTE];
    assert Ascii("\"\\u") + hex + Ascii("\"") == QuotedChrs([c]);
    ParsesString(s, i, [c]);
  }

  /** A surrogate alone is refused, at its backslash. */
  lemma SurrogateRefused(s: bytes, i: nat, w: nat, hex: bytes)
    requires 0xD800 <= w <= 0xDFFF && WritesHex(hex, w) && At(s, i, Ascii("\"\\u") + hex + Ascii("\""))
    ensures ParseString(s, i) == NoString(i + 1)
  {
    hide WritesHex;
    HexIsRead(hex, w);
    var t := Ascii("\"\\u") + hex + Ascii("\"");
    assert t == [QUOTE, BACKSLASH, LETTER_U] + hex + [QUOTE];
    forall k | 0 <= k < |t| ensures s[i + k] == t[k] {
      assert s[i..i + |t|][k] == t[k];
    }
    SurrogateAlone(s, i, hex);
  }

  lemma SurrogateAlone(s: bytes, i: nat, hex: bytes)
    requires i + 8 <= |s| && |hex| == 4 && FourHex(hex, 0) && 0xD800 <= Hex4(hex, 0) <= 0xDFFF
    requires s[i] == QUOTE && s[i + 1] == BACKSLASH && s[i + 2] == LETTER_U && s[i + 7] == QUOTE
    requires forall k :: 0 <= k < 4 ==> s[i + 3 + k] == hex[k]
    ensures ParseString(s, i) == NoString(i + 1)
  {
    assert Hex4(s, i + 3) == Hex4(hex, 0);
    forall k | 0 <= k < 4 ensures hex[k] != QUOTE && hex[k] != BACKSLASH {
      assert HexValue(hex[k]) >= 0;
    }
    assert CloseQuote(s, i + 7) == Some(i + 7);
    assert CloseQuote(s, i + 5) == CloseQuote(s, i + 7);
    assert CloseQuote(s, i + 3) == CloseQuote(s, i + 5);
    assert LiteralAt(s, i + 1, i + 7).Bad?;
  }

  /** Digits that are none count as 0, all four of them; such a text is no JSON, and is read all the same. */
  lemma BadDigitsRead(s: bytes, i: nat, hex: bytes, k: nat)
    requires |hex| == 4 && k < 4 && (forall v: nat :: !Stands(hex[k], v)) && 34 !in hex && 92 !in hex
    requires At(s, i, Ascii("\"\\u") + hex + Ascii("\""))
    ensures ParseString(s, i) == StringRead([0], i + 8)
  {
    hide At, ParseString, Stands, Scanned, FlatChrs, Meanings;
    var c := Unit(hex);
    NoDigit(hex, k);
    OneChr(c);
    PlainScanned(hex);
    EscapeScanned(hex);
    assert Ascii("\"\\u") == Ascii("\"") + [BACKSLASH, LETTER_U];
    assert Ascii("\"\\u") + hex == Ascii("\"") + ([BACKSLASH, LETTER_U] + hex);
    ReadsChrs(s, i, [c]);
  }

  lemma NoDigit(hex: bytes, k: nat)
    requires |hex| == 4 && k < 4 && (forall v: nat :: !Stands(hex[k], v))
    ensures ReadableChr(Unit(hex)) && Meaning(Unit(hex)) == [0]
  {
    hide Stands, HexValue;
    if IsHex(hex[k]) {
      DigitsSpelled(hex[k], HexValue(hex[k]));
    }
    assert Hex4(hex, 0) == 0;
    assert Encode(0) == [0];
  }

  lemma EscapeScanned(rest: bytes)
    requires Scanned(rest)
    ensures Scanned([BACKSLASH, LETTER_U] + rest)
  {
    assert ([BACKSLASH, LETTER_U] + rest)[2..] == rest;
  }

  lemma OneChr(c: Chr)
    ensures FlatChrs([c]) == FlatChr(c) && Meanings([c]) == Meaning(c)
  {
    hide FlatChr, Meaning;
    assert [c][1..] == [];
  }

  /** U+0041, U+00E9, U+20AC and U+1F600 in UTF-8. */
  lemma Encodings()
    ensures Encode(0x41) == [0x41] && Encode(0xE9) == [0xC3, 0xA9]
    ensures Encode(0x20AC) == [0xE2, 0x82, 0xAC] && Encode(0x1F600) == [0xF0, 0x9F, 0x98, 0x80]
    ensures LeadOf(0x1F600) == 0xD83D && TrailOf(0x1F600) == 0xDE00
  {
  }

  // ----- bytes that stand for themselves

  function Plains(raw: bytes): seq<Chr> {
    if raw == [] then [] else [Plain(raw[0])] + Plains(raw[1..])
  }

  lemma {:induction false} PlainsAre(raw: bytes)
    requires 34 !in raw && 92 !in raw
    ensures ReadableChrs(Plains(raw)) && FlatChrs(Plains(raw)) == raw == Meanings(Plains(raw))
  {
    if raw != [] {
      PlainsAre(raw[1..]);
      assert Plains(raw)[1..] == Plains(raw[1..]);
      assert [raw[0]] + raw[1..] == raw;
    }
  }

  lemma {:induction false} PlainScanned(raw: bytes)
    requires 34 !in raw && 92 !in raw
    ensures Scanned(raw)
  {
    if raw != [] {
      PlainScanned(raw[1..]);
    }
  }

  lemma ReadsChrs(s: bytes, i: nat, cs: seq<Chr>)
    requires ReadableChrs(cs) && Scanned(FlatChrs(cs)) && At(s, i, Ascii("\"") + FlatChrs(cs) + Ascii("\""))
    ensures ParseString(s, i) == StringRead(Meanings(cs), i + |FlatChrs(cs)| + 2)
  {
    hide At, CloseQuote, DecodeFrom, FlatChrs, Meanings, Scanned, ReadableChrs, Overruns;
    var body := FlatChrs(cs);
    assert Ascii("\"") == [QUOTE];
    EnclosedIn(s, i, Ascii("\"") + body + Ascii("\""), QUOTE, body, QUOTE);
    ScannedCloses(s, i + 1, body);
    DecodesTo(s, i + 1, i + 1 + |body|, cs, []);
    assert [] + Meanings(cs) == Meanings(cs);
  }

  /** All bytes but quotes and backslashes are kept, control bytes and broken UTF-8 too. */
  lemma RawBytesRead(s: bytes, i: nat, raw: bytes)
    requires 34 !in raw && 92 !in raw && At(s, i, Ascii("\"") + raw + Ascii("\""))
    ensures ParseString(s, i) == StringRead(raw, i + |raw| + 2)
  {
    hide At, ParseString, Scanned, FlatChrs, Meanings, ReadableChrs;
    PlainsAre(raw);
    PlainScanned(raw);
    ReadsChrs(s, i, Plains(raw));
  }

  // ----- two-byte escapes

  /** The escapes, and the bytes they stand for. */
  lemma EscapeIsRead(s: bytes, i: nat, k: nat)
    requires k < 8 && At(s, i, Ascii("\"\\") + [Ascii("\"\\/bfnrt")[k]] + Ascii("\""))
    ensures ParseString(s, i) == StringRead([[34, 92, 47, 8, 12, 10, 13, 9][k]], i + 4)
  {
    hide At, ParseString;
    var c := Escape(Ascii("\"\\/bfnrt")[k]);
    LettersAre();
    OneChr(c);
    assert Ascii("\"\\") == [QUOTE] + [BACKSLASH] && Ascii("\"") == [QUOTE];
    assert Ascii("\"\\") + [c.c] + Ascii("\"") == QuotedChrs([c]);
    ParsesString(s, i, [c]);
  }

  lemma LettersAre()
    ensures Ascii("\"\\/bfnrt") == [34, 92, 47, 98, 102, 110, 114, 116]
  {
  }

  /** No other letter makes an escape, apart from u. */
  lemma OtherLetters(c: byte)
    ensures Unescape(c).Some? <==> c in Ascii("\"\\/bfnrt")
  {
    LettersAre();
  }

  /** What each byte is written as. */
  lemma ByteWritten(b: byte)
    ensures
      var escaped, letters := [34, 92, 8, 12, 10, 13, 9], Ascii("\"\\bfnrt");
      && (forall k :: 0 <= k < 7 && b == escaped[k] ==> EscapedByte(b) == Ascii("\\") + [letters[k]])
      && (b < 32 && b !in escaped ==>
            EscapedByte(b) == Ascii("\\u00") + [Ascii("01")[b / 16], Ascii("0123456789abcdef")[b % 16]])
      && (b >= 32 && b !in escaped ==> EscapedByte(b) == [b])
  {
    assert Ascii("\"\\bfnrt") == [34, 92, 98, 102, 110, 114, 116] && Ascii("\\") == [92];
    if b < 32 && ShortEscape(b).None? {
      DigitsSpelled(0, b / 16);
      DigitsSpelled(0, b % 16);
      assert Ascii("01")[b / 16] == Ascii("0123456789abcdef")[b / 16];
      assert Ascii("\\u00") == [92, 117, 48, 48];
    }
  }
}
