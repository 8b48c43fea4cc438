/** parse_string, as functions on the input, and the size of what it stores. */
module StringParser {
  import opened Bytes
  import opened Utf8

  /** The first pass: from behind the opening quote to the closing one, stepping over escaped bytes. */
  function CloseQuote(s: bytes, i: nat): (end: Option<nat>)
    ensures end.Some? ==> i <= end.value < |s| && s[end.value] == QUOTE
    decreases |s| - i
  {
    if i >= |s| then None
    else if s[i] == QUOTE then Some(i)
    else if s[i] == BACKSLASH then
      if i + 1 >= |s| then None else CloseQuote(s, i + 2)
    else CloseQuote(s, i + 1)
  }

  /** How many steps the first pass takes: what it counts, less what it skips. */
  function Steps(s: bytes, i: nat): (n: nat)
    requires CloseQuote(s, i).Some?
    ensures n <= CloseQuote(s, i).value - i
    decreases |s| - i
  {
    if s[i] == QUOTE then 0
    else if s[i] == BACKSLASH then 1 + Steps(s, i + 2)
    else 1 + Steps(s, i + 1)
  }

  /** The byte for a two-byte escape. */
  function Unescape(b: byte): Option<byte> {
    if b == 98 then Some(8)
    else if b == 102 then Some(12)
    else if b == 110 then Some(10)
    else if b == 114 then Some(13)
    else if b == 116 then Some(9)
    else if b == QUOTE || b == BACKSLASH || b == SLASH then Some(b)
    else None
  }

  datatype Decoded = Unescaped(text: bytes) | BadAt(at: nat)

  /** The second pass, from `p` on, with `acc` already stored. It may end one byte past `end`. */
  function DecodeFrom(s: bytes, p: nat, end: nat, acc: bytes): Decoded
    requires end < |s|
    decreases |s| - p
  {
    if p >= end then Unescaped(acc)
    else if s[p] != BACKSLASH then DecodeFrom(s, p + 1, end, acc + [s[p]])
    else if Unescape(s[p + 1]).Some? then
      DecodeFrom(s, p + 2, end, acc + [Unescape(s[p + 1]).value])
    else if s[p + 1] == LETTER_U then
      match LiteralAt(s, p, end)
      case Bad => BadAt(p)
      case Good(length, codepoint) => DecodeFrom(s, p + length, end, acc + Encode(codepoint))
    else BadAt(p)
  }

  datatype StringResult = StringRead(text: bytes, next: nat) | NoString(at: nat)

  function ParseString(s: bytes, i: nat): (r: StringResult)
    requires i < |s|
    ensures r.StringRead? ==> i < r.next <= |s|
    ensures r.NoString? ==> i < r.at <= |s|
  {
    if s[i] != QUOTE || CloseQuote(s, i + 1).None? then NoString(i + 1)
    else
      DecodeBound(s, i + 1, CloseQuote(s, i + 1).value, []);
      match DecodeFrom(s, i + 1, CloseQuote(s, i + 1).value, [])
      case Unescaped(text) => StringRead(text, CloseQuote(s, i + 1).value + 1)
      case BadAt(at) => NoString(at)
  }

  lemma {:induction false} DecodeBound(s: bytes, p: nat, end: nat, acc: bytes)
    requires end < |s|
    ensures DecodeFrom(s, p, end, acc).BadAt? ==> p <= DecodeFrom(s, p, end, acc).at < end
    decreases |s| - p
  {
    if p >= end {
    } else if s[p] != BACKSLASH {
      DecodeBound(s, p + 1, end, acc + [s[p]]);
    } else if Unescape(s[p + 1]).Some? {
      DecodeBound(s, p + 2, end, acc + [Unescape(s[p + 1]).value]);
    } else if s[p + 1] == LETTER_U && LiteralAt(s, p, end).Good? {
      var l := LiteralAt(s, p, end);
      DecodeBound(s, p + l.length, end, acc + Encode(l.codepoint));
    }
  }

  /**
   * Room for the second pass at `p`. The passes read backslashes independently,
   * so the second may stand on a byte that the first took as escaped
   * (`inside`): then the first pass goes on behind it.
   */
  ghost predicate Tracks(s: bytes, p: nat, inside: bool, end: nat) {
    CloseQuote(s, if inside then p + 1 else p) == Some(end)
  }

  ghost function Room(s: bytes, p: nat, inside: bool, end: nat): nat
    requires Tracks(s, p, inside, end)
  {
    if inside then Steps(s, p + 1) + 1 else Steps(s, p)
  }

  /** Where the second pass stands after one byte. */
  ghost function NextInside(s: bytes, p: nat, inside: bool): bool
    requires p < |s|
  {
    !inside && s[p] == BACKSLASH
  }

  /** Each byte but the backslash of an escape uses up a byte of room. */
  lemma RoomStep(s: bytes, p: nat, inside: bool, end: nat)
    requires p < end < |s| && Tracks(s, p, inside, end)
    ensures Tracks(s, p + 1, NextInside(s, p, inside), end)
    ensures Room(s, p, inside, end)
         == Room(s, p + 1, NextInside(s, p, inside), end) + (if NextInside(s, p, inside) then 0 else 1)
  {
  }

  /** The room left `n` bytes on, for a stretch without backslashes behind an escape's first byte. */
  ghost function InsideAfter(s: bytes, p: nat, inside: bool, n: nat): bool
    requires p + n <= |s|
  {
    if n == 0 then inside else NextInside(s, p + n - 1, InsideAfter(s, p, inside, n - 1))
  }

  lemma {:induction false} RoomAfter(s: bytes, p: nat, inside: bool, n: nat, end: nat)
    requires p + n <= end < |s| && Tracks(s, p, inside, end)
    ensures Tracks(s, p + n, InsideAfter(s, p, inside, n), end)
    ensures Room(s, p, inside, end) >= Room(s, p + n, InsideAfter(s, p, inside, n), end)
    ensures n > 1 ==> Room(s, p, inside, end) >=
                      Room(s, p + n, InsideAfter(s, p, inside, n), end) + n / 2
  {
    hide CloseQuote, Steps, Tracks, Room;
    if n > 0 {
      RoomAfter(s, p, inside, n - 1, end);
      RoomStep(s, p + n - 1, InsideAfter(s, p, inside, n - 1), end);
      if n > 1 {
        RoomAfter(s, p, inside, n - 2, end);
        RoomStep(s, p + n - 2, InsideAfter(s, p, inside, n - 2), end);
      }
    }
  }

  lemma RoomPlain(s: bytes, p: nat, inside: bool, end: nat)
    requires p < end < |s| && Tracks(s, p, inside, end) && s[p] != BACKSLASH
    ensures Tracks(s, p + 1, false, end)
    ensures Room(s, p, inside, end) == Room(s, p + 1, false, end) + 1
  {
    RoomStep(s, p, inside, end);
  }

  /** Where the second pass stands after a two-byte escape. */
  ghost function AfterEscape(s: bytes, p: nat, inside: bool): bool
    requires p + 1 < |s|
  {
    inside && s[p + 1] == BACKSLASH
  }

  lemma RoomEscape(s: bytes, p: nat, inside: bool, end: nat)
    requires p < end < |s| && Tracks(s, p, inside, end) && s[p] == BACKSLASH
    ensures Room(s, p, inside, end) >= 1
    ensures p + 2 <= end ==>
      && Tracks(s, p + 2, AfterEscape(s, p, inside), end)
      && Room(s, p, inside, end) >= Room(s, p + 2, AfterEscape(s, p, inside), end) + 1
  {
    RoomStep(s, p, inside, end);
    if p + 2 <= end {
      RoomStep(s, p + 1, !inside, end);
    }
  }

  lemma RoomLiteral(s: bytes, p: nat, inside: bool, end: nat)
    requires p < end < |s| && Tracks(s, p, inside, end)
    requires LiteralAt(s, p, end).Good?
    ensures
      var l := LiteralAt(s, p, end);
      && Tracks(s, p + l.length, InsideAfter(s, p, inside, l.length), end)
      && Room(s, p, inside, end)
         >= Room(s, p + l.length, InsideAfter(s, p, inside, l.length), end) + |Encode(l.codepoint)|
  {
    RoomAfter(s, p, inside, LiteralAt(s, p, end).length, end);
  }

  /** What a successful second pass stores never exceeds the steps of the first pass. */
  lemma {:induction false} DecodedFits(s: bytes, p: nat, inside: bool, end: nat, acc: bytes)
    requires end < |s| && (p <= end ==> Tracks(s, p, inside, end))
    requires DecodeFrom(s, p, end, acc).Unescaped?
    ensures |DecodeFrom(s, p, end, acc).text| <= |acc| + (if p <= end then Room(s, p, inside, end) else 0)
    decreases |s| - p
  {
    if p >= end {
    } else if s[p] != BACKSLASH {
      RoomPlain(s, p, inside, end);
      DecodedFits(s, p + 1, false, end, acc + [s[p]]);
    } else if Unescape(s[p + 1]).Some? {
      RoomEscape(s, p, inside, end);
      DecodedFits(s, p + 2, AfterEscape(s, p, inside), end, acc + [Unescape(s[p + 1]).value]);
    } else {
      var l := LiteralAt(s, p, end);
      RoomLiteral(s, p, inside, end);
      DecodedFits(s, p + l.length, InsideAfter(s, p, inside, l.length), end, acc + Encode(l.codepoint));
    }
  }

  /** The decoded text of any accepted string fits in the first pass's estimate, terminator included. */
  lemma StringFits(s: bytes, i: nat)
    requires i < |s| && ParseString(s, i).StringRead?
    ensures CloseQuote(s, i + 1).Some?
    ensures |ParseString(s, i).text| <= Steps(s, i + 1)
  {
    DecodedFits(s, i + 1, false, CloseQuote(s, i + 1).value, []);
  }
}
