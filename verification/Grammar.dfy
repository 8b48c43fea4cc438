/**
 * The grammar of section 2 of RFC 8259, as syntax trees that keep the white
 * space and the escapes, with the text each one stands for and its meaning.
 */
module Grammar {
  import opened Bytes
  import opened CLibrary
  import opened Items
  import opened StringParser
  import opened Utf8

  /** A character of a string (section 7): as itself, or in one of the escaped forms. */
  datatype Chr = Plain(b: byte) | Escape(c: byte) | Unit(hex: bytes) | Pair(lead: bytes, trail: bytes)

  predicate ValidChr(c: Chr) {
    match c
    case Plain(b) => b >= 32 && b != QUOTE && b != BACKSLASH
    case Escape(c) => Unescape(c).Some?
    case Unit(hex) => |hex| == 4 && FourHex(hex, 0) && Scalar(Hex4(hex, 0))
    case Pair(lead, trail) =>
      |lead| == 4 && |trail| == 4 && LeadSurrogate(Hex4(lead, 0)) && TrailSurrogate(Hex4(trail, 0))
  }

  predicate ValidChrs(cs: seq<Chr>) {
    forall i :: 0 <= i < |cs| ==> ValidChr(cs[i])
  }

  function FlatChr(c: Chr): bytes {
    match c
    case Plain(b) => [b]
    case Escape(c) => [BACKSLASH, c]
    case Unit(hex) => [BACKSLASH, LETTER_U] + hex
    case Pair(lead, trail) => [BACKSLASH, LETTER_U] + lead + [BACKSLASH, LETTER_U] + trail
  }

  function FlatChrs(cs: seq<Chr>): bytes {
    if cs == [] then [] else FlatChr(cs[0]) + FlatChrs(cs[1..])
  }

  /** What parse_string can read: also raw bytes, and anything at all for hexadecimal digits, which then stand for 0. */
  predicate ReadableChr(c: Chr) {
    match c
    case Plain(b) => b != BACKSLASH
    case Escape(c) => Unescape(c).Some?
    case Unit(hex) => |hex| == 4 && Scalar(Hex4(hex, 0))
    case Pair(lead, trail) =>
      |lead| == 4 && |trail| == 4 && LeadSurrogate(Hex4(lead, 0)) && TrailSurrogate(Hex4(trail, 0))
  }

  predicate ReadableChrs(cs: seq<Chr>) {
    forall i :: 0 <= i < |cs| ==> ReadableChr(cs[i])
  }

  /** The bytes a character stands for, if it can be read. */
  function Meaning(c: Chr): bytes {
    if !ReadableChr(c) then []
    else
      match c
      case Plain(b) => [b]
      case Escape(c) => [Unescape(c).value]
      case Unit(hex) => Encode(Hex4(hex, 0))
      case Pair(lead, trail) => Encode(FromSurrogates(Hex4(lead, 0), Hex4(trail, 0)))
  }

  function Meanings(cs: seq<Chr>): bytes {
    if cs == [] then [] else Meaning(cs[0]) + Meanings(cs[1..])
  }

  /**
   * How a value sits in the container around it: the name of a member, and the
   * white space before and after its colon, after the value, and after the comma.
   */
  datatype Slot = Slot(name: seq<Chr>, beforeColon: bytes, afterColon: bytes, after: bytes, afterComma: bytes)

  /** A value; `pad` is the white space behind an opening bracket or brace. */
  datatype Cst =
    | CNull(slot: Slot)
    | CFalse(slot: Slot)
    | CTrue(slot: Slot)
    | CNumber(slot: Slot, lexeme: bytes)
    | CString(slot: Slot, chars: seq<Chr>)
    | CArray(slot: Slot, pad: bytes, kids: seq<Cst>)
    | CObject(slot: Slot, pad: bytes, kids: seq<Cst>)

  predicate ValidSlot(slot: Slot) {
    && ValidChrs(slot.name)
    && AllSpace(slot.beforeColon) && AllSpace(slot.afterColon)
    && AllSpace(slot.after) && AllSpace(slot.afterComma)
  }

  predicate Valid(c: Cst)
    decreases c
  {
    match c
    case CNumber(_, lexeme) => JsonNumber(lexeme)
    case CString(_, chars) => ValidChrs(chars)
    case CArray(_, pad, kids) => AllSpace(pad) && forall k :: k in kids ==> ValidSlot(k.slot) && Valid(k)
    case CObject(_, pad, kids) => AllSpace(pad) && forall k :: k in kids ==> ValidSlot(k.slot) && Valid(k)
    case _ => true
  }

  /** No array or object is nested deeper than the limit when this value is at depth `d`. */
  predicate NestingFits(c: Cst, d: nat)
    decreases c
  {
    c.CArray? || c.CObject? ==> d < NESTING_LIMIT && forall k :: k in c.kids ==> NestingFits(k, d + 1)
  }

  function QuotedChrs(cs: seq<Chr>): bytes {
    [QUOTE] + FlatChrs(cs) + [QUOTE]
  }

  /** The text of a value. */
  function Flat(c: Cst): bytes
    decreases c, 1
  {
    match c
    case CNull(_) => NULL_TEXT
    case CFalse(_) => FALSE_TEXT
    case CTrue(_) => TRUE_TEXT
    case CNumber(_, lexeme) => lexeme
    case CString(_, chars) => QuotedChrs(chars)
    case CArray(_, pad, kids) => [OPEN_BRACKET] + pad + FlatElements(kids) + [CLOSE_BRACKET]
    case CObject(_, pad, kids) => [OPEN_BRACE] + pad + FlatMembers(kids) + [CLOSE_BRACE]
  }

  function SlotEnd(slot: Slot, last: bool): bytes {
    slot.after + (if last then [] else [COMMA] + slot.afterComma)
  }

  function SlotStart(slot: Slot): bytes {
    QuotedChrs(slot.name) + slot.beforeColon + [COLON] + slot.afterColon
  }

  function FlatElements(kids: seq<Cst>): bytes
    decreases kids, 0
  {
    if kids == [] then []
    else Flat(kids[0]) + SlotEnd(kids[0].slot, |kids| == 1) + FlatElements(kids[1..])
  }

  function FlatMembers(kids: seq<Cst>): bytes
    decreases kids, 0
  {
    if kids == [] then []
    else
      SlotStart(kids[0].slot) + Flat(kids[0]) + SlotEnd(kids[0].slot, |kids| == 1)
      + FlatMembers(kids[1..])
  }

  /** The tree a value denotes. Strings are C strings, so they end at the first NUL. */
  function Denote(lib: CLib, c: Cst): Item
    decreases c, 1
  {
    match c
    case CNull(_) => Null(None)
    case CFalse(_) => False(None)
    case CTrue(_) => True(None)
    case CNumber(_, lexeme) => Number(None, lib.strtod(lexeme).value)
    case CString(_, chars) => String(None, Some(Bytes.CString(Meanings(chars))))
    case CArray(_, _, kids) => Array(None, DenoteElements(lib, kids))
    case CObject(_, _, kids) => Object(None, DenoteMembers(lib, kids))
  }

  predicate ValidKids(kids: seq<Cst>) {
    forall k :: k in kids ==> ValidSlot(k.slot) && Valid(k)
  }

  function DenoteElements(lib: CLib, kids: seq<Cst>): seq<Item>
    decreases kids, 0
  {
    if kids == [] then [] else [Denote(lib, kids[0])] + DenoteElements(lib, kids[1..])
  }

  function DenoteMembers(lib: CLib, kids: seq<Cst>): seq<Item>
    decreases kids, 0
  {
    if kids == [] then []
    else
      [WithKey(Denote(lib, kids[0]), Some(Bytes.CString(Meanings(kids[0].slot.name))))]
      + DenoteMembers(lib, kids[1..])
  }
}
