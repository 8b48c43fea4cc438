/**
 * The parser as functions on the input and the offset. A failure carries the
 * offset at which the source leaves its buffer, which is the reported position.
 */
module Parser {
  import opened Bytes
  import opened CLibrary
  import opened Items
  import opened StringParser

  datatype Parsed = Ok(item: Item, next: nat) | Fail(at: nat)

  /** The first byte from `i` on that is not white space or a control byte. */
  function SpaceEnd(s: bytes, i: nat): (j: nat)
    requires i <= |s|
    ensures i <= j <= |s|
    ensures forall k :: i <= k < j ==> s[k] <= 32
    ensures j < |s| ==> s[j] > 32
    decreases |s| - i
  {
    if i < |s| && s[i] <= 32 then SpaceEnd(s, i + 1) else i
  }

  /** buffer_skip_whitespace: when nothing else is left it steps back to the last byte. */
  function SkipSpace(s: bytes, i: nat): (j: nat)
    requires i <= |s|
    ensures i <= j <= |s|
    ensures i < |s| ==> j < |s|
  {
    if i >= |s| then i
    else if SpaceEnd(s, i) == |s| then |s| - 1
    else SpaceEnd(s, i)
  }

  function NumberEnd(s: bytes, i: nat): (j: nat)
    requires i <= |s|
    ensures i <= j <= |s|
    ensures forall k :: i <= k < j ==> NumberByte(s[k])
    ensures j < |s| ==> !NumberByte(s[j])
    decreases |s| - i
  {
    if i < |s| && NumberByte(s[i]) then NumberEnd(s, i + 1) else i
  }

  function ParseNumber(lib: CLib, s: bytes, i: nat): (r: Parsed)
    requires i <= |s|
    ensures r.Ok? ==> i < r.next <= |s| && r.item.key.None?
    ensures r.Fail? ==> r.at == i
  {
    var number := lib.strtod(s[i..NumberEnd(s, i)]);
    if number.consumed == 0 then Fail(i) else Ok(Number(None, number.value), i + number.consumed)
  }

  /** parse_value, at nesting depth `d`. */
  function ParseValue(lib: CLib, s: bytes, i: nat, d: nat): (r: Parsed)
    requires i <= |s|
    ensures r.Ok? ==> i < r.next <= |s| && r.item.key.None?
    ensures r.Fail? ==> i <= r.at <= |s|
    decreases |s| - i, 3
  {
    if At(s, i, NULL_TEXT) then Ok(Null(None), i + 4)
    else if At(s, i, FALSE_TEXT) then Ok(False(None), i + 5)
    else if At(s, i, TRUE_TEXT) then Ok(True(None), i + 4)
    else if i == |s| then Fail(i)
    else if s[i] == QUOTE then
      match ParseString(s, i)
      case StringRead(text, next) => Ok(String(None, Some(CString(text))), next)
      case NoString(at) => Fail(at)
    else if s[i] == MINUS || IsDigit(s[i]) then ParseNumber(lib, s, i)
    else if s[i] == OPEN_BRACKET then ParseArray(lib, s, i, d)
    else if s[i] == OPEN_BRACE then ParseObject(lib, s, i, d)
    else Fail(i)
  }

  function ParseArray(lib: CLib, s: bytes, i: nat, d: nat): (r: Parsed)
    requires i < |s|
    ensures r.Ok? ==> i < r.next <= |s| && r.item.key.None?
    ensures r.Fail? ==> i <= r.at <= |s|
    decreases |s| - i, 2
  {
    var j := SkipSpace(s, i + 1);
    if d >= NESTING_LIMIT then Fail(i)
    else if j == |s| then Fail(j - 1)
    else if s[j] == CLOSE_BRACKET then Ok(Array(None, []), j + 1)
    else ParseElements(lib, s, j - 1, d + 1, [])
  }

  /** The loop of parse_array: `i` is in front of an element, and `acc` is what came before it. */
  function ParseElements(lib: CLib, s: bytes, i: nat, d: nat, acc: seq<Item>): (r: Parsed)
    requires i < |s|
    ensures r.Ok? ==> i < r.next <= |s| && r.item.key.None?
    ensures r.Fail? ==> i <= r.at <= |s|
    decreases |s| - i, 1
  {
    match ParseValue(lib, s, SkipSpace(s, i + 1), d)
    case Fail(at) => Fail(at)
    case Ok(item, next) =>
      var j := SkipSpace(s, next);
      if j == |s| then Fail(j)
      else if s[j] == COMMA then ParseElements(lib, s, j, d, acc + [item])
      else if s[j] == CLOSE_BRACKET then Ok(Array(None, acc + [item]), j + 1)
      else Fail(j)
  }

  function ParseObject(lib: CLib, s: bytes, i: nat, d: nat): (r: Parsed)
    requires i < |s|
    ensures r.Ok? ==> i < r.next <= |s| && r.item.key.None?
    ensures r.Fail? ==> i <= r.at <= |s|
    decreases |s| - i, 2
  {
    var j := SkipSpace(s, i + 1);
    if d >= NESTING_LIMIT then Fail(i)
    else if j == |s| then Fail(j - 1)
    else if s[j] == CLOSE_BRACE then Ok(Object(None, []), j + 1)
    else ParseMembers(lib, s, j - 1, d + 1, [])
  }

  /** The name of a member and the colon behind it: the name, and the offset of the colon. */
  function ParseName(s: bytes, i: nat): (r: StringResult)
    requires i < |s|
    ensures r.StringRead? ==> i + 1 < r.next < |s| && s[r.next] == COLON
    ensures r.NoString? ==> i <= r.at <= |s|
  {
    if i + 1 >= |s| then NoString(i)
    else
      match ParseString(s, SkipSpace(s, i + 1))
      case NoString(at) => NoString(at)
      case StringRead(text, next) =>
        var j := SkipSpace(s, next);
        if j == |s| || s[j] != COLON then NoString(j) else StringRead(text, j)
  }

  /** The loop of parse_object. */
  function ParseMembers(lib: CLib, s: bytes, i: nat, d: nat, acc: seq<Item>): (r: Parsed)
    requires i < |s|
    ensures r.Ok? ==> i < r.next <= |s| && r.item.key.None?
    ensures r.Fail? ==> i <= r.at <= |s|
    decreases |s| - i, 1
  {
    match ParseName(s, i)
    case NoString(at) => Fail(at)
    case StringRead(name, colon) =>
      match ParseValue(lib, s, SkipSpace(s, colon + 1), d)
      case Fail(at) => Fail(at)
      case Ok(value, next) =>
        var item := WithKey(value, Some(CString(name)));
        var j := SkipSpace(s, next);
        if j == |s| then Fail(j)
        else if s[j] == COMMA then ParseMembers(lib, s, j, d, acc + [item])
        else if s[j] == CLOSE_BRACE then Ok(Object(None, acc + [item]), j + 1)
        else Fail(j)
  }

  /** skip_utf8_bom. */
  function SkipBom(s: bytes): (i: nat)
    ensures i <= |s|
  {
    if |s| > 4 && At(s, 0, [0xEF, 0xBB, 0xBF]) then 3 else 0
  }

  /** cJSON_ParseWithLengthOpts: the tree and the end of the parse, or the position of the error. */
  function ParseText(lib: CLib, s: bytes, requireNul: bool): (r: Parsed)
    ensures r.Ok? ==> 0 < r.next <= |s| && r.item.key.None?
    ensures r.Fail? && s != [] ==> r.at < |s|
  {
    if s == [] then Fail(0)
    else
      match ParseValue(lib, s, SkipSpace(s, SkipBom(s)), 0)
      case Fail(at) => Fail(ErrorPosition(s, at))
      case Ok(item, next) =>
        if !requireNul then Ok(item, next)
        else
          var j := SkipSpace(s, next);
          if j == |s| || s[j] != NUL then Fail(ErrorPosition(s, j)) else Ok(item, j)
  }

  function ErrorPosition(s: bytes, at: nat): nat {
    if at < |s| then at else if |s| > 0 then |s| - 1 else 0
  }
}
