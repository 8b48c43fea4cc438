/** JSON trees and the text that print_value writes for them. */
module Items {
  import opened Bytes
  import opened CLibrary
  import opened Strings

  const NESTING_LIMIT: nat := 1000

  /**
   * A cJSON node and everything below it. `key` is the node's `string` field
   * and `text` its valuestring; either pointer may be NULL.
   */
  datatype Item =
    | Invalid(key: Option<cstring>)
    | Null(key: Option<cstring>)
    | False(key: Option<cstring>)
    | True(key: Option<cstring>)
    | Number(key: Option<cstring>, d: real)
    | Raw(key: Option<cstring>, text: Option<cstring>)
    | String(key: Option<cstring>, text: Option<cstring>)
    | Array(key: Option<cstring>, kids: seq<Item>)
    | Object(key: Option<cstring>, kids: seq<Item>)

  const NULL_TEXT: bytes := [110, 117, 108, 108]
  const FALSE_TEXT: bytes := [102, 97, 108, 115, 101]
  const TRUE_TEXT: bytes := [116, 114, 117, 101]

  /** Where printed text gets white space: nowhere, or one indent a level and a gap after each colon. */
  datatype Layout = Compact | Pretty(indent: bytes, gap: bytes)

  /** White space of section 2 of RFC 8259. */
  predicate IsSpace(b: byte) {
    b == 9 || b == 10 || b == 13 || b == 32
  }

  predicate AllSpace(s: bytes) {
    forall i :: 0 <= i < |s| ==> IsSpace(s[i])
  }

  predicate ValidLayout(layout: Layout) {
    layout.Pretty? ==> AllSpace(layout.indent) && AllSpace(layout.gap)
  }

  /** The layout of cJSON_Print. */
  const FORMATTED: Layout := Pretty([TAB], [TAB])

  function CJsonLayout(format: bool): Layout {
    if format then FORMATTED else Compact
  }

  function Indent(layout: Layout, depth: nat): bytes {
    if layout.Compact? then [] else Repeat(layout.indent, depth)
  }

  function LineBreak(layout: Layout): bytes {
    if layout.Compact? then [] else [NEWLINE]
  }

  function AfterComma(layout: Layout): bytes {
    if layout.Compact? then [] else [SPACE]
  }

  /** What follows an array element. */
  function ElementEnd(layout: Layout, last: bool): bytes {
    if last then [] else [COMMA] + AfterComma(layout)
  }

  function AfterColon(layout: Layout): bytes {
    if layout.Compact? then [] else layout.gap
  }

  function OrEmpty(s: Option<cstring>): cstring {
    if s.None? then [] else s.value
  }

  /** print_value: the text of an item that starts at nesting depth `depth`. */
  function Text(lib: CLib, layout: Layout, item: Item, depth: nat): bytes
    decreases item, 1
  {
    match item
    case Invalid(_) => []
    case Null(_) => NULL_TEXT
    case False(_) => FALSE_TEXT
    case True(_) => TRUE_TEXT
    case Number(_, d) => NumberText(lib, d)
    case Raw(_, text) => OrEmpty(text)
    case String(_, text) => Quoted(OrEmpty(text))
    case Array(_, kids) =>
      [OPEN_BRACKET] + Elements(lib, layout, kids, depth + 1) + [CLOSE_BRACKET]
    case Object(_, kids) =>
      ObjectStart(layout) + Members(lib, layout, kids, depth + 1)
      + Indent(layout, depth) + [CLOSE_BRACE]
  }

  function Elements(lib: CLib, layout: Layout, kids: seq<Item>, depth: nat): bytes
    decreases kids, 0
  {
    if kids == [] then []
    else
      Text(lib, layout, kids[0], depth)
      + ElementEnd(layout, |kids| == 1)
      + Elements(lib, layout, kids[1..], depth)
  }

  function Members(lib: CLib, layout: Layout, kids: seq<Item>, depth: nat): bytes
    decreases kids, 0
  {
    if kids == [] then []
    else
      MemberStart(layout, kids[0].key, depth)
      + Text(lib, layout, kids[0], depth)
      + MemberEnd(layout, |kids| == 1)
      + Members(lib, layout, kids[1..], depth)
  }

  function ObjectStart(layout: Layout): bytes {
    [OPEN_BRACE] + LineBreak(layout)
  }

  function MemberStart(layout: Layout, key: Option<cstring>, depth: nat): bytes {
    Indent(layout, depth) + Quoted(OrEmpty(key)) + [COLON] + AfterColon(layout)
  }

  function MemberEnd(layout: Layout, last: bool): bytes {
    (if last then [] else [COMMA]) + LineBreak(layout)
  }

  /** The trees print_value accepts when it starts at nesting depth `depth`. */
  predicate Printable(lib: CLib, item: Item, depth: nat)
    decreases item
  {
    match item
    case Invalid(_) => false
    case Raw(_, text) => text.Some?
    case Number(_, d) => |NumberText(lib, d)| <= 25
    case Array(_, kids) =>
      depth < NESTING_LIMIT && forall c :: c in kids ==> Printable(lib, c, depth + 1)
    case Object(_, kids) =>
      depth < NESTING_LIMIT && forall c :: c in kids ==> Printable(lib, c, depth + 1)
    case _ => true
  }

  /** Trees without Raw and Invalid nodes. */
  predicate RawFree(item: Item)
    decreases item
  {
    match item
    case Invalid(_) => false
    case Raw(_, _) => false
    case Array(_, kids) => forall k :: k in kids ==> RawFree(k)
    case Object(_, kids) => forall k :: k in kids ==> RawFree(k)
    case _ => true
  }

  /** The same node under another name. */
  function WithKey(item: Item, key: Option<cstring>): Item {
    item.(key := key)
  }
}
