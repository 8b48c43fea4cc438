/**
 * The expression grammar over tokens, and the trees that the transformer
 * builds for its derivations.
 */
module Expressions {
  datatype Op = Or | And | Eq | Neq | Lt | Le | Gt | Ge | Add | Sub | Mul | Div

  datatype Token =
    | Infix(op: Op)      // an operator between spaces
    | Minus | Not
    | Open | Close | Comma | Dot
    | Name(text: string) | LocalName(text: string) | TypeName(text: string)
    | Number(text: string)
    | Str(text: string)  // with its quotes
    | EntityMark | ResourceMark
    | True | False

  type tokens = seq<Token>

  datatype Sign = Neg | NotSign

  datatype Literal =
    | NumberLit(value: string)
    | StringLit(str: string) | EntityLit(str: string) | ResourceLit(str: string)
    | TrueLit | FalseLit

  /** BINARY_EXPR and LOGICAL_EXPR differ only in the operator. No argument list is an empty one. */
  datatype Expr =
    | Lit(literal: Literal)
    | Ident(str: string)
    | Paren(expr: Expr)
    | Call(name: string, args: seq<Expr>)
    | MethodCall(receiver: string, name: string, args: seq<Expr>)
    | Unary(sign: Sign, expr: Expr)
    | Binary(op: Op, left: Expr, right: Expr)

  /** The rules from or_expr to unary_expr, as levels; LEAF is call_expr. */
  const UNARY: nat := 6
  const LEAF: nat := 7

  function Precedence(op: Op): (k: nat)
    ensures k < UNARY
  {
    match op
    case Or => 0
    case And => 1
    case Eq => 2
    case Neq => 2
    case Lt => 3
    case Le => 3
    case Gt => 3
    case Ge => 3
    case Add => 4
    case Sub => 4
    case Mul => 5
    case Div => 5
  }

  /** string_lit: the text without its quotes. */
  function Unquoted(text: string): string {
    if text != "" && text[0] == '"' && text[|text| - 1] == '"' then
      if |text| == 1 then "" else text[1..|text| - 1]
    else text
  }

  function SignToken(sign: Sign): Token {
    if sign.Neg? then Minus else Not
  }

  predicate IdentToken(t: Token) {
    t.Name? || t.TypeName?
  }

  predicate CalleeToken(t: Token) {
    t.Name? || t.LocalName?
  }

  // ----- the grammar, as a relation between trees and tokens

  predicate LiteralIs(l: Literal, ts: tokens) {
    match l
    case NumberLit(value) => ts == [Number(value)]
    case StringLit(str) => |ts| == 1 && ts[0].Str? && str == Unquoted(ts[0].text)
    case EntityLit(str) => |ts| == 2 && ts[0] == EntityMark && ts[1].Str? && str == Unquoted(ts[1].text)
    case ResourceLit(str) => |ts| == 2 && ts[0] == ResourceMark && ts[1].Str? && str == Unquoted(ts[1].text)
    case TrueLit => ts == [True]
    case FalseLit => ts == [False]
  }

  /** The rule of level `k` derives `ts`, and the transformer turns the derivation into `e`. */
  predicate Derives(k: nat, e: Expr, ts: tokens)
    decreases e, 1
  {
    match e
    case Lit(l) => k <= LEAF && LiteralIs(l, ts)
    case Ident(str) => k <= LEAF && |ts| == 1 && IdentToken(ts[0]) && ts[0].text == str
    case Paren(inner) =>
      k <= LEAF && |ts| >= 2 && ts[0] == Open && ts[|ts| - 1] == Close && Derives(0, inner, ts[1..|ts| - 1])
    case Call(name, args) =>
      && k <= LEAF && |ts| >= 3 && CalleeToken(ts[0]) && ts[0].text == name
      && ts[1] == Open && ts[|ts| - 1] == Close && DerivesArgs(args, ts[2..|ts| - 1])
    case MethodCall(receiver, name, args) =>
      && k <= LEAF && |ts| >= 5 && IdentToken(ts[0]) && ts[0].text == receiver
      && ts[1] == Dot && ts[2] == Name(name)
      && ts[3] == Open && ts[|ts| - 1] == Close && DerivesArgs(args, ts[4..|ts| - 1])
    case Unary(sign, inner) =>
      k <= UNARY && ts != [] && ts[0] == SignToken(sign) && Derives(UNARY, inner, ts[1..])
    case Binary(op, left, right) =>
      && k <= Precedence(op)
      && exists i :: 0 <= i < |ts| && SplitAt(ts, i, op)
           && Derives(Precedence(op), left, ts[..i]) && Derives(Precedence(op) + 1, right, ts[i + 1..])
  }

  predicate SplitAt(ts: tokens, i: nat, op: Op) {
    i < |ts| && ts[i] == Infix(op)
  }

  predicate CommaAt(ts: tokens, i: nat) {
    i < |ts| && ts[i] == Comma
  }

  predicate DerivesArgs(args: seq<Expr>, ts: tokens)
    decreases args, 0
  {
    if args == [] then ts == []
    else if |args| == 1 then Derives(0, args[0], ts)
    else exists i :: 0 <= i < |ts| && CommaAt(ts, i)
           && Derives(0, args[0], ts[..i]) && DerivesArgs(args[1..], ts[i + 1..])
  }

  // ----- a parser that looks one token ahead

  datatype Parsed = Ok(expr: Expr, rest: tokens) | Fail
  datatype ParsedArgs = OkArgs(args: seq<Expr>, rest: tokens) | FailArgs

  function Parse(k: nat, ts: tokens): (r: Parsed)
    requires k <= LEAF
    ensures r.Ok? ==> |r.rest| < |ts|
    decreases |ts|, 1, LEAF - k
  {
    if k == LEAF then ParseLeaf(ts)
    else if k == UNARY then
      if ts != [] && (ts[0] == Minus || ts[0] == Not) then
        match Parse(UNARY, ts[1..])
        case Ok(e, rest) => Ok(Unary(if ts[0] == Minus then Neg else NotSign, e), rest)
        case Fail => Fail
      else Parse(LEAF, ts)
    else
      match Parse(k + 1, ts)
      case Ok(e, rest) => ParseTail(k, e, rest)
      case Fail => Fail
  }

  /** Operators of level `k`, to the left first. */
  function ParseTail(k: nat, left: Expr, ts: tokens): (r: Parsed)
    requires k < UNARY
    ensures r.Ok? ==> |r.rest| <= |ts|
    decreases |ts|, 2
  {
    if ts != [] && ts[0].Infix? && Precedence(ts[0].op) == k then
      match Parse(k + 1, ts[1..])
      case Ok(right, rest) => ParseTail(k, Binary(ts[0].op, left, right), rest)
      case Fail => Fail
    else Ok(left, ts)
  }

  function ParseLeaf(ts: tokens): (r: Parsed)
    ensures r.Ok? ==> |r.rest| < |ts|
    decreases |ts|, 0
  {
    if ts == [] then Fail
    else
      match ts[0]
      case Number(text) => Ok(Lit(NumberLit(text)), ts[1..])
      case Str(text) => Ok(Lit(StringLit(Unquoted(text))), ts[1..])
      case EntityMark => if |ts| > 1 && ts[1].Str? then Ok(Lit(EntityLit(Unquoted(ts[1].text))), ts[2..]) else Fail
      case ResourceMark => if |ts| > 1 && ts[1].Str? then Ok(Lit(ResourceLit(Unquoted(ts[1].text))), ts[2..]) else Fail
      case True => Ok(Lit(TrueLit), ts[1..])
      case False => Ok(Lit(FalseLit), ts[1..])
      case Open =>
        (match Parse(0, ts[1..])
         case Ok(e, rest) => if rest != [] && rest[0] == Close then Ok(Paren(e), rest[1..]) else Fail
         case Fail => Fail)
      case Name(text) => ParseName(ts)
      case LocalName(text) => ParseName(ts)
      case TypeName(text) => ParseName(ts)
      case _ => Fail
  }

  /** A name alone, in front of its arguments, or in front of a dot. */
  function ParseName(ts: tokens): (r: Parsed)
    requires ts != [] && (ts[0].Name? || ts[0].LocalName? || ts[0].TypeName?)
    ensures r.Ok? ==> |r.rest| < |ts|
    decreases |ts|, 0, 0
  {
    if |ts| > 1 && ts[1] == Open then
      if !CalleeToken(ts[0]) then Fail
      else
        match ParseArgs(ts[2..])
        case OkArgs(args, rest) => Ok(Call(ts[0].text, args), rest)
        case FailArgs => Fail
    else if ts[0].LocalName? then Fail
    else if |ts| > 1 && ts[1] == Dot then
      if |ts| > 3 && ts[2].Name? && ts[3] == Open then
        match ParseArgs(ts[4..])
        case OkArgs(args, rest) => Ok(MethodCall(ts[0].text, ts[2].text, args), rest)
        case FailArgs => Fail
      else Fail
    else Ok(Ident(ts[0].text), ts[1..])
  }

  /** SplitRest an opening parenthesis. */
  function ParseArgs(ts: tokens): (r: ParsedArgs)
    ensures r.OkArgs? ==> |r.rest| < |ts|
    decreases |ts|, 3
  {
    if ts != [] && ts[0] == Close then OkArgs([], ts[1..]) else ParseSomeArgs(ts)
  }

  function ParseSomeArgs(ts: tokens): (r: ParsedArgs)
    ensures r.OkArgs? ==> r.args != [] && |r.rest| < |ts|
    decreases |ts|, 2
  {
    match Parse(0, ts)
    case Fail => FailArgs
    case Ok(e, rest) =>
      if rest != [] && rest[0] == Close then OkArgs([e], rest[1..])
      else if rest != [] && rest[0] == Comma then
        match ParseSomeArgs(rest[1..])
        case OkArgs(args, rest') => OkArgs([e] + args, rest')
        case FailArgs => FailArgs
      else FailArgs
  }

  // ----- the shapes of derived tokens

  lemma ParenDerives(k: nat, inner: Expr, body: tokens)
    requires k <= LEAF && Derives(0, inner, body)
    ensures Derives(k, Paren(inner), [Open] + body + [Close])
  {
    var ts := [Open] + body + [Close];
    assert ts[1..|ts| - 1] == body;
  }

  lemma ParenShape(k: nat, e: Expr, ts: tokens) returns (body: tokens)
    requires e.Paren? && Derives(k, e, ts)
    ensures ts == [Open] + body + [Close] && Derives(0, e.expr, body)
  {
    body := ts[1..|ts| - 1];
  }

  lemma CallDerives(k: nat, t: Token, args: seq<Expr>, body: tokens)
    requires k <= LEAF && CalleeToken(t) && DerivesArgs(args, body)
    ensures Derives(k, Call(t.text, args), [t, Open] + body + [Close])
  {
    hide DerivesArgs;
    var ts := [t, Open] + body + [Close];
    assert ts[2..|ts| - 1] == body;
  }

  lemma CallShape(k: nat, e: Expr, ts: tokens) returns (t: Token, body: tokens)
    requires e.Call? && Derives(k, e, ts)
    ensures CalleeToken(t) && t.text == e.name
    ensures ts == [t, Open] + body + [Close] && DerivesArgs(e.args, body)
  {
    hide DerivesArgs;
    t, body := ts[0], ts[2..|ts| - 1];
  }

  lemma MethodCallDerives(k: nat, t: Token, name: string, args: seq<Expr>, body: tokens)
    requires k <= LEAF && IdentToken(t) && DerivesArgs(args, body)
    ensures Derives(k, MethodCall(t.text, name, args), [t, Dot, Name(name), Open] + body + [Close])
  {
    hide DerivesArgs;
    var ts := [t, Dot, Name(name), Open] + body + [Close];
    assert ts[4..|ts| - 1] == body;
  }

  lemma MethodCallShape(k: nat, e: Expr, ts: tokens) returns (t: Token, body: tokens)
    requires e.MethodCall? && Derives(k, e, ts)
    ensures IdentToken(t) && t.text == e.receiver
    ensures ts == [t, Dot, Name(e.name), Open] + body + [Close] && DerivesArgs(e.args, body)
  {
    hide DerivesArgs;
    t, body := ts[0], ts[4..|ts| - 1];
  }

  lemma UnaryDerives(k: nat, sign: Sign, inner: Expr, body: tokens)
    requires k <= UNARY && Derives(UNARY, inner, body)
    ensures Derives(k, Unary(sign, inner), [SignToken(sign)] + body)
  {
    assert ([SignToken(sign)] + body)[1..] == body;
  }

  lemma UnaryShape(k: nat, e: Expr, ts: tokens) returns (body: tokens)
    requires e.Unary? && Derives(k, e, ts)
    ensures ts == [SignToken(e.sign)] + body && Derives(UNARY, e.expr, body)
  {
    body := ts[1..];
  }

  lemma SplitParts(t: Token, a: tokens, b: tokens)
    ensures var ts := a + [t] + b; |a| < |ts| && ts[|a|] == t && ts[..|a|] == a && ts[|a| + 1..] == b
  {
  }

  lemma CutAt(ts: tokens, i: nat)
    requires i < |ts|
    ensures ts == ts[..i] + [ts[i]] + ts[i + 1..]
  {
  }

  lemma BinaryDerives(k: nat, op: Op, left: Expr, right: Expr, a: tokens, b: tokens)
    requires k <= Precedence(op) && Derives(Precedence(op), left, a) && Derives(Precedence(op) + 1, right, b)
    ensures Derives(k, Binary(op, left, right), a + [Infix(op)] + b)
  {
    var ts := a + [Infix(op)] + b;
    SplitParts(Infix(op), a, b);
    assert SplitAt(ts, |a|, op);
  }

  lemma BinaryShape(k: nat, e: Expr, ts: tokens) returns (a: tokens, b: tokens)
    requires e.Binary? && Derives(k, e, ts)
    ensures ts == a + [Infix(e.op)] + b
    ensures Derives(Precedence(e.op), e.left, a) && Derives(Precedence(e.op) + 1, e.right, b)
  {
    hide DerivesArgs, LiteralIs;
    var p := Precedence(e.op);
    var i :|
      0 <= i < |ts| && SplitAt(ts, i, e.op) && Derives(p, e.left, ts[..i]) && Derives(p + 1, e.right, ts[i + 1..]);
    a, b := ts[..i], ts[i + 1..];
    CutAt(ts, i);
  }

  lemma OneArg(e: Expr, ts: tokens)
    requires Derives(0, e, ts)
    ensures DerivesArgs([e], ts)
  {
  }

  lemma ArgsDerive(e: Expr, args: seq<Expr>, a: tokens, b: tokens)
    requires args != [] && Derives(0, e, a) && DerivesArgs(args, b)
    ensures DerivesArgs([e] + args, a + [Comma] + b)
  {
    hide Derives;
    SplitParts(Comma, a, b);
    assert CommaAt(a + [Comma] + b, |a|) && ([e] + args)[1..] == args;
  }

  lemma ArgsShape(args: seq<Expr>, ts: tokens) returns (a: tokens, b: tokens)
    requires |args| > 1 && DerivesArgs(args, ts)
    ensures ts == a + [Comma] + b && Derives(0, args[0], a) && DerivesArgs(args[1..], b)
  {
    hide Derives;
    var i :| 0 <= i < |ts| && CommaAt(ts, i) && Derives(0, args[0], ts[..i]) && DerivesArgs(args[1..], ts[i + 1..]);
    a, b := ts[..i], ts[i + 1..];
    CutAt(ts, i);
  }

  /** What one level derives, the levels above it derive. */
  lemma Looser(k: nat, k': nat, e: Expr, ts: tokens)
    requires k' <= k && Derives(k, e, ts)
    ensures Derives(k', e, ts)
  {
    hide LiteralIs, DerivesArgs, SplitAt;
  }

  /** What is not an operation of a level is derived by the next one. */
  lemma Tighter(k: nat, e: Expr, ts: tokens)
    requires k < UNARY && Derives(k, e, ts) && !(e.Binary? && Precedence(e.op) == k)
    ensures Derives(k + 1, e, ts)
  {
    hide LiteralIs, DerivesArgs, SplitAt;
  }

  lemma LeafStarts(e: Expr, ts: tokens)
    requires Derives(UNARY, e, ts) && !e.Unary?
    ensures Derives(LEAF, e, ts) && ts != [] && ts[0] != Minus && ts[0] != Not
  {
    hide DerivesArgs, SplitAt;
  }

  /** No expression is empty or starts with a closing parenthesis. */
  lemma {:induction false} Starts(k: nat, e: Expr, ts: tokens)
    requires Derives(k, e, ts)
    ensures ts != [] && ts[0] != Close
    decreases e
  {
    hide DerivesArgs, SplitAt;
    if e.Binary? {
      var a, b := BinaryShape(k, e, ts);
      Starts(Precedence(e.op), e.left, a);
      assert a[0] == ts[0];
    }
  }

  // ----- one step of the parser

  lemma ParseAtLeaf(ts: tokens)
    ensures Parse(LEAF, ts) == ParseLeaf(ts)
  {
    hide ParseLeaf;
  }

  lemma ParseAtLevel(k: nat, ts: tokens)
    requires k < UNARY
    ensures Parse(k, ts) ==
      match Parse(k + 1, ts)
      case Ok(e, rest) => ParseTail(k, e, rest)
      case Fail => Fail
  {
    hide ParseLeaf, ParseTail;
  }

  lemma ParseAtUnary(ts: tokens)
    ensures Parse(UNARY, ts) ==
      if ts != [] && (ts[0] == Minus || ts[0] == Not) then
        match Parse(UNARY, ts[1..])
        case Ok(e, rest) => Ok(Unary(if ts[0] == Minus then Neg else NotSign, e), rest)
        case Fail => Fail
      else ParseLeaf(ts)
  {
    hide ParseLeaf, ParseTail;
    ParseAtLeaf(ts);
  }

  lemma TailStep(k: nat, left: Expr, ts: tokens)
    requires k < UNARY
    ensures ParseTail(k, left, ts) ==
      if ts != [] && ts[0].Infix? && Precedence(ts[0].op) == k then
        match Parse(k + 1, ts[1..])
        case Ok(right, rest) => ParseTail(k, Binary(ts[0].op, left, right), rest)
        case Fail => Fail
      else Ok(left, ts)
  {
    hide Parse;
  }

  lemma SomeArgsStep(ts: tokens)
    ensures ParseSomeArgs(ts) ==
      match Parse(0, ts)
      case Fail => FailArgs
      case Ok(e, rest) =>
        if rest != [] && rest[0] == Close then OkArgs([e], rest[1..])
        else if rest != [] && rest[0] == Comma then
          match ParseSomeArgs(rest[1..])
          case OkArgs(args, rest') => OkArgs([e] + args, rest')
          case FailArgs => FailArgs
        else FailArgs
  {
    hide Parse;
  }

  // ----- what the grammar derives is parsed

  /** What may follow an expression of level `k`. */
  predicate Follows(k: nat, rest: tokens) {
    rest != [] ==>
      rest[0] == Close || rest[0] == Comma || (rest[0].Infix? && Precedence(rest[0].op) < k)
  }

  lemma TailStops(k: nat, e: Expr, rest: tokens)
    requires k < UNARY && Follows(k, rest)
    ensures ParseTail(k, e, rest) == Ok(e, rest)
  {
    hide ParseTail;
    TailStep(k, e, rest);
  }

  /** A derivation is parsed, up to operators of its own level that follow. */
  lemma {:induction false} ParsesLevel(k: nat, e: Expr, ts: tokens, rest: tokens)
    requires k <= LEAF && Derives(k, e, ts) && Follows(k + 1, rest)
    ensures Parse(k, ts + rest) == if k < UNARY then ParseTail(k, e, rest) else Ok(e, rest)
    decreases e, 1 + LEAF - k
  {
    hide Parse, ParseTail, ParseLeaf, Derives;
    if k < UNARY {
      if e.Binary? && Precedence(e.op) == k {
        ParsesBinary(k, e, ts, rest);
      } else {
        Tighter(k, e, ts);
        ParsesLevel(k + 1, e, ts, rest);
        if k + 1 < UNARY {
          TailStops(k + 1, e, rest);
        }
        ParseAtLevel(k, ts + rest);
      }
    } else if k == UNARY {
      ParsesUnary(e, ts, rest);
    } else {
      ParsesLeaf(e, ts, rest);
      ParseAtLeaf(ts + rest);
    }
  }

  lemma {:induction false} ParsesUnary(e: Expr, ts: tokens, rest: tokens)
    requires Derives(UNARY, e, ts) && Follows(LEAF, rest)
    ensures Parse(UNARY, ts + rest) == Ok(e, rest)
    decreases e, 1
  {
    hide Parse, ParseLeaf, Derives;
    ParseAtUnary(ts + rest);
    if e.Unary? {
      var body := UnaryShape(UNARY, e, ts);
      ParsesLevel(UNARY, e.expr, body, rest);
      assert ts + rest == [SignToken(e.sign)] + (body + rest);
      assert ([SignToken(e.sign)] + (body + rest))[1..] == body + rest;
    } else {
      LeafStarts(e, ts);
      ParsesLeaf(e, ts, rest);
    }
  }

  /** The left operand is parsed, then the operator and the right one. */
  lemma {:induction false} ParsesBinary(k: nat, e: Expr, ts: tokens, rest: tokens)
    requires e.Binary? && Precedence(e.op) == k && Derives(k, e, ts) && Follows(k + 1, rest)
    ensures Parse(k, ts + rest) == ParseTail(k, e, rest)
    decreases e, 0
  {
    hide Derives, Parse, ParseTail;
    var a, b := BinaryShape(k, e, ts);
    var behind := [Infix(e.op)] + (b + rest);
    assert ts + rest == a + behind;
    ParsesLevel(k, e.left, a, behind);
    ParsesLevel(k + 1, e.right, b, rest);
    if k + 1 < UNARY {
      TailStops(k + 1, e.right, rest);
    }
    TailStep(k, e.left, behind);
    assert behind[1..] == b + rest;
  }

  lemma ParsesLiteral(l: Literal, ts: tokens, rest: tokens)
    requires LiteralIs(l, ts)
    ensures ParseLeaf(ts + rest) == Ok(Lit(l), rest)
  {
    hide Parse, ParseTail, ParseName;
    assert (ts + rest)[|ts|..] == rest;
  }

  lemma ParsesParen(inner: Expr, body: tokens, rest: tokens)
    requires Parse(0, body + ([Close] + rest)) == Ok(inner, [Close] + rest)
    ensures ParseLeaf([Open] + body + [Close] + rest) == Ok(Paren(inner), rest)
  {
    hide Parse, ParseTail, ParseName;
    assert ([Open] + body + [Close] + rest)[1..] == body + ([Close] + rest);
    assert ([Close] + rest)[1..] == rest;
  }

  lemma ParsesCall(t: Token, args: seq<Expr>, body: tokens, rest: tokens)
    requires CalleeToken(t) && ParseArgs(body + ([Close] + rest)) == OkArgs(args, rest)
    ensures ParseLeaf([t, Open] + body + [Close] + rest) == Ok(Call(t.text, args), rest)
  {
    hide Parse, ParseArgs;
    assert ([t, Open] + body + [Close] + rest)[2..] == body + ([Close] + rest);
  }

  lemma ParsesMethodCall(t: Token, name: string, args: seq<Expr>, body: tokens, rest: tokens)
    requires IdentToken(t) && ParseArgs(body + ([Close] + rest)) == OkArgs(args, rest)
    ensures ParseLeaf([t, Dot, Name(name), Open] + body + [Close] + rest) == Ok(MethodCall(t.text, name, args), rest)
  {
    hide Parse, ParseArgs;
    assert ([t, Dot, Name(name), Open] + body + [Close] + rest)[4..] == body + ([Close] + rest);
  }

  lemma ParsesIdent(t: Token, rest: tokens)
    requires IdentToken(t) && Follows(LEAF + 1, rest)
    ensures ParseLeaf([t] + rest) == Ok(Ident(t.text), rest)
  {
    hide Parse, ParseArgs;
    assert ([t] + rest)[1..] == rest;
  }

  lemma {:induction false} ParsesLeaf(e: Expr, ts: tokens, rest: tokens)
    requires Derives(LEAF, e, ts) && Follows(LEAF + 1, rest)
    ensures ParseLeaf(ts + rest) == Ok(e, rest)
    decreases e, 0
  {
    hide Parse, ParseTail, ParseLeaf, Derives, DerivesArgs, ParseArgs;
    match e
    case Lit(l) =>
      LeafIs(e, ts);
      ParsesLiteral(l, ts, rest);
    case Ident(_) =>
      LeafIs(e, ts);
      ParsesIdent(ts[0], rest);
    case Paren(inner) =>
      var body := ParenShape(LEAF, e, ts);
      ParsesLevel(0, inner, body, [Close] + rest);
      TailStops(0, inner, [Close] + rest);
      ParsesParen(inner, body, rest);
    case Call(_, args) =>
      var t, body := CallShape(LEAF, e, ts);
      ParsesArgs(args, body, rest);
      ParsesCall(t, args, body, rest);
    case MethodCall(_, name, args) =>
      var t, body := MethodCallShape(LEAF, e, ts);
      ParsesArgs(args, body, rest);
      ParsesMethodCall(t, name, args, body, rest);
    case _ =>
      LeafIs(e, ts);
      assert false;
  }

  lemma LeafIs(e: Expr, ts: tokens)
    requires Derives(LEAF, e, ts)
    ensures !e.Unary? && !e.Binary?
    ensures e.Lit? ==> LiteralIs(e.literal, ts)
    ensures e.Ident? ==> ts != [] && ts == [ts[0]] && IdentToken(ts[0]) && ts[0].text == e.str
  {
    hide LiteralIs, DerivesArgs, SplitAt;
  }

  lemma {:induction false} ParsesArgs(args: seq<Expr>, ts: tokens, rest: tokens)
    requires DerivesArgs(args, ts)
    ensures ParseArgs(ts + ([Close] + rest)) == OkArgs(args, rest)
    decreases args, 1
  {
    hide ParseSomeArgs;
    if args == [] {
      assert ts == [] && (ts + ([Close] + rest))[1..] == rest;
    } else {
      hide DerivesArgs;
      ParsesSomeArgs(args, ts, rest);
    }
  }

  lemma {:induction false} ParsesSomeArgs(args: seq<Expr>, ts: tokens, rest: tokens)
    requires args != [] && DerivesArgs(args, ts)
    ensures ParseSomeArgs(ts + ([Close] + rest)) == OkArgs(args, rest)
    ensures ts != [] && ts[0] != Close
    decreases args, 0
  {
    hide Derives, Parse, ParseTail, ParseSomeArgs;
    var end := [Close] + rest;
    assert end[1..] == rest;
    SomeArgsStep(ts + end);
    if |args| == 1 {
      assert args == [args[0]];
      Starts(0, args[0], ts);
      ParsesLevel(0, args[0], ts, end);
      TailStops(0, args[0], end);
    } else {
      var a, b := ArgsShape(args, ts);
      hide DerivesArgs;
      var behind := [Comma] + (b + end);
      assert ts + end == a + behind && behind[1..] == b + end;
      Starts(0, args[0], a);
      ParsesLevel(0, args[0], a, behind);
      TailStops(0, args[0], behind);
      ParsesSomeArgs(args[1..], b, rest);
      assert args == [args[0]] + args[1..];
    }
  }

  // ----- what is parsed, the grammar derives

  /** The parsed tokens are in front of the rest, and the grammar derives the tree from them. */
  lemma {:induction false} ParsedIsDerived(k: nat, ts: tokens) returns (a: tokens)
    requires k <= LEAF && Parse(k, ts).Ok?
    ensures ts == a + Parse(k, ts).rest && Derives(k, Parse(k, ts).expr, a)
    decreases |ts|, 1, LEAF - k
  {
    hide Parse, ParseLeaf, ParseTail, Derives;
    if k == LEAF {
      ParseAtLeaf(ts);
      a := LeafIsDerived(ts);
    } else if k == UNARY {
      a := UnaryIsDerived(ts);
    } else {
      ParseAtLevel(k, ts);
      a := ParsedIsDerived(k + 1, ts);
      var r := Parse(k + 1, ts);
      Looser(k + 1, k, r.expr, a);
      a := TailIsDerived(k, r.expr, a, r.rest);
    }
  }

  lemma {:induction false} UnaryIsDerived(ts: tokens) returns (a: tokens)
    requires Parse(UNARY, ts).Ok?
    ensures ts == a + Parse(UNARY, ts).rest && Derives(UNARY, Parse(UNARY, ts).expr, a)
    decreases |ts|, 1, 0, 0
  {
    hide Parse, ParseLeaf, Derives;
    ParseAtUnary(ts);
    if ts != [] && (ts[0] == Minus || ts[0] == Not) {
      var b := ParsedIsDerived(UNARY, ts[1..]);
      var inner := Parse(UNARY, ts[1..]);
      UnaryDerives(UNARY, if ts[0] == Minus then Neg else NotSign, inner.expr, b);
      a := [ts[0]] + b;
      InFront(ts[0], b, inner.rest, ts);
    } else {
      a := LeafIsDerived(ts);
      Looser(LEAF, UNARY, ParseLeaf(ts).expr, a);
    }
  }

  lemma InFront(t: Token, b: tokens, rest: tokens, ts: tokens)
    requires ts != [] && ts[0] == t && ts[1..] == b + rest
    ensures ts == [t] + b + rest
  {
  }

  lemma {:induction false} TailIsDerived(k: nat, left: Expr, a: tokens, ts: tokens) returns (b: tokens)
    requires k < UNARY && Derives(k, left, a) && ParseTail(k, left, ts).Ok?
    ensures a + ts == b + ParseTail(k, left, ts).rest && Derives(k, ParseTail(k, left, ts).expr, b)
    decreases |ts|, 2
  {
    hide Derives, Parse, ParseTail;
    TailStep(k, left, ts);
    b := a;
    if ts != [] && ts[0].Infix? && Precedence(ts[0].op) == k {
      var c := ParsedIsDerived(k + 1, ts[1..]);
      var r := Parse(k + 1, ts[1..]);
      InFront(ts[0], c, r.rest, ts);
      BinaryDerives(k, ts[0].op, left, r.expr, a, c);
      b := TailIsDerived(k, Binary(ts[0].op, left, r.expr), a + [ts[0]] + c, r.rest);
      assert a + ([ts[0]] + c + r.rest) == a + [ts[0]] + c + r.rest;
    }
  }

  lemma {:induction false} LeafIsDerived(ts: tokens) returns (a: tokens)
    requires ParseLeaf(ts).Ok?
    ensures ts == a + ParseLeaf(ts).rest && Derives(LEAF, ParseLeaf(ts).expr, a)
    decreases |ts|, 0
  {
    hide Parse, ParseName, Derives;
    if ts[0] == Open {
      var b := ParsedIsDerived(0, ts[1..]);
      var inner := Parse(0, ts[1..]);
      ParenDerives(LEAF, inner.expr, b);
      InFront(Open, b, inner.rest, ts);
      SplitRest(ts, [Open] + b, inner.rest);
      a := [Open] + b + [Close];
    } else if ts[0].Name? || ts[0].LocalName? || ts[0].TypeName? {
      a := NameIsDerived(ts);
    } else {
      a := LiteralIsDerived(ts);
    }
  }

  lemma OneToken(l: Literal, t: Token)
    requires LiteralIs(l, [t])
    ensures Derives(LEAF, Lit(l), [t])
  {
    hide LiteralIs;
  }

  lemma TwoTokens(l: Literal, t: Token, u: Token)
    requires LiteralIs(l, [t, u])
    ensures Derives(LEAF, Lit(l), [t, u])
  {
    hide LiteralIs;
  }

  lemma LiteralIsDerived(ts: tokens) returns (a: tokens)
    requires ParseLeaf(ts).Ok? && ts[0] != Open && !ts[0].Name? && !ts[0].LocalName? && !ts[0].TypeName?
    ensures ts == a + ParseLeaf(ts).rest && Derives(LEAF, ParseLeaf(ts).expr, a)
  {
    hide Parse, ParseName, Derives, Unquoted;
    var l := ParseLeaf(ts).expr.literal;
    if ts[0] == EntityMark || ts[0] == ResourceMark {
      TwoTokens(l, ts[0], ts[1]);
      a := [ts[0], ts[1]];
    } else {
      OneToken(l, ts[0]);
      a := [ts[0]];
    }
  }

  lemma {:induction false} NameIsDerived(ts: tokens) returns (a: tokens)
    requires ts != [] && (ts[0].Name? || ts[0].LocalName? || ts[0].TypeName?) && ParseName(ts).Ok?
    ensures ts == a + ParseName(ts).rest && Derives(LEAF, ParseName(ts).expr, a)
    decreases |ts|, 0, 0
  {
    hide Derives, DerivesArgs, ParseArgs;
    if |ts| > 1 && ts[1] == Open {
      var b := ArgsAreDerived(ts[2..]);
      CallDerives(LEAF, ts[0], ParseArgs(ts[2..]).args, b);
      a := [ts[0], Open] + b + [Close];
    } else if |ts| > 1 && ts[1] == Dot {
      var b := ArgsAreDerived(ts[4..]);
      MethodCallDerives(LEAF, ts[0], ts[2].text, ParseArgs(ts[4..]).args, b);
      a := [ts[0], Dot, Name(ts[2].text), Open] + b + [Close];
    } else {
      IdentIsDerived(ts[0]);
      a := [ts[0]];
    }
  }

  lemma IdentIsDerived(t: Token)
    requires IdentToken(t)
    ensures Derives(LEAF, Ident(t.text), [t])
  {
  }

  lemma {:induction false} ArgsAreDerived(ts: tokens) returns (a: tokens)
    requires ParseArgs(ts).OkArgs?
    ensures ts == a + [Close] + ParseArgs(ts).rest && DerivesArgs(ParseArgs(ts).args, a)
    decreases |ts|, 3
  {
    hide ParseSomeArgs;
    if ts != [] && ts[0] == Close {
      a := [];
    } else {
      hide DerivesArgs;
      a := SomeArgsAreDerived(ts);
    }
  }

  lemma {:induction false} SomeArgsAreDerived(ts: tokens) returns (a: tokens)
    requires ParseSomeArgs(ts).OkArgs?
    ensures ts == a + [Close] + ParseSomeArgs(ts).rest && DerivesArgs(ParseSomeArgs(ts).args, a)
    decreases |ts|, 2
  {
    hide Derives, DerivesArgs, Parse, ParseSomeArgs;
    SomeArgsStep(ts);
    var b := ParsedIsDerived(0, ts);
    var first := Parse(0, ts);
    if first.rest[0] == Close {
      OneArg(first.expr, b);
      a := b;
      SplitRest(ts, b, first.rest);
    } else {
      var c := SomeArgsAreDerived(first.rest[1..]);
      var r := ParseSomeArgs(first.rest[1..]);
      ArgsDerive(first.expr, r.args, b, c);
      a := b + [Comma] + c;
      SplitRest(ts, b, first.rest);
      ArgsRegrouped(b, c, r.rest);
    }
  }

  lemma SplitRest(ts: tokens, b: tokens, rest: tokens)
    requires ts == b + rest && rest != []
    ensures ts == b + [rest[0]] + rest[1..]
  {
  }

  lemma ArgsRegrouped(b: tokens, c: tokens, rest: tokens)
    ensures b + [Comma] + (c + [Close] + rest) == b + [Comma] + c + [Close] + rest
  {
  }

  // ----- main results

  /** The whole of a token sequence as an expression. */
  function ParseExpr(ts: tokens): (r: Parsed)
    ensures r.Ok? ==> r.rest == []
  {
    match Parse(0, ts)
    case Ok(e, rest) => if rest == [] then Ok(e, []) else Fail
    case Fail => Fail
  }

  /** The parser finds exactly the trees that the grammar derives. */
  lemma ParsesExactly(e: Expr, ts: tokens)
    ensures Derives(0, e, ts) <==> ParseExpr(ts) == Ok(e, [])
  {
    hide Derives, Parse, ParseTail;
    if Derives(0, e, ts) {
      ParsesLevel(0, e, ts, []);
      TailStops(0, e, []);
      assert ts + [] == ts;
    }
    if ParseExpr(ts) == Ok(e, []) {
      var a := ParsedIsDerived(0, ts);
      assert a + [] == a;
    }
  }

  /** The grammar is unambiguous: a token sequence has at most one tree. */
  lemma Unambiguous(e: Expr, f: Expr, ts: tokens)
    requires Derives(0, e, ts) && Derives(0, f, ts)
    ensures e == f
  {
    ParsesExactly(e, ts);
    ParsesExactly(f, ts);
  }

  // ----- writing trees out

  /** The operands are of the levels that the grammar has there; anything else needs a Paren node. */
  predicate Respects(k: nat, e: Expr)
    decreases e
  {
    match e
    case Lit(_) => k <= LEAF
    case Ident(_) => k <= LEAF
    case Paren(inner) => k <= LEAF && Respects(0, inner)
    case Call(_, args) => k <= LEAF && forall a :: a in args ==> Respects(0, a)
    case MethodCall(_, _, args) => k <= LEAF && forall a :: a in args ==> Respects(0, a)
    case Unary(_, inner) => k <= UNARY && Respects(UNARY, inner)
    case Binary(op, left, right) =>
      k <= Precedence(op) && Respects(Precedence(op), left) && Respects(Precedence(op) + 1, right)
  }

  function Quoted(s: string): string {
    "\"" + s + "\""
  }

  function LiteralTokens(l: Literal): tokens {
    match l
    case NumberLit(value) => [Number(value)]
    case StringLit(str) => [Str(Quoted(str))]
    case EntityLit(str) => [EntityMark, Str(Quoted(str))]
    case ResourceLit(str) => [ResourceMark, Str(Quoted(str))]
    case TrueLit => [True]
    case FalseLit => [False]
  }

  function Written(e: Expr): tokens
    decreases e, 1
  {
    match e
    case Lit(l) => LiteralTokens(l)
    case Ident(str) => [Name(str)]
    case Paren(inner) => [Open] + Written(inner) + [Close]
    case Call(name, args) => [Name(name), Open] + WrittenArgs(args) + [Close]
    case MethodCall(receiver, name, args) =>
      [Name(receiver), Dot, Name(name), Open] + WrittenArgs(args) + [Close]
    case Unary(sign, inner) => [SignToken(sign)] + Written(inner)
    case Binary(op, left, right) => Written(left) + [Infix(op)] + Written(right)
  }

  function WrittenArgs(args: seq<Expr>): tokens
    decreases args, 0
  {
    if args == [] then []
    else if |args| == 1 then Written(args[0])
    else Written(args[0]) + [Comma] + WrittenArgs(args[1..])
  }

  lemma {:induction false} WrittenIsDerived(k: nat, e: Expr)
    ensures Derives(k, e, Written(e)) <== Respects(k, e)
    decreases e, 1
  {
    hide Written, WrittenArgs, Derives, DerivesArgs;
    if Respects(k, e) {
      match e
      case Lit(_) => WrittenLeaf(k, e);
      case Ident(_) => WrittenLeaf(k, e);
      case Paren(inner) =>
        WrittenIsDerived(0, inner);
        WrittenParen(k, inner);
      case Call(_, args) =>
        WrittenArgsAreDerived(args);
        WrittenCall(k, e);
      case MethodCall(_, _, args) =>
        WrittenArgsAreDerived(args);
        WrittenCall(k, e);
      case Unary(sign, inner) =>
        WrittenIsDerived(UNARY, inner);
        WrittenUnary(k, sign, inner);
      case Binary(op, left, right) =>
        WrittenIsDerived(Precedence(op), left);
        WrittenIsDerived(Precedence(op) + 1, right);
        WrittenBinary(k, op, left, right);
    }
  }

  lemma WrittenLeaf(k: nat, e: Expr)
    requires k <= LEAF && (e.Lit? || e.Ident?)
    ensures Derives(k, e, Written(e))
  {
  }

  lemma WrittenParen(k: nat, inner: Expr)
    requires k <= LEAF && Derives(0, inner, Written(inner))
    ensures Derives(k, Paren(inner), Written(Paren(inner)))
  {
    hide Derives, Written;
    ParenDerives(k, inner, Written(inner));
    WrittenIs(Paren(inner));
  }

  /** The text of a tree, by the text of its parts. */
  lemma WrittenIs(e: Expr)
    ensures e.Paren? ==> Written(e) == [Open] + Written(e.expr) + [Close]
    ensures e.Unary? ==> Written(e) == [SignToken(e.sign)] + Written(e.expr)
    ensures e.Binary? ==> Written(e) == Written(e.left) + [Infix(e.op)] + Written(e.right)
  {
    hide WrittenArgs, LiteralTokens;
  }

  lemma WrittenCall(k: nat, e: Expr)
    requires k <= LEAF && (e.Call? || e.MethodCall?) && DerivesArgs(e.args, WrittenArgs(e.args))
    ensures Derives(k, e, Written(e))
  {
    hide Derives, DerivesArgs, WrittenArgs;
    if e.Call? {
      CallDerives(k, Name(e.name), e.args, WrittenArgs(e.args));
    } else {
      MethodCallDerives(k, Name(e.receiver), e.name, e.args, WrittenArgs(e.args));
    }
  }

  lemma WrittenUnary(k: nat, sign: Sign, inner: Expr)
    requires k <= UNARY && Derives(UNARY, inner, Written(inner))
    ensures Derives(k, Unary(sign, inner), Written(Unary(sign, inner)))
  {
    hide Derives, Written;
    UnaryDerives(k, sign, inner, Written(inner));
    WrittenIs(Unary(sign, inner));
  }

  lemma WrittenBinary(k: nat, op: Op, left: Expr, right: Expr)
    requires k <= Precedence(op)
    requires Derives(Precedence(op), left, Written(left)) && Derives(Precedence(op) + 1, right, Written(right))
    ensures Derives(k, Binary(op, left, right), Written(Binary(op, left, right)))
  {
    hide Derives, Written;
    BinaryDerives(k, op, left, right, Written(left), Written(right));
    WrittenIs(Binary(op, left, right));
  }

  lemma {:induction false} WrittenArgsAreDerived(args: seq<Expr>)
    requires forall a :: a in args ==> Respects(0, a)
    ensures DerivesArgs(args, WrittenArgs(args))
    decreases args, 0
  {
    hide Derives, Written;
    if args != [] {
      assert args[0] in args;
      WrittenIsDerived(0, args[0]);
      if |args| > 1 {
        WrittenArgsAreDerived(args[1..]);
        ArgsDerive(args[0], args[1..], Written(args[0]), WrittenArgs(args[1..]));
        assert args == [args[0]] + args[1..];
      } else {
        OneArg(args[0], Written(args[0]));
        assert args == [args[0]];
      }
    }
  }

  /** Writing out a tree and parsing it gives the tree back exactly when its operands respect the levels. */
  lemma WriteThenParse(e: Expr)
    ensures Respects(0, e) <==> ParseExpr(Written(e)) == Ok(e, [])
  {
    if Respects(0, e) {
      WrittenIsDerived(0, e);
      ParsesExactly(e, Written(e));
    }
    if ParseExpr(Written(e)) == Ok(e, []) {
      ParsesExactly(e, Written(e));
      DerivedRespects(0, e, Written(e));
    }
  }

  lemma LevelOf(k: nat, e: Expr, ts: tokens)
    requires Derives(k, e, ts)
    ensures k <= if e.Binary? then Precedence(e.op) else if e.Unary? then UNARY else LEAF
  {
    hide LiteralIs, DerivesArgs, SplitAt;
  }

  lemma {:induction false} DerivedRespects(k: nat, e: Expr, ts: tokens)
    requires Derives(k, e, ts)
    ensures Respects(k, e)
    decreases e, 1
  {
    hide Derives, DerivesArgs;
    LevelOf(k, e, ts);
    match e
    case Paren(inner) =>
      var body := ParenShape(k, e, ts);
      DerivedRespects(0, inner, body);
    case Call(_, args) =>
      var t, body := CallShape(k, e, ts);
      DerivedArgsRespect(args, body);
    case MethodCall(_, _, args) =>
      var t, body := MethodCallShape(k, e, ts);
      DerivedArgsRespect(args, body);
    case Unary(_, inner) =>
      var body := UnaryShape(k, e, ts);
      DerivedRespects(UNARY, inner, body);
    case Binary(op, left, right) =>
      var a, b := BinaryShape(k, e, ts);
      DerivedRespects(Precedence(op), left, a);
      DerivedRespects(Precedence(op) + 1, right, b);
    case _ =>
  }

  lemma {:induction false} DerivedArgsRespect(args: seq<Expr>, ts: tokens)
    requires DerivesArgs(args, ts)
    ensures forall a :: a in args ==> Respects(0, a)
    decreases args, 0
  {
    hide Derives, Respects;
    if |args| == 1 {
      DerivedRespects(0, args[0], ts);
    } else if args != [] {
      var a, b := ArgsShape(args, ts);
      DerivedRespects(0, args[0], a);
      DerivedArgsRespect(args[1..], b);
    }
  }

  /** Operators of one level associate to the left, and those of a later level bind first. */
  lemma Associates(x: Expr, f: Op, y: Expr, g: Op, z: Expr, i: nat, j: nat)
    requires Respects(UNARY, x) && Respects(UNARY, y) && Respects(UNARY, z)
    requires
      var levels := [{Or}, {And}, {Eq, Neq}, {Lt, Le, Gt, Ge}, {Add, Sub}, {Mul, Div}];
      i < |levels| && j < |levels| && f in levels[i] && g in levels[j]
    ensures
      var ts := Written(x) + [Infix(f)] + Written(y) + [Infix(g)] + Written(z);
      ParseExpr(ts) == Ok(if j <= i then Binary(g, Binary(f, x, y), z) else Binary(f, x, Binary(g, y, z)), [])
  {
    hide ParseExpr, Written, Respects;
    assert Precedence(f) == i && Precedence(g) == j;
    if j <= i {
      GroupsLeft(x, f, y, g, z);
    } else {
      GroupsRight(x, f, y, g, z);
    }
  }

  lemma GroupsLeft(x: Expr, f: Op, y: Expr, g: Op, z: Expr)
    requires Respects(UNARY, x) && Respects(UNARY, y) && Respects(UNARY, z) && Precedence(g) <= Precedence(f)
    ensures
      var e := Binary(g, Binary(f, x, y), z);
      ParseExpr(Written(x) + [Infix(f)] + Written(y) + [Infix(g)] + Written(z)) == Ok(e, [])
  {
    hide ParseExpr, Written, Respects;
    UpTo(x, Precedence(f));
    UpTo(y, Precedence(f) + 1);
    UpTo(z, Precedence(g) + 1);
    BinaryRespects(f, x, y, Precedence(g));
    BinaryRespects(g, Binary(f, x, y), z, 0);
    WrittenIs(Binary(f, x, y));
    WrittenIs(Binary(g, Binary(f, x, y), z));
    WriteThenParse(Binary(g, Binary(f, x, y), z));
  }

  lemma GroupsRight(x: Expr, f: Op, y: Expr, g: Op, z: Expr)
    requires Respects(UNARY, x) && Respects(UNARY, y) && Respects(UNARY, z) && Precedence(f) < Precedence(g)
    ensures
      var e := Binary(f, x, Binary(g, y, z));
      ParseExpr(Written(x) + [Infix(f)] + Written(y) + [Infix(g)] + Written(z)) == Ok(e, [])
  {
    hide ParseExpr, Written, Respects;
    UpTo(x, Precedence(f));
    UpTo(y, Precedence(g));
    UpTo(z, Precedence(g) + 1);
    BinaryRespects(g, y, z, Precedence(f) + 1);
    BinaryRespects(f, x, Binary(g, y, z), 0);
    WrittenIs(Binary(g, y, z));
    WrittenIs(Binary(f, x, Binary(g, y, z)));
    WriteThenParse(Binary(f, x, Binary(g, y, z)));
    FiveParts(Written(x), f, Written(y), g, Written(z));
  }

  lemma FiveParts(a: tokens, f: Op, b: tokens, g: Op, c: tokens)
    ensures a + [Infix(f)] + (b + [Infix(g)] + c) == a + [Infix(f)] + b + [Infix(g)] + c
  {
  }

  lemma BinaryRespects(op: Op, left: Expr, right: Expr, k: nat)
    requires Respects(Precedence(op), left) && Respects(Precedence(op) + 1, right) && k <= Precedence(op)
    ensures Respects(k, Binary(op, left, right))
  {
  }

  lemma UpTo(e: Expr, k: nat)
    requires Respects(UNARY, e) && k <= UNARY
    ensures Respects(k, e)
  {
  }
}
