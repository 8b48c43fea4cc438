/** The expression rules as the grammar file has them, one predicate a rule, and the characters of the tokens. */
module ExpressionRules {
  import opened Expressions

  // ----- or_expr to unary_expr, left recursive as they stand

  predicate OrExpr(e: Expr, ts: tokens)
    decreases |ts|, 8
  {
    || AndExpr(e, ts)
    || (e.Binary? && e.op == Or &&
        exists i :: 0 <= i < |ts| && SplitAt(ts, i, e.op) && OrExpr(e.left, ts[..i]) && AndExpr(e.right, ts[i + 1..]))
  }

  predicate AndExpr(e: Expr, ts: tokens)
    decreases |ts|, 7
  {
    || EqualityExpr(e, ts)
    || (e.Binary? && e.op == And &&
        exists i :: 0 <= i < |ts| && SplitAt(ts, i, e.op)
                    && AndExpr(e.left, ts[..i]) && EqualityExpr(e.right, ts[i + 1..]))
  }

  predicate EqualityExpr(e: Expr, ts: tokens)
    decreases |ts|, 6
  {
    || CompareExpr(e, ts)
    || (e.Binary? && e.op in {Eq, Neq} &&
        exists i :: 0 <= i < |ts| && SplitAt(ts, i, e.op)
                    && EqualityExpr(e.left, ts[..i]) && CompareExpr(e.right, ts[i + 1..]))
  }

  predicate CompareExpr(e: Expr, ts: tokens)
    decreases |ts|, 5
  {
    || AddExpr(e, ts)
    || (e.Binary? && e.op in {Lt, Le, Gt, Ge} &&
        exists i :: 0 <= i < |ts| && SplitAt(ts, i, e.op)
                    && CompareExpr(e.left, ts[..i]) && AddExpr(e.right, ts[i + 1..]))
  }

  predicate AddExpr(e: Expr, ts: tokens)
    decreases |ts|, 4
  {
    || MulExpr(e, ts)
    || (e.Binary? && e.op in {Add, Sub} &&
        exists i :: 0 <= i < |ts| && SplitAt(ts, i, e.op) && AddExpr(e.left, ts[..i]) && MulExpr(e.right, ts[i + 1..]))
  }

  predicate MulExpr(e: Expr, ts: tokens)
    decreases |ts|, 3
  {
    || UnaryExpr(e, ts)
    || (e.Binary? && e.op in {Mul, Div} &&
        exists i :: 0 <= i < |ts| && SplitAt(ts, i, e.op)
                    && MulExpr(e.left, ts[..i]) && UnaryExpr(e.right, ts[i + 1..]))
  }

  predicate UnaryExpr(e: Expr, ts: tokens)
    decreases |ts|, 2
  {
    || CallExpr(e, ts)
    || (e.Unary? && e.sign == Neg && ts != [] && ts[0] == Minus && UnaryExpr(e.expr, ts[1..]))
    || (e.Unary? && e.sign == NotSign && ts != [] && ts[0] == Not && UnaryExpr(e.expr, ts[1..]))
  }

  predicate CallExpr(e: Expr, ts: tokens)
    decreases |ts|, 1
  {
    var n := |ts|;
    || Primary(e, ts)
    || (&& e.Call? && n >= 3 && (ts[0] == Name(e.name) || ts[0] == LocalName(e.name))
        && ts[1] == Open && ts[n - 1] == Close && Args(e.args, ts[2..n - 1]))
    || (&& e.MethodCall? && n >= 5 && (ts[0] == Name(e.receiver) || ts[0] == TypeName(e.receiver))
        && ts[1] == Dot && ts[2] == Name(e.name)
        && ts[3] == Open && ts[n - 1] == Close && Args(e.args, ts[4..n - 1]))
  }

  predicate Primary(e: Expr, ts: tokens)
    decreases |ts|, 0
  {
    match e
    case Lit(l) => LiteralRule(l, ts)
    case Ident(str) => ts == [Name(str)] || ts == [TypeName(str)]
    case Paren(inner) =>
      |ts| >= 2 && ts[0] == Open && ts[|ts| - 1] == Close && OrExpr(inner, ts[1..|ts| - 1])
    case _ => false
  }

  /** A string token has its quotes, the tree has not. */
  predicate LiteralRule(l: Literal, ts: tokens) {
    match l
    case NumberLit(value) => ts == [Number(value)]
    case StringLit(str) => |ts| == 1 && Quotes(ts[0], str)
    case EntityLit(str) => |ts| == 2 && ts[0] == EntityMark && Quotes(ts[1], str)
    case ResourceLit(str) => |ts| == 2 && ts[0] == ResourceMark && Quotes(ts[1], str)
    case TrueLit => ts == [Token.True]
    case FalseLit => ts == [Token.False]
  }

  predicate Quotes(t: Token, str: string) {
    t.Str? && Unquoted(t.text) == str
  }

  predicate Args(args: seq<Expr>, ts: tokens)
    decreases |ts|, 9
  {
    if args == [] then ts == []
    else if |args| == 1 then OrExpr(args[0], ts)
    else
      exists i :: 0 <= i < |ts| && CommaAt(ts, i) && OrExpr(args[0], ts[..i]) && Args(args[1..], ts[i + 1..])
  }

  // ----- the rules and the levels

  predicate Rule(k: nat, e: Expr, ts: tokens)
    requires k <= LEAF
  {
    if k == 0 then OrExpr(e, ts)
    else if k == 1 then AndExpr(e, ts)
    else if k == 2 then EqualityExpr(e, ts)
    else if k == 3 then CompareExpr(e, ts)
    else if k == 4 then AddExpr(e, ts)
    else if k == 5 then MulExpr(e, ts)
    else if k == UNARY then UnaryExpr(e, ts)
    else CallExpr(e, ts)
  }

  /** A binary rule is the next one, or an operator of its own between operands. */
  lemma RuleStep(k: nat, e: Expr, ts: tokens)
    requires k < UNARY
    ensures Rule(k, e, ts) <==>
      || Rule(k + 1, e, ts)
      || (e.Binary? && Precedence(e.op) == k &&
          exists i :: 0 <= i < |ts| && SplitAt(ts, i, e.op)
                      && Rule(k, e.left, ts[..i]) && Rule(k + 1, e.right, ts[i + 1..]))
  {
    hide SplitAt;
  }

  lemma DerivesStep(k: nat, e: Expr, ts: tokens)
    requires k < UNARY
    ensures Derives(k, e, ts) <==>
      || Derives(k + 1, e, ts)
      || (e.Binary? && Precedence(e.op) == k &&
          exists i :: 0 <= i < |ts| && SplitAt(ts, i, e.op)
                      && Derives(k, e.left, ts[..i]) && Derives(k + 1, e.right, ts[i + 1..]))
  {
    hide SplitAt, DerivesArgs, LiteralIs;
  }

  /** The rules are the grammar by levels. */
  lemma {:induction false} RulesAreLevels(k: nat, e: Expr, ts: tokens)
    requires k <= LEAF
    ensures Rule(k, e, ts) <==> Derives(k, e, ts)
    decreases |ts|, LEAF - k + 1
  {
    hide Rule, Derives, SplitAt;
    if k < UNARY {
      RuleStep(k, e, ts);
      DerivesStep(k, e, ts);
      RulesAreLevels(k + 1, e, ts);
      if e.Binary? {
        forall i | 0 <= i < |ts| && SplitAt(ts, i, e.op)
          ensures Rule(k, e.left, ts[..i]) <==> Derives(k, e.left, ts[..i])
          ensures Rule(k + 1, e.right, ts[i + 1..]) <==> Derives(k + 1, e.right, ts[i + 1..])
        {
          RulesAreLevels(k, e.left, ts[..i]);
          RulesAreLevels(k + 1, e.right, ts[i + 1..]);
        }
      }
    } else if k == UNARY {
      RulesAreLevels(LEAF, e, ts);
      if ts != [] && e.Unary? {
        RulesAreLevels(UNARY, e.expr, ts[1..]);
      }
      UnaryRule(e, ts);
    } else {
      LeafRule(e, ts);
    }
  }

  lemma UnaryRule(e: Expr, ts: tokens)
    requires Rule(LEAF, e, ts) <==> Derives(LEAF, e, ts)
    requires ts != [] && e.Unary? ==> (Rule(UNARY, e.expr, ts[1..]) <==> Derives(UNARY, e.expr, ts[1..]))
    ensures Rule(UNARY, e, ts) <==> Derives(UNARY, e, ts)
  {
    hide DerivesArgs, LiteralIs, CallExpr, SplitAt;
  }

  lemma {:induction false} LeafRule(e: Expr, ts: tokens)
    ensures Rule(LEAF, e, ts) <==> Derives(LEAF, e, ts)
    decreases |ts|, 0
  {
    hide Rule, Derives, Args, DerivesArgs, OrExpr;
    if e.Paren? {
      if |ts| >= 2 {
        ExprIsDerived(e.expr, ts[1..|ts| - 1]);
      }
      ParenRule(e, ts);
    } else if e.Call? {
      if |ts| >= 3 {
        ArgsRule(e.args, ts[2..|ts| - 1]);
      }
      CallRule(e, ts);
    } else if e.MethodCall? {
      if |ts| >= 5 {
        ArgsRule(e.args, ts[4..|ts| - 1]);
      }
      MethodCallRule(e, ts);
    } else {
      OtherLeafRule(e, ts);
    }
  }

  lemma OtherLeafRule(e: Expr, ts: tokens)
    requires !e.Paren? && !e.Call? && !e.MethodCall?
    ensures Rule(LEAF, e, ts) <==> Derives(LEAF, e, ts)
  {
    hide SplitAt, LiteralRule, LiteralIs;
    assert Rule(LEAF, e, ts) <==> Primary(e, ts);
    if e.Lit? {
      LiteralRules(e.literal, ts);
    }
  }

  lemma CallRule(e: Expr, ts: tokens)
    requires e.Call? && (|ts| >= 3 ==> (Args(e.args, ts[2..|ts| - 1]) <==> DerivesArgs(e.args, ts[2..|ts| - 1])))
    ensures Rule(LEAF, e, ts) <==> Derives(LEAF, e, ts)
  {
    hide Args, DerivesArgs;
    assert Rule(LEAF, e, ts) <==> CallExpr(e, ts);
    assert !Primary(e, ts);
  }

  lemma MethodCallRule(e: Expr, ts: tokens)
    requires e.MethodCall? && (|ts| >= 5 ==> (Args(e.args, ts[4..|ts| - 1]) <==> DerivesArgs(e.args, ts[4..|ts| - 1])))
    ensures Rule(LEAF, e, ts) <==> Derives(LEAF, e, ts)
  {
    hide Args, DerivesArgs;
    assert Rule(LEAF, e, ts) <==> CallExpr(e, ts);
    assert !Primary(e, ts);
  }

  lemma ParenRule(e: Expr, ts: tokens)
    requires e.Paren?
    ensures Rule(LEAF, e, ts) <==>
      |ts| >= 2 && ts[0] == Open && ts[|ts| - 1] == Close && OrExpr(e.expr, ts[1..|ts| - 1])
    ensures Derives(LEAF, e, ts) <==>
      |ts| >= 2 && ts[0] == Open && ts[|ts| - 1] == Close && Derives(0, e.expr, ts[1..|ts| - 1])
  {
    hide OrExpr;
    assert Rule(LEAF, e, ts) <==> Primary(e, ts);
  }

  lemma LiteralRules(l: Literal, ts: tokens)
    ensures LiteralRule(l, ts) <==> LiteralIs(l, ts)
  {
    hide Unquoted;
  }

  lemma {:induction false} ExprIsDerived(e: Expr, ts: tokens)
    ensures OrExpr(e, ts) <==> Derives(0, e, ts)
    decreases |ts|, LEAF + 2
  {
    hide Derives, OrExpr;
    RulesAreLevels(0, e, ts);
  }

  lemma {:induction false} ArgsRule(args: seq<Expr>, ts: tokens)
    ensures Args(args, ts) <==> DerivesArgs(args, ts)
    decreases |ts|, LEAF + 3
  {
    hide Derives, OrExpr, CommaAt;
    if |args| == 1 {
      ExprIsDerived(args[0], ts);
    } else if args != [] {
      forall i | 0 <= i < |ts| && CommaAt(ts, i)
        ensures OrExpr(args[0], ts[..i]) <==> Derives(0, args[0], ts[..i])
        ensures Args(args[1..], ts[i + 1..]) <==> DerivesArgs(args[1..], ts[i + 1..])
      {
        ExprIsDerived(args[0], ts[..i]);
        ArgsRule(args[1..], ts[i + 1..]);
      }
    }
  }

  // ----- main results

  /** The parser finds exactly the trees that the rules of the grammar file derive. */
  lemma RulesParse(e: Expr, ts: tokens)
    ensures OrExpr(e, ts) <==> ParseExpr(ts) == Ok(e, [])
  {
    hide OrExpr, Derives, ParseExpr;
    ExprIsDerived(e, ts);
    ParsesExactly(e, ts);
  }

  // ----- the characters of the tokens

  function OperatorLetters(op: Op): string {
    match op
    case Or => " or "
    case And => " and "
    case Eq => " == "
    case Neq => " != "
    case Lt => " < "
    case Le => " <= "
    case Gt => " > "
    case Ge => " >= "
    case Add => " + "
    case Sub => " - "
    case Mul => " * "
    case Div => " / "
  }

  function TokenLetters(t: Token): string {
    match t
    case Infix(op) => OperatorLetters(op)
    case Minus => "-"
    case Not => "not "
    case Open => "("
    case Close => ")"
    case Comma => ", "
    case Dot => "."
    case EntityMark => "e"
    case ResourceMark => "r"
    case True => "true"
    case False => "false"
    case Name(text) => text
    case LocalName(text) => text
    case TypeName(text) => text
    case Number(text) => text
    case Str(text) => text
  }

  function Letters(ts: tokens): string {
    if ts == [] then "" else TokenLetters(ts[0]) + Letters(ts[1..])
  }

  lemma {:induction false} LettersJoin(a: tokens, b: tokens)
    ensures Letters(a + b) == Letters(a) + Letters(b)
  {
    hide TokenLetters;
    if a == [] {
      assert a + b == b;
    } else {
      assert (a + b)[1..] == a[1..] + b;
      LettersJoin(a[1..], b);
    }
  }

  lemma LettersOfOne(t: Token)
    ensures Letters([t]) == TokenLetters(t)
  {
    hide TokenLetters;
    assert [t][1..] == [];
  }

  /** A tree as it stands in a program. */
  function Source(e: Expr): string {
    Letters(Written(e))
  }

  lemma BinarySource(op: Op, left: Expr, right: Expr)
    ensures Source(Binary(op, left, right)) == Source(left) + OperatorLetters(op) + Source(right)
  {
    hide OperatorLetters;
    WrittenIs(Binary(op, left, right));
    LettersJoin(Written(left) + [Infix(op)], Written(right));
    LettersJoin(Written(left), [Infix(op)]);
    LettersOfOne(Infix(op));
  }

  lemma UnarySource(inner: Expr)
    ensures Source(Unary(Neg, inner)) == "-" + Source(inner)
    ensures Source(Unary(NotSign, inner)) == "not " + Source(inner)
    ensures Source(Paren(inner)) == "(" + Source(inner) + ")"
  {
    WrittenIs(Unary(Neg, inner));
    WrittenIs(Unary(NotSign, inner));
    WrittenIs(Paren(inner));
    LettersJoin([Minus], Written(inner));
    LettersJoin([Not], Written(inner));
    LettersJoin([Open] + Written(inner), [Close]);
    LettersJoin([Open], Written(inner));
    LettersOfOne(Minus);
    LettersOfOne(Not);
    LettersOfOne(Open);
    LettersOfOne(Close);
  }

  lemma LeafSource(text: string)
    ensures Source(Ident(text)) == text && Source(Lit(NumberLit(text))) == text
    ensures Source(Lit(TrueLit)) == "true" && Source(Lit(FalseLit)) == "false"
  {
    hide Letters;
    LettersOfOne(Name(text));
    LettersOfOne(Number(text));
    LettersOfOne(Token.True);
    LettersOfOne(Token.False);
    assert Written(Lit(TrueLit)) == [Token.True] && Written(Lit(FalseLit)) == [Token.False];
  }

  lemma StringSource(text: string)
    ensures Source(Lit(StringLit(text))) == "\"" + text + "\""
    ensures Source(Lit(EntityLit(text))) == "e\"" + text + "\""
    ensures Source(Lit(ResourceLit(text))) == "r\"" + text + "\""
  {
    hide Letters, Quoted;
    var quoted := Str(Quoted(text));
    LettersJoin([EntityMark], [quoted]);
    LettersJoin([ResourceMark], [quoted]);
    assert [EntityMark, quoted] == [EntityMark] + [quoted] && [ResourceMark, quoted] == [ResourceMark] + [quoted];
    LettersOfOne(quoted);
    LettersOfOne(EntityMark);
    LettersOfOne(ResourceMark);
    QuotesAdded(text);
  }

  lemma QuotesAdded(text: string)
    ensures Quoted(text) == "\"" + text + "\""
    ensures "e" + Quoted(text) == "e\"" + text + "\"" && "r" + Quoted(text) == "r\"" + text + "\""
  {
    assert "e" + ("\"" + text + "\"") == ("e" + "\"") + text + "\"" && "e" + "\"" == "e\"";
    assert "r" + ("\"" + text + "\"") == ("r" + "\"") + text + "\"" && "r" + "\"" == "r\"";
  }

  function ArgsSource(args: seq<Expr>): string {
    Letters(WrittenArgs(args))
  }

  lemma ArgsSources(first: Expr, second: Expr)
    ensures ArgsSource([]) == "" && ArgsSource([first]) == Source(first)
    ensures ArgsSource([first, second]) == Source(first) + ", " + Source(second)
  {
    hide Written;
    assert [first, second][1..] == [second] && WrittenArgs([second]) == Written(second);
    LettersJoin(Written(first) + [Comma], Written(second));
    LettersJoin(Written(first), [Comma]);
    LettersOfOne(Comma);
  }

  lemma ArgumentsSource(head: tokens, args: seq<Expr>)
    ensures Letters(head + [Open] + WrittenArgs(args) + [Close]) == Letters(head) + "(" + ArgsSource(args) + ")"
  {
    hide WrittenArgs, Letters;
    LettersJoin(head + [Open] + WrittenArgs(args), [Close]);
    LettersJoin(head + [Open], WrittenArgs(args));
    LettersJoin(head, [Open]);
    LettersOfOne(Open);
    LettersOfOne(Close);
  }

  lemma CallSource(name: string, args: seq<Expr>)
    ensures Source(Call(name, args)) == name + "(" + ArgsSource(args) + ")"
  {
    hide WrittenArgs, Letters, ArgsSource;
    ArgumentsSource([Name(name)], args);
    assert [Name(name), Open] == [Name(name)] + [Open];
    LettersOfOne(Name(name));
  }

  lemma MethodCallSource(receiver: string, name: string, args: seq<Expr>)
    ensures Source(MethodCall(receiver, name, args)) == receiver + "." + name + "(" + ArgsSource(args) + ")"
  {
    hide WrittenArgs, Letters, ArgsSource;
    var head := [Name(receiver)] + [Dot] + [Name(name)];
    ArgumentsSource(head, args);
    assert [Name(receiver), Dot, Name(name), Open] == head + [Open];
    LettersJoin([Name(receiver)] + [Dot], [Name(name)]);
    LettersJoin([Name(receiver)], [Dot]);
    LettersOfOne(Name(receiver));
    LettersOfOne(Dot);
    LettersOfOne(Name(name));
  }

  // ----- an expression as it stands in a program

  /** The two-operand expressions, as they stand in a program. */
  lemma OperatorsInSource()
    ensures
      var a, b := Ident("a"), Ident("b");
      && Source(Binary(Or, a, b)) == "a or b" && Source(Binary(And, a, b)) == "a and b"
      && Source(Binary(Eq, a, b)) == "a == b" && Source(Binary(Neq, a, b)) == "a != b"
      && Source(Binary(Lt, a, b)) == "a < b" && Source(Binary(Le, a, b)) == "a <= b"
      && Source(Binary(Gt, a, b)) == "a > b" && Source(Binary(Ge, a, b)) == "a >= b"
      && Source(Binary(Add, a, b)) == "a + b" && Source(Binary(Sub, a, b)) == "a - b"
      && Source(Binary(Mul, a, b)) == "a * b" && Source(Binary(Div, a, b)) == "a / b"
  {
    hide Source;
    LeafSource("a");
    LeafSource("b");
    forall op ensures Source(Binary(op, Ident("a"), Ident("b"))) == "a" + OperatorLetters(op) + "b" {
      BinarySource(op, Ident("a"), Ident("b"));
    }
  }

  lemma CallInSource() returns (m: Expr)
    ensures m == MethodCall("b", "f", [Call("g", [Lit(NumberLit("1"))]), Lit(TrueLit)])
    ensures Source(m) == "b.f(g(1), true)" && Respects(LEAF, m)
  {
    hide Source, ArgsSource;
    LeafSource("1");
    var one := Lit(NumberLit("1"));
    ArgsSources(one, one);
    CallSource("g", [one]);
    var g := Call("g", [one]);
    assert Source(g) == "g(1)" && Respects(0, g);
    ArgsSources(g, Lit(TrueLit));
    MethodCallSource("b", "f", [g, Lit(TrueLit)]);
    m := MethodCall("b", "f", [g, Lit(TrueLit)]);
    assert "g(1)" + ", " + "true" == "g(1), true";
  }

  lemma SumInSource() returns (e: Expr)
    ensures e == Binary(Add, Ident("c"), Binary(Mul, Lit(NumberLit("2")), Lit(NumberLit("3"))))
    ensures Source(e) == "c + 2 * 3" && Respects(4, e)
  {
    hide Source;
    LeafSource("c");
    LeafSource("2");
    LeafSource("3");
    var product := Binary(Mul, Lit(NumberLit("2")), Lit(NumberLit("3")));
    BinarySource(Mul, product.left, product.right);
    assert Source(product) == "2 * 3" && Respects(5, product);
    e := Binary(Add, Ident("c"), product);
    BinarySource(Add, e.left, product);
  }

  lemma CompareInSource() returns (e: Expr)
    ensures e == Binary(Le,
      Unary(Neg, MethodCall("b", "f", [Call("g", [Lit(NumberLit("1"))]), Lit(TrueLit)])),
      Paren(Binary(Add, Ident("c"), Binary(Mul, Lit(NumberLit("2")), Lit(NumberLit("3"))))))
    ensures Source(e) == "-b.f(g(1), true) <= (c + 2 * 3)" && Respects(3, e)
  {
    hide Source, Respects;
    var m := CallInSource();
    var sum := SumInSource();
    UnarySource(m);
    UnarySource(sum);
    e := Binary(Le, Unary(Neg, m), Paren(sum));
    BinarySource(Le, e.left, e.right);
    OperandsRespect(m, sum);
    BinaryRespects(Le, e.left, e.right, 3);
  }

  lemma OperandsRespect(m: Expr, sum: Expr)
    requires Respects(LEAF, m) && m.MethodCall? && Respects(4, sum) && sum.Binary?
    ensures Respects(3, Unary(Neg, m)) && Respects(4, Paren(sum))
  {
    assert Respects(UNARY, m) && Respects(0, sum);
  }

  lemma UnequalInSource() returns (e: Expr)
    ensures e == Binary(Neq, Lit(EntityLit("y")), Lit(ResourceLit("z")))
    ensures Source(e) == "e\"y\" != r\"z\"" && Respects(2, e)
  {
    hide Source;
    StringSource("y");
    StringSource("z");
    e := Binary(Neq, Lit(EntityLit("y")), Lit(ResourceLit("z")));
    BinarySource(Neq, e.left, e.right);
  }

  /** One expression with tokens of all kinds: its characters, and the tree that is parsed from its tokens. */
  lemma WholeExpression() returns (e: Expr)
    ensures e ==
      Binary(Or,
             Unary(NotSign, Ident("a")),
             Binary(And,
                    Binary(Le,
                           Unary(Neg, MethodCall("b", "f", [Call("g", [Lit(NumberLit("1"))]), Lit(TrueLit)])),
                           Paren(Binary(Add, Ident("c"), Binary(Mul, Lit(NumberLit("2")), Lit(NumberLit("3")))))),
                    Binary(Neq, Lit(EntityLit("y")), Lit(ResourceLit("z")))))
    ensures Source(e) == "not a" + " or " + "-b.f(g(1), true) <= (c + 2 * 3)" + " and " + "e\"y\" != r\"z\""
    ensures ParseExpr(Written(e)) == Ok(e, [])
  {
    hide Source, ParseExpr, Written, Respects;
    var compare := CompareInSource();
    var unequal := UnequalInSource();
    LeafSource("a");
    UnarySource(Ident("a"));
    var both := Binary(And, compare, unequal);
    BinarySource(And, compare, unequal);
    assert "not " + "a" == "not a";
    e := Binary(Or, Unary(NotSign, Ident("a")), both);
    BinarySource(Or, e.left, both);
    BothRespect(compare, unequal);
    BinaryRespects(And, compare, unequal, 1);
    BinaryRespects(Or, e.left, both, 0);
    WriteThenParse(e);
  }

  lemma BothRespect(compare: Expr, unequal: Expr)
    requires Respects(3, compare) && compare.Binary? && Respects(2, unequal) && unequal.Binary?
    ensures Respects(1, compare) && Respects(2, unequal) && Respects(0, Unary(NotSign, Ident("a")))
  {
    assert Respects(UNARY, Ident("a"));
  }
}
