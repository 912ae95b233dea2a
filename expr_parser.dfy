/** The expression grammar
      root      ::= sum EOF
      sum       ::= mul ('+' mul)*
      mul       ::= primitive ('*' primitive)*
      primitive ::= NUMBER | VARIABLE | '(' sum ')'
    as recursive descent over the lexer's token sequence, producing the same
    parse trees (contexts) the generated parser builds. The parser reports
    every syntax error as an exception, so a parse either yields a whole tree
    or fails; there is no error recovery. */
module ExpressionGrammar {
  import opened Wrappers
  import opened Expressions

  /** The lexer's tokens: NUMBER, VARIABLE, '+', '*', '(' and ')'. Spaces are
      skipped by the lexer and never reach the parser. */
  datatype Token =
    | NumberToken(value: real)
    | VariableToken(name: string)
    | PlusToken
    | StarToken
    | OpenToken
    | CloseToken

  /** A well-formed token: a NUMBER is not negative and a VARIABLE has a
      non-empty name. The lexer's VARIABLE is a run of letters, a stronger
      condition that is not checked here: the names an expression holds are
      only known to be non-empty. */
  predicate WellFormedToken(t: Token)
  {
    match t
    case NumberToken(v) => v >= 0.0
    case VariableToken(n) => |n| > 0
    case _ => true
  }

  predicate AllWellFormed(ts: seq<Token>)
  {
    forall i :: 0 <= i < |ts| ==> WellFormedToken(ts[i])
  }

  // -------------------------------------------------------------- parse trees

  /** RootContext: one sum (followed by EOF). */
  datatype RootContext = Root(sum: SumContext)

  /** SumContext: either a single mul (one child) or sum '+' mul (three
      children); the left-recursive form gives left nesting. */
  datatype SumContext =
    | SumOf(mul: MulContext)
    | SumPlus(sum: SumContext, plusMul: MulContext)

  /** MulContext: either a single primitive or mul '*' primitive. */
  datatype MulContext =
    | MulOf(primitive: PrimitiveContext)
    | MulTimes(mul: MulContext, timesPrimitive: PrimitiveContext)

  /** PrimitiveContext: NUMBER, VARIABLE, or '(' sum ')'. */
  datatype PrimitiveContext =
    | NumberLeaf(value: real)
    | VariableLeaf(name: string)
    | Paren(sum: SumContext)

  /** `getChildCount()` of a sum node. */
  function SumChildCount(c: SumContext): (n: nat)
    ensures n == 1 || n == 3
    ensures n > 1 <==> c.SumPlus?
  {
    if c.SumOf? then 1 else 3
  }

  /** `getChildCount()` of a mul node. */
  function MulChildCount(c: MulContext): (n: nat)
    ensures n == 1 || n == 3
    ensures n > 1 <==> c.MulTimes?
  {
    if c.MulOf? then 1 else 3
  }

  /** The leaves of a tree carry what a lexer token may carry. */
  predicate WellFormedSum(c: SumContext)
  {
    match c
    case SumOf(m) => WellFormedMul(m)
    case SumPlus(s, m) => WellFormedSum(s) && WellFormedMul(m)
  }

  predicate WellFormedMul(c: MulContext)
  {
    match c
    case MulOf(p) => WellFormedPrimitive(p)
    case MulTimes(m, p) => WellFormedMul(m) && WellFormedPrimitive(p)
  }

  predicate WellFormedPrimitive(c: PrimitiveContext)
  {
    match c
    case NumberLeaf(v) => v >= 0.0
    case VariableLeaf(n) => |n| > 0
    case Paren(s) => WellFormedSum(s)
  }

  // ------------------------------------------------- meaning of a parse tree

  /** The expression a parse tree stands for: a sum or mul with three
      children combines its two operands left to right; a parenthesised
      primitive stands for the sum inside. This is what the stack builder
      computes by walking the tree. */
  function SumValue(c: SumContext): Expr
  {
    match c
    case SumOf(m) => MulValue(m)
    case SumPlus(s, m) => Plus(SumValue(s), MulValue(m))
  }

  function MulValue(c: MulContext): Expr
  {
    match c
    case MulOf(p) => PrimitiveValue(p)
    case MulTimes(m, p) => Multiply(MulValue(m), PrimitiveValue(p))
  }

  function PrimitiveValue(c: PrimitiveContext): Expr
  {
    match c
    case NumberLeaf(v) => Number(v)
    case VariableLeaf(n) => Variable(n)
    case Paren(s) => SumValue(s)
  }

  /** A tree whose leaves came from the lexer means a valid expression:
      neither the Number nor the Variable invariant can fail while building. */
  lemma {:induction false} WellFormedSumIsValid(c: SumContext)
    requires WellFormedSum(c)
    ensures Valid(SumValue(c))
  {
    match c
    case SumOf(m) => WellFormedMulIsValid(m);
    case SumPlus(s, m) =>
      WellFormedSumIsValid(s);
      WellFormedMulIsValid(m);
  }

  lemma {:induction false} WellFormedMulIsValid(c: MulContext)
    requires WellFormedMul(c)
    ensures Valid(MulValue(c))
  {
    match c
    case MulOf(p) => WellFormedPrimitiveIsValid(p);
    case MulTimes(m, p) =>
      WellFormedMulIsValid(m);
      WellFormedPrimitiveIsValid(p);
  }

  lemma {:induction false} WellFormedPrimitiveIsValid(c: PrimitiveContext)
    requires WellFormedPrimitive(c)
    ensures Valid(PrimitiveValue(c))
  {
    match c
    case NumberLeaf(_) =>
    case VariableLeaf(_) =>
    case Paren(s) => WellFormedSumIsValid(s);
  }

  // ------------------------------------------------------- recursive descent

  /** A parsed tree together with the tokens left after it. */
  datatype Parsed<T> = Parsed(tree: T, rest: seq<Token>)

  /** `rest` is a suffix of `ts`. */
  predicate SuffixOf(rest: seq<Token>, ts: seq<Token>)
  {
    |rest| <= |ts| && rest == ts[|ts| - |rest|..]
  }

  /** `primitive()`: switch on the next token; NUMBER and VARIABLE are
      consumed alone, '(' needs a sum and then a ')'; anything else,
      including the end of the input, is NoViableAltException. */
  function ParsePrimitive(ts: seq<Token>): (r: Result<Parsed<PrimitiveContext>>)
    ensures r.Success? ==> |r.value.rest| < |ts|
    decreases |ts|, 0
  {
    if |ts| == 0 then Failure
    else
      match ts[0]
      case NumberToken(v) => Success(Parsed(NumberLeaf(v), ts[1..]))
      case VariableToken(n) => Success(Parsed(VariableLeaf(n), ts[1..]))
      case OpenToken =>
        (match ParseSum(ts[1..])
         case Failure => Failure
         case Success(p) =>
           if |p.rest| > 0 && p.rest[0] == CloseToken
           then Success(Parsed(Paren(p.tree), p.rest[1..]))
           else Failure)
      case _ => Failure
  }

  /** `mul()`: one primitive, then the loop. */
  function ParseMul(ts: seq<Token>): (r: Result<Parsed<MulContext>>)
    ensures r.Success? ==> |r.value.rest| < |ts|
    decreases |ts|, 1
  {
    match ParsePrimitive(ts)
    case Failure => Failure
    case Success(p) => MulLoop(MulOf(p.tree), p.rest)
  }

  /** The `('*' primitive)*` loop of `mul()`: while the next token is '*',
      a primitive must follow and the tree so far becomes its left child. */
  function MulLoop(acc: MulContext, ts: seq<Token>): (r: Result<Parsed<MulContext>>)
    ensures r.Success? ==> |r.value.rest| <= |ts|
    decreases |ts|, 2
  {
    if |ts| > 0 && ts[0] == StarToken then
      match ParsePrimitive(ts[1..])
      case Failure => Failure
      case Success(p) => MulLoop(MulTimes(acc, p.tree), p.rest)
    else Success(Parsed(acc, ts))
  }

  /** `sum()`: one mul, then the loop. */
  function ParseSum(ts: seq<Token>): (r: Result<Parsed<SumContext>>)
    ensures r.Success? ==> |r.value.rest| < |ts|
    decreases |ts|, 3
  {
    match ParseMul(ts)
    case Failure => Failure
    case Success(m) => SumLoop(SumOf(m.tree), m.rest)
  }

  /** The `('+' mul)*` loop of `sum()`. */
  function SumLoop(acc: SumContext, ts: seq<Token>): (r: Result<Parsed<SumContext>>)
    ensures r.Success? ==> |r.value.rest| <= |ts|
    decreases |ts|, 4
  {
    if |ts| > 0 && ts[0] == PlusToken then
      match ParseMul(ts[1..])
      case Failure => Failure
      case Success(m) => SumLoop(SumPlus(acc, m.tree), m.rest)
    else Success(Parsed(acc, ts))
  }

  /** `root()`: a sum that must be followed by EOF, so leftover tokens are
      an error. */
  function ParseRoot(ts: seq<Token>): (r: Result<RootContext>)
    ensures r.Success? ==> ParseSum(ts).Success? && ParseSum(ts).value.rest == []
  {
    match ParseSum(ts)
    case Failure => Failure
    case Success(p) => if p.rest == [] then Success(Root(p.tree)) else Failure
  }

  /** `Expression.parse` on an already lexed input: the tree's meaning, or a
      failure for any syntax error. */
  function ParseTokens(ts: seq<Token>): (r: Result<Expr>)
    ensures r.Success? <==> ParseRoot(ts).Success?
    ensures r.Success? && AllWellFormed(ts) ==> Valid(r.value)
  {
    match ParseRoot(ts)
    case Failure => Failure
    case Success(root) =>
      RootWellFormed(ts);
      Success(SumValue(root.sum))
  }

  // ------------------------------------------- parsed leaves are lexer tokens

  lemma SuffixTransitive(a: seq<Token>, b: seq<Token>, c: seq<Token>)
    requires SuffixOf(a, b) && SuffixOf(b, c)
    ensures SuffixOf(a, c)
  {
  }

  /** What the parser leaves unread is a suffix of its input: it consumes a
      prefix and never rewrites tokens. */
  lemma {:induction false} PrimitiveSuffix(ts: seq<Token>)
    ensures ParsePrimitive(ts).Success? ==> SuffixOf(ParsePrimitive(ts).value.rest, ts)
    decreases |ts|, 0
  {
    if |ts| > 0 && ts[0] == OpenToken {
      SumSuffix(ts[1..]);
      var p := ParseSum(ts[1..]);
      if p.Success? && |p.value.rest| > 0 {
        SuffixTransitive(p.value.rest[1..], p.value.rest, ts[1..]);
        SuffixTransitive(p.value.rest[1..], ts[1..], ts);
      }
    }
  }

  lemma {:induction false} MulSuffix(ts: seq<Token>)
    ensures ParseMul(ts).Success? ==> SuffixOf(ParseMul(ts).value.rest, ts)
    decreases |ts|, 1
  {
    PrimitiveSuffix(ts);
    var p := ParsePrimitive(ts);
    if p.Success? {
      MulLoopSuffix(MulOf(p.value.tree), p.value.rest);
      if ParseMul(ts).Success? {
        SuffixTransitive(ParseMul(ts).value.rest, p.value.rest, ts);
      }
    }
  }

  lemma {:induction false} MulLoopSuffix(acc: MulContext, ts: seq<Token>)
    ensures MulLoop(acc, ts).Success? ==> SuffixOf(MulLoop(acc, ts).value.rest, ts)
    decreases |ts|, 2
  {
    if |ts| > 0 && ts[0] == StarToken {
      PrimitiveSuffix(ts[1..]);
      var p := ParsePrimitive(ts[1..]);
      if p.Success? {
        MulLoopSuffix(MulTimes(acc, p.value.tree), p.value.rest);
        if MulLoop(acc, ts).Success? {
          SuffixTransitive(MulLoop(acc, ts).value.rest, p.value.rest, ts[1..]);
          SuffixTransitive(MulLoop(acc, ts).value.rest, ts[1..], ts);
        }
      }
    }
  }

  lemma {:induction false} SumSuffix(ts: seq<Token>)
    ensures ParseSum(ts).Success? ==> SuffixOf(ParseSum(ts).value.rest, ts)
    decreases |ts|, 3
  {
    MulSuffix(ts);
    var m := ParseMul(ts);
    if m.Success? {
      SumLoopSuffix(SumOf(m.value.tree), m.value.rest);
      if ParseSum(ts).Success? {
        SuffixTransitive(ParseSum(ts).value.rest, m.value.rest, ts);
      }
    }
  }

  lemma {:induction false} SumLoopSuffix(acc: SumContext, ts: seq<Token>)
    ensures SumLoop(acc, ts).Success? ==> SuffixOf(SumLoop(acc, ts).value.rest, ts)
    decreases |ts|, 4
  {
    if |ts| > 0 && ts[0] == PlusToken {
      MulSuffix(ts[1..]);
      var m := ParseMul(ts[1..]);
      if m.Success? {
        SumLoopSuffix(SumPlus(acc, m.value.tree), m.value.rest);
        if SumLoop(acc, ts).Success? {
          SuffixTransitive(SumLoop(acc, ts).value.rest, m.value.rest, ts[1..]);
          SuffixTransitive(SumLoop(acc, ts).value.rest, ts[1..], ts);
        }
      }
    }
  }

  lemma SuffixWellFormed(rest: seq<Token>, ts: seq<Token>)
    requires SuffixOf(rest, ts) && AllWellFormed(ts)
    ensures AllWellFormed(rest)
  {
    forall i | 0 <= i < |rest|
      ensures WellFormedToken(rest[i])
    {
      assert rest[i] == ts[|ts| - |rest| + i];
    }
  }

  lemma {:induction false} PrimitiveWellFormed(ts: seq<Token>)
    requires AllWellFormed(ts)
    ensures ParsePrimitive(ts).Success? ==> WellFormedPrimitive(ParsePrimitive(ts).value.tree)
    decreases |ts|, 0
  {
    if |ts| > 0 && ts[0] == OpenToken {
      SuffixWellFormed(ts[1..], ts);
      SumWellFormed(ts[1..]);
    } else if |ts| > 0 {
      assert WellFormedToken(ts[0]);
    }
  }

  lemma {:induction false} MulWellFormed(ts: seq<Token>)
    requires AllWellFormed(ts)
    ensures ParseMul(ts).Success? ==> WellFormedMul(ParseMul(ts).value.tree)
    decreases |ts|, 1
  {
    PrimitiveWellFormed(ts);
    PrimitiveSuffix(ts);
    var p := ParsePrimitive(ts);
    if p.Success? {
      SuffixWellFormed(p.value.rest, ts);
      MulLoopWellFormed(MulOf(p.value.tree), p.value.rest);
    }
  }

  lemma {:induction false} MulLoopWellFormed(acc: MulContext, ts: seq<Token>)
    requires AllWellFormed(ts) && WellFormedMul(acc)
    ensures MulLoop(acc, ts).Success? ==> WellFormedMul(MulLoop(acc, ts).value.tree)
    decreases |ts|, 2
  {
    if |ts| > 0 && ts[0] == StarToken {
      SuffixWellFormed(ts[1..], ts);
      PrimitiveWellFormed(ts[1..]);
      PrimitiveSuffix(ts[1..]);
      var p := ParsePrimitive(ts[1..]);
      if p.Success? {
        SuffixWellFormed(p.value.rest, ts[1..]);
        MulLoopWellFormed(MulTimes(acc, p.value.tree), p.value.rest);
      }
    }
  }

  lemma {:induction false} SumWellFormed(ts: seq<Token>)
    requires AllWellFormed(ts)
    ensures ParseSum(ts).Success? ==> WellFormedSum(ParseSum(ts).value.tree)
    decreases |ts|, 3
  {
    MulWellFormed(ts);
    MulSuffix(ts);
    var m := ParseMul(ts);
    if m.Success? {
      SuffixWellFormed(m.value.rest, ts);
      SumLoopWellFormed(SumOf(m.value.tree), m.value.rest);
    }
  }

  lemma {:induction false} SumLoopWellFormed(acc: SumContext, ts: seq<Token>)
    requires AllWellFormed(ts) && WellFormedSum(acc)
    ensures SumLoop(acc, ts).Success? ==> WellFormedSum(SumLoop(acc, ts).value.tree)
    decreases |ts|, 4
  {
    if |ts| > 0 && ts[0] == PlusToken {
      SuffixWellFormed(ts[1..], ts);
      MulWellFormed(ts[1..]);
      MulSuffix(ts[1..]);
      var m := ParseMul(ts[1..]);
      if m.Success? {
        SuffixWellFormed(m.value.rest, ts[1..]);
        SumLoopWellFormed(SumPlus(acc, m.value.tree), m.value.rest);
      }
    }
  }

  /** Every tree the parser builds from lexer tokens has well-formed leaves,
      so the expression it stands for is valid. */
  lemma RootWellFormed(ts: seq<Token>)
    ensures ParseRoot(ts).Success? && AllWellFormed(ts) ==>
              WellFormedSum(ParseRoot(ts).value.sum) && Valid(SumValue(ParseRoot(ts).value.sum))
  {
    if ParseRoot(ts).Success? && AllWellFormed(ts) {
      SumWellFormed(ts);
      WellFormedSumIsValid(ParseRoot(ts).value.sum);
    }
  }

  // ------------------------------------------------------ token rendering

  /** The fully parenthesised token sequence of `e`: what the lexer makes of
      `toString()` (the number spelling aside). */
  function ToTokens(e: Expr): (ts: seq<Token>)
    ensures |ts| >= 1
  {
    match e
    case Number(v) => [NumberToken(v)]
    case Variable(n) => [VariableToken(n)]
    case Plus(l, r) => [OpenToken] + ToTokens(l) + [PlusToken] + ToTokens(r) + [CloseToken]
    case Multiply(l, r) => [OpenToken] + ToTokens(l) + [StarToken] + ToTokens(r) + [CloseToken]
  }

  /** Every token in the rendering of a valid expression is one the lexer
      can produce. */
  lemma {:induction false} TokensWellFormed(e: Expr)
    requires Valid(e)
    ensures AllWellFormed(ToTokens(e))
  {
    match e
    case Number(_) =>
    case Variable(_) =>
    case Plus(l, r) =>
      TokensWellFormed(l);
      TokensWellFormed(r);
      AppendWellFormed([OpenToken] + ToTokens(l) + [PlusToken], ToTokens(r) + [CloseToken]);
    case Multiply(l, r) =>
      TokensWellFormed(l);
      TokensWellFormed(r);
      AppendWellFormed([OpenToken] + ToTokens(l) + [StarToken], ToTokens(r) + [CloseToken]);
  }

  lemma AppendWellFormed(a: seq<Token>, b: seq<Token>)
    requires AllWellFormed(a) && AllWellFormed(b)
    ensures AllWellFormed(a + b)
  {
  }

  /** The text of a token sequence: operators carry their surrounding spaces
      as `toString` prints them; how a number is spelled is a parameter. */
  function Spell(ts: seq<Token>, showNumber: real -> string): string
  {
    if |ts| == 0 then ""
    else
      var head := match ts[0]
        case NumberToken(v) => showNumber(v)
        case VariableToken(n) => n
        case PlusToken => " + "
        case StarToken => " * "
        case OpenToken => "("
        case CloseToken => ")";
      head + Spell(ts[1..], showNumber)
  }

  lemma {:induction false} SpellAppend(a: seq<Token>, b: seq<Token>, showNumber: real -> string)
    ensures Spell(a + b, showNumber) == Spell(a, showNumber) + Spell(b, showNumber)
  {
    if |a| > 0 {
      SpellAppend(a[1..], b, showNumber);
      assert (a + b)[0] == a[0];
      assert (a + b)[1..] == a[1..] + b;
    } else {
      assert a + b == b;
    }
  }

  /** `toString` is exactly the spelling of the token rendering, so the
      round trip below is the round trip of `parse(e.toString())` whenever
      the lexer reads back the numbers `toString` prints. */
  lemma {:induction false} RenderIsSpelled(e: Expr, showNumber: real -> string)
    ensures Render(e, showNumber) == Spell(ToTokens(e), showNumber)
  {
    match e
    case Number(_) =>
    case Variable(_) =>
    case Plus(l, r) =>
      RenderIsSpelled(l, showNumber);
      RenderIsSpelled(r, showNumber);
      SpellBinary(ToTokens(l), PlusToken, ToTokens(r), showNumber);
    case Multiply(l, r) =>
      RenderIsSpelled(l, showNumber);
      RenderIsSpelled(r, showNumber);
      SpellBinary(ToTokens(l), StarToken, ToTokens(r), showNumber);
  }

  lemma SpellBinary(a: seq<Token>, op: Token, b: seq<Token>, showNumber: real -> string)
    ensures Spell([OpenToken] + a + [op] + b + [CloseToken], showNumber)
         == "(" + Spell(a, showNumber) + Spell([op], showNumber) + Spell(b, showNumber) + ")"
  {
    SpellAppend([OpenToken] + a + [op] + b, [CloseToken], showNumber);
    SpellAppend([OpenToken] + a + [op], b, showNumber);
    SpellAppend([OpenToken] + a, [op], showNumber);
    SpellAppend([OpenToken], a, showNumber);
  }

  // ---------------------------------------------------------- parser steps

  /** The `*` loop stops at any token other than '*'. */
  lemma MulLoopExit(acc: MulContext, ts: seq<Token>)
    requires |ts| == 0 || ts[0] != StarToken
    ensures MulLoop(acc, ts) == Success(Parsed(acc, ts))
  {
  }

  /** The `+` loop stops at any token other than '+'. */
  lemma SumLoopExit(acc: SumContext, ts: seq<Token>)
    requires |ts| == 0 || ts[0] != PlusToken
    ensures SumLoop(acc, ts) == Success(Parsed(acc, ts))
  {
  }

  /** One turn of the `*` loop: the primitive after '*' becomes the right
      child of a new mul node. */
  lemma MulLoopStep(acc: MulContext, p: PrimitiveContext, ts: seq<Token>, rest: seq<Token>)
    requires ParsePrimitive(ts) == Success(Parsed(p, rest))
    ensures MulLoop(acc, [StarToken] + ts) == MulLoop(MulTimes(acc, p), rest)
  {
    assert ([StarToken] + ts)[1..] == ts;
  }

  /** One turn of the `+` loop. */
  lemma SumLoopStep(acc: SumContext, m: MulContext, ts: seq<Token>, rest: seq<Token>)
    requires ParseMul(ts) == Success(Parsed(m, rest))
    ensures SumLoop(acc, [PlusToken] + ts) == SumLoop(SumPlus(acc, m), rest)
  {
    assert ([PlusToken] + ts)[1..] == ts;
  }

  /** A primitive that is a single mul operand: the mul it starts ends with
      it when no '*' follows. */
  lemma MulOfPrimitiveStep(p: PrimitiveContext, ts: seq<Token>, rest: seq<Token>)
    requires ParsePrimitive(ts) == Success(Parsed(p, rest))
    requires |rest| == 0 || rest[0] != StarToken
    ensures ParseMul(ts) == Success(Parsed(MulOf(p), rest))
  {
    MulLoopExit(MulOf(p), rest);
  }

  /** '(' sum ')' is a primitive. */
  lemma ParenStep(c: SumContext, ts: seq<Token>, rest: seq<Token>)
    requires ParseSum(ts) == Success(Parsed(c, [CloseToken] + rest))
    ensures ParsePrimitive([OpenToken] + ts) == Success(Parsed(Paren(c), rest))
  {
    assert ([OpenToken] + ts)[1..] == ts;
    assert ([CloseToken] + rest)[1..] == rest;
  }

  // ---------------------------------------------------------------- round trip

  /** The parse tree the rendering of `e` gets: a leaf for a Number or a
      Variable, and a parenthesised sum or mul of the operands' trees for Plus
      and Multiply. */
  function TreeOf(e: Expr): PrimitiveContext
  {
    match e
    case Number(v) => NumberLeaf(v)
    case Variable(n) => VariableLeaf(n)
    case Plus(l, r) => Paren(SumPlus(SumOf(MulOf(TreeOf(l))), MulOf(TreeOf(r))))
    case Multiply(l, r) => Paren(SumOf(MulTimes(MulOf(TreeOf(l)), TreeOf(r))))
  }

  /** That tree stands for `e` again. */
  lemma {:induction false} TreeOfMeansExpr(e: Expr)
    ensures PrimitiveValue(TreeOf(e)) == e
  {
    match e
    case Number(_) =>
    case Variable(_) =>
    case Plus(l, r) =>
      TreeOfMeansExpr(l);
      TreeOfMeansExpr(r);
      assert MulValue(MulOf(TreeOf(l))) == l;
      assert SumValue(SumOf(MulOf(TreeOf(l)))) == l;
      assert MulValue(MulOf(TreeOf(r))) == r;
    case Multiply(l, r) =>
      TreeOfMeansExpr(l);
      TreeOfMeansExpr(r);
      assert MulValue(MulOf(TreeOf(l))) == l;
      assert MulValue(MulTimes(MulOf(TreeOf(l)), TreeOf(r))) == e;
  }

  /** '(' a '+' b ')' is a primitive, given how `a` and `b` parse. */
  lemma ParenPlusStep(pl: PrimitiveContext, pr: PrimitiveContext, tl: seq<Token>, tr: seq<Token>, rest: seq<Token>)
    requires ParsePrimitive(tl + ([PlusToken] + (tr + ([CloseToken] + rest))))
          == Success(Parsed(pl, [PlusToken] + (tr + ([CloseToken] + rest))))
    requires ParsePrimitive(tr + ([CloseToken] + rest)) == Success(Parsed(pr, [CloseToken] + rest))
    ensures ParsePrimitive([OpenToken] + (tl + ([PlusToken] + (tr + ([CloseToken] + rest)))))
         == Success(Parsed(Paren(SumPlus(SumOf(MulOf(pl)), MulOf(pr))), rest))
  {
    var close := [CloseToken] + rest;
    var afterL := [PlusToken] + (tr + close);
    var sum := SumPlus(SumOf(MulOf(pl)), MulOf(pr));
    MulOfPrimitiveStep(pl, tl + afterL, afterL);
    MulOfPrimitiveStep(pr, tr + close, close);
    SumLoopStep(SumOf(MulOf(pl)), MulOf(pr), tr + close, close);
    SumLoopExit(sum, close);
    ParenStep(sum, tl + afterL, rest);
  }

  /** '(' a '*' b ')' is a primitive, given how `a` and `b` parse. */
  lemma ParenTimesStep(pl: PrimitiveContext, pr: PrimitiveContext, tl: seq<Token>, tr: seq<Token>, rest: seq<Token>)
    requires ParsePrimitive(tl + ([StarToken] + (tr + ([CloseToken] + rest))))
          == Success(Parsed(pl, [StarToken] + (tr + ([CloseToken] + rest))))
    requires ParsePrimitive(tr + ([CloseToken] + rest)) == Success(Parsed(pr, [CloseToken] + rest))
    ensures ParsePrimitive([OpenToken] + (tl + ([StarToken] + (tr + ([CloseToken] + rest)))))
         == Success(Parsed(Paren(SumOf(MulTimes(MulOf(pl), pr))), rest))
  {
    var close := [CloseToken] + rest;
    var afterL := [StarToken] + (tr + close);
    var mul := MulTimes(MulOf(pl), pr);
    MulLoopStep(MulOf(pl), pr, tr + close, close);
    MulLoopExit(mul, close);
    SumLoopExit(SumOf(mul), close);
    ParenStep(SumOf(mul), tl + afterL, rest);
  }

  /** The rendering of `e` parses as one primitive, whatever follows it:
      exactly the tokens of `e` are consumed and the tree is `TreeOf(e)`. */
  lemma {:induction false} PrimitiveRoundTrip(e: Expr, rest: seq<Token>)
    ensures ParsePrimitive(ToTokens(e) + rest) == Success(Parsed(TreeOf(e), rest))
  {
    match e
    case Number(_) =>
      assert (ToTokens(e) + rest)[1..] == rest;
    case Variable(_) =>
      assert (ToTokens(e) + rest)[1..] == rest;
    case Plus(l, r) =>
      PrimitiveRoundTrip(l, [PlusToken] + (ToTokens(r) + ([CloseToken] + rest)));
      PrimitiveRoundTrip(r, [CloseToken] + rest);
      PlusRoundTripCase(l, r, rest);
    case Multiply(l, r) =>
      PrimitiveRoundTrip(l, [StarToken] + (ToTokens(r) + ([CloseToken] + rest)));
      PrimitiveRoundTrip(r, [CloseToken] + rest);
      MultiplyRoundTripCase(l, r, rest);
  }

  /** The tokens of a Plus or Multiply, followed by `rest`, regrouped the
      way the parser reads them. */
  lemma BinaryTokens(e: Expr, rest: seq<Token>)
    requires e.Plus? || e.Multiply?
    ensures ToTokens(e) + rest
         == [OpenToken] + (ToTokens(e.left) + ([if e.Plus? then PlusToken else StarToken]
                          + (ToTokens(e.right) + ([CloseToken] + rest))))
  {
  }

  lemma PlusRoundTripCase(l: Expr, r: Expr, rest: seq<Token>)
    requires ParsePrimitive(ToTokens(l) + ([PlusToken] + (ToTokens(r) + ([CloseToken] + rest))))
          == Success(Parsed(TreeOf(l), [PlusToken] + (ToTokens(r) + ([CloseToken] + rest))))
    requires ParsePrimitive(ToTokens(r) + ([CloseToken] + rest)) == Success(Parsed(TreeOf(r), [CloseToken] + rest))
    ensures ParsePrimitive(ToTokens(Plus(l, r)) + rest) == Success(Parsed(TreeOf(Plus(l, r)), rest))
  {
    BinaryTokens(Plus(l, r), rest);
    ParenPlusStep(TreeOf(l), TreeOf(r), ToTokens(l), ToTokens(r), rest);
  }

  lemma MultiplyRoundTripCase(l: Expr, r: Expr, rest: seq<Token>)
    requires ParsePrimitive(ToTokens(l) + ([StarToken] + (ToTokens(r) + ([CloseToken] + rest))))
          == Success(Parsed(TreeOf(l), [StarToken] + (ToTokens(r) + ([CloseToken] + rest))))
    requires ParsePrimitive(ToTokens(r) + ([CloseToken] + rest)) == Success(Parsed(TreeOf(r), [CloseToken] + rest))
    ensures ParsePrimitive(ToTokens(Multiply(l, r)) + rest) == Success(Parsed(TreeOf(Multiply(l, r)), rest))
  {
    BinaryTokens(Multiply(l, r), rest);
    ParenTimesStep(TreeOf(l), TreeOf(r), ToTokens(l), ToTokens(r), rest);
  }

  /** A whole input that is one sum followed by nothing means that sum. */
  lemma WholeSum(c: SumContext, ts: seq<Token>)
    requires ParseSum(ts) == Success(Parsed(c, []))
    ensures ParseTokens(ts) == Success(SumValue(c))
  {
    assert ParseRoot(ts) == Success(Root(c));
  }

  /** The rendering of `e` parses back, as a whole input, to `e`: the
      documented `parse(e.toString())` round trip, at token level. */
  lemma RoundTrip(e: Expr)
    ensures ParseTokens(ToTokens(e)) == Success(e)
  {
    var ts := ToTokens(e);
    PrimitiveRoundTrip(e, []);
    assert ts + [] == ts;
    MulOfPrimitiveStep(TreeOf(e), ts, []);
    SumLoopExit(SumOf(MulOf(TreeOf(e))), []);
    WholeSum(SumOf(MulOf(TreeOf(e))), ts);
    TreeOfMeansExpr(e);
  }

  // ------------------------------------------ precedence and associativity

  lemma Regroup(ta: seq<Token>, x: Token, tb: seq<Token>, y: Token, tc: seq<Token>)
    ensures ta + [x] + tb + [y] + tc == ta + ([x] + (tb + ([y] + tc)))
    ensures tc + [] == tc
  {
  }

  /** How `a op1 b op2 c` parses, for operand token sequences that each
      parse as one primitive: the four combinations of '+' and '*'. */
  lemma ChainPlusPlus(pa: PrimitiveContext, pb: PrimitiveContext, pc: PrimitiveContext,
                      ta: seq<Token>, tb: seq<Token>, tc: seq<Token>)
    requires ParsePrimitive(ta + ([PlusToken] + (tb + ([PlusToken] + tc))))
          == Success(Parsed(pa, [PlusToken] + (tb + ([PlusToken] + tc))))
    requires ParsePrimitive(tb + ([PlusToken] + tc)) == Success(Parsed(pb, [PlusToken] + tc))
    requires ParsePrimitive(tc) == Success(Parsed(pc, []))
    ensures ParseSum(ta + ([PlusToken] + (tb + ([PlusToken] + tc))))
         == Success(Parsed(SumPlus(SumPlus(SumOf(MulOf(pa)), MulOf(pb)), MulOf(pc)), []))
  {
    var r2 := [PlusToken] + tc;
    var r1 := [PlusToken] + (tb + r2);
    var s1 := SumOf(MulOf(pa));
    var s2 := SumPlus(s1, MulOf(pb));
    MulOfPrimitiveStep(pa, ta + r1, r1);
    MulOfPrimitiveStep(pb, tb + r2, r2);
    MulOfPrimitiveStep(pc, tc, []);
    SumLoopStep(s1, MulOf(pb), tb + r2, r2);
    SumLoopStep(s2, MulOf(pc), tc, []);
    SumLoopExit(SumPlus(s2, MulOf(pc)), []);
  }

  lemma ChainTimesTimes(pa: PrimitiveContext, pb: PrimitiveContext, pc: PrimitiveContext,
                        ta: seq<Token>, tb: seq<Token>, tc: seq<Token>)
    requires ParsePrimitive(ta + ([StarToken] + (tb + ([StarToken] + tc))))
          == Success(Parsed(pa, [StarToken] + (tb + ([StarToken] + tc))))
    requires ParsePrimitive(tb + ([StarToken] + tc)) == Success(Parsed(pb, [StarToken] + tc))
    requires ParsePrimitive(tc) == Success(Parsed(pc, []))
    ensures ParseSum(ta + ([StarToken] + (tb + ([StarToken] + tc))))
         == Success(Parsed(SumOf(MulTimes(MulTimes(MulOf(pa), pb), pc)), []))
  {
    var r2 := [StarToken] + tc;
    var m1 := MulOf(pa);
    var m2 := MulTimes(m1, pb);
    MulLoopStep(m1, pb, tb + r2, r2);
    MulLoopStep(m2, pc, tc, []);
    MulLoopExit(MulTimes(m2, pc), []);
    SumLoopExit(SumOf(MulTimes(m2, pc)), []);
  }

  lemma ChainPlusTimes(pa: PrimitiveContext, pb: PrimitiveContext, pc: PrimitiveContext,
                       ta: seq<Token>, tb: seq<Token>, tc: seq<Token>)
    requires ParsePrimitive(ta + ([PlusToken] + (tb + ([StarToken] + tc))))
          == Success(Parsed(pa, [PlusToken] + (tb + ([StarToken] + tc))))
    requires ParsePrimitive(tb + ([StarToken] + tc)) == Success(Parsed(pb, [StarToken] + tc))
    requires ParsePrimitive(tc) == Success(Parsed(pc, []))
    ensures ParseSum(ta + ([PlusToken] + (tb + ([StarToken] + tc))))
         == Success(Parsed(SumPlus(SumOf(MulOf(pa)), MulTimes(MulOf(pb), pc)), []))
  {
    var r2 := [StarToken] + tc;
    var r1 := [PlusToken] + (tb + r2);
    var m := MulTimes(MulOf(pb), pc);
    MulOfPrimitiveStep(pa, ta + r1, r1);
    MulLoopStep(MulOf(pb), pc, tc, []);
    MulLoopExit(m, []);
    SumLoopStep(SumOf(MulOf(pa)), m, tb + r2, []);
    SumLoopExit(SumPlus(SumOf(MulOf(pa)), m), []);
  }

  lemma ChainTimesPlus(pa: PrimitiveContext, pb: PrimitiveContext, pc: PrimitiveContext,
                       ta: seq<Token>, tb: seq<Token>, tc: seq<Token>)
    requires ParsePrimitive(ta + ([StarToken] + (tb + ([PlusToken] + tc))))
          == Success(Parsed(pa, [StarToken] + (tb + ([PlusToken] + tc))))
    requires ParsePrimitive(tb + ([PlusToken] + tc)) == Success(Parsed(pb, [PlusToken] + tc))
    requires ParsePrimitive(tc) == Success(Parsed(pc, []))
    ensures ParseSum(ta + ([StarToken] + (tb + ([PlusToken] + tc))))
         == Success(Parsed(SumPlus(SumOf(MulTimes(MulOf(pa), pb)), MulOf(pc)), []))
  {
    var r2 := [PlusToken] + tc;
    var m := MulTimes(MulOf(pa), pb);
    MulLoopStep(MulOf(pa), pb, tb + r2, r2);
    MulLoopExit(m, r2);
    MulOfPrimitiveStep(pc, tc, []);
    SumLoopStep(SumOf(m), MulOf(pc), tc, []);
    SumLoopExit(SumPlus(SumOf(m), MulOf(pc)), []);
  }

  /** What the four chain trees mean, in terms of the operands. */
  lemma ChainValues(a: Expr, b: Expr, c: Expr)
    ensures SumValue(SumPlus(SumPlus(SumOf(MulOf(TreeOf(a))), MulOf(TreeOf(b))), MulOf(TreeOf(c))))
         == Plus(Plus(a, b), c)
    ensures SumValue(SumOf(MulTimes(MulTimes(MulOf(TreeOf(a)), TreeOf(b)), TreeOf(c))))
         == Multiply(Multiply(a, b), c)
    ensures SumValue(SumPlus(SumOf(MulOf(TreeOf(a))), MulTimes(MulOf(TreeOf(b)), TreeOf(c))))
         == Plus(a, Multiply(b, c))
    ensures SumValue(SumPlus(SumOf(MulTimes(MulOf(TreeOf(a)), TreeOf(b))), MulOf(TreeOf(c))))
         == Plus(Multiply(a, b), c)
  {
    TreeOfMeansExpr(a);
    TreeOfMeansExpr(b);
    TreeOfMeansExpr(c);
    assert MulValue(MulOf(TreeOf(a))) == a;
    assert MulValue(MulOf(TreeOf(b))) == b;
    assert MulValue(MulOf(TreeOf(c))) == c;
    assert SumValue(SumOf(MulOf(TreeOf(a)))) == a;
    assert MulValue(MulTimes(MulOf(TreeOf(a)), TreeOf(b))) == Multiply(a, b);
  }

  /** `a + b + c` nests to the left: `(a + b) + c`. */
  lemma PlusIsLeftAssociative(a: Expr, b: Expr, c: Expr)
    ensures ParseTokens(ToTokens(a) + [PlusToken] + ToTokens(b) + [PlusToken] + ToTokens(c))
         == Success(Plus(Plus(a, b), c))
  {
    var ta, tb, tc := ToTokens(a), ToTokens(b), ToTokens(c);
    Regroup(ta, PlusToken, tb, PlusToken, tc);
    PrimitiveRoundTrip(a, [PlusToken] + (tb + ([PlusToken] + tc)));
    PrimitiveRoundTrip(b, [PlusToken] + tc);
    PrimitiveRoundTrip(c, []);
    ChainPlusPlus(TreeOf(a), TreeOf(b), TreeOf(c), ta, tb, tc);
    var tree := SumPlus(SumPlus(SumOf(MulOf(TreeOf(a))), MulOf(TreeOf(b))), MulOf(TreeOf(c)));
    WholeSum(tree, ta + ([PlusToken] + (tb + ([PlusToken] + tc))));
    ChainValues(a, b, c);
  }

  /** `a * b * c` nests to the left: `(a * b) * c`. */
  lemma TimesIsLeftAssociative(a: Expr, b: Expr, c: Expr)
    ensures ParseTokens(ToTokens(a) + [StarToken] + ToTokens(b) + [StarToken] + ToTokens(c))
         == Success(Multiply(Multiply(a, b), c))
  {
    var ta, tb, tc := ToTokens(a), ToTokens(b), ToTokens(c);
    Regroup(ta, StarToken, tb, StarToken, tc);
    PrimitiveRoundTrip(a, [StarToken] + (tb + ([StarToken] + tc)));
    PrimitiveRoundTrip(b, [StarToken] + tc);
    PrimitiveRoundTrip(c, []);
    ChainTimesTimes(TreeOf(a), TreeOf(b), TreeOf(c), ta, tb, tc);
    var tree := SumOf(MulTimes(MulTimes(MulOf(TreeOf(a)), TreeOf(b)), TreeOf(c)));
    WholeSum(tree, ta + ([StarToken] + (tb + ([StarToken] + tc))));
    ChainValues(a, b, c);
  }

  /** `a + b * c` reads as `a + (b * c)`: '*' binds tighter. */
  lemma TimesBindsTighterOnTheRight(a: Expr, b: Expr, c: Expr)
    ensures ParseTokens(ToTokens(a) + [PlusToken] + ToTokens(b) + [StarToken] + ToTokens(c))
         == Success(Plus(a, Multiply(b, c)))
  {
    var ta, tb, tc := ToTokens(a), ToTokens(b), ToTokens(c);
    Regroup(ta, PlusToken, tb, StarToken, tc);
    PrimitiveRoundTrip(a, [PlusToken] + (tb + ([StarToken] + tc)));
    PrimitiveRoundTrip(b, [StarToken] + tc);
    PrimitiveRoundTrip(c, []);
    ChainPlusTimes(TreeOf(a), TreeOf(b), TreeOf(c), ta, tb, tc);
    var tree := SumPlus(SumOf(MulOf(TreeOf(a))), MulTimes(MulOf(TreeOf(b)), TreeOf(c)));
    WholeSum(tree, ta + ([PlusToken] + (tb + ([StarToken] + tc))));
    ChainValues(a, b, c);
  }

  /** `a * b + c` reads as `(a * b) + c`. */
  lemma TimesBindsTighterOnTheLeft(a: Expr, b: Expr, c: Expr)
    ensures ParseTokens(ToTokens(a) + [StarToken] + ToTokens(b) + [PlusToken] + ToTokens(c))
         == Success(Plus(Multiply(a, b), c))
  {
    var ta, tb, tc := ToTokens(a), ToTokens(b), ToTokens(c);
    Regroup(ta, StarToken, tb, PlusToken, tc);
    PrimitiveRoundTrip(a, [StarToken] + (tb + ([PlusToken] + tc)));
    PrimitiveRoundTrip(b, [PlusToken] + tc);
    PrimitiveRoundTrip(c, []);
    ChainTimesPlus(TreeOf(a), TreeOf(b), TreeOf(c), ta, tb, tc);
    var tree := SumPlus(SumOf(MulTimes(MulOf(TreeOf(a)), TreeOf(b))), MulOf(TreeOf(c)));
    WholeSum(tree, ta + ([StarToken] + (tb + ([PlusToken] + tc))));
    ChainValues(a, b, c);
  }

  // ------------------------------------------------------------------ errors

  /** An empty input has no primitive: the whole parse fails. */
  lemma EmptyInputFails()
    ensures ParseTokens([]) == Failure
  {
  }

  /** `primitive()` has no alternative for any other lookahead: an input
      that starts with '+', '*' or ')' is rejected. */
  lemma BadLookaheadFails(ts: seq<Token>)
    requires |ts| > 0 && (ts[0] == PlusToken || ts[0] == StarToken || ts[0] == CloseToken)
    ensures ParseTokens(ts) == Failure
  {
    assert ParsePrimitive(ts) == Failure;
    assert ParseMul(ts) == Failure;
  }

  /** A primitive followed by one more token: '*' and '+' lack their
      right operand and any other token is not EOF. */
  lemma TrailingTokenStep(p: PrimitiveContext, te: seq<Token>, t: Token)
    requires ParsePrimitive(te + [t]) == Success(Parsed(p, [t]))
    ensures ParseTokens(te + [t]) == Failure
  {
    var ts := te + [t];
    assert [t][1..] == [];
    if t == StarToken {
      assert ParsePrimitive([]) == Failure;
      assert MulLoop(MulOf(p), [t]) == Failure;
      assert ParseMul(ts) == Failure;
      assert ParseSum(ts) == Failure;
    } else if t == PlusToken {
      MulOfPrimitiveStep(p, ts, [t]);
      assert ParseMul([]) == Failure;
      assert SumLoop(SumOf(MulOf(p)), [t]) == Failure;
      assert ParseSum(ts) == Failure;
    } else {
      MulOfPrimitiveStep(p, ts, [t]);
      SumLoopExit(SumOf(MulOf(p)), [t]);
      assert ParseSum(ts) == Success(Parsed(SumOf(MulOf(p)), [t]));
    }
    assert ParseRoot(ts) == Failure;
  }

  /** A complete expression followed by any further token is rejected. */
  lemma TrailingTokenFails(e: Expr, t: Token)
    ensures ParseTokens(ToTokens(e) + [t]) == Failure
  {
    PrimitiveRoundTrip(e, [t]);
    TrailingTokenStep(TreeOf(e), ToTokens(e), t);
  }

  /** '(' followed by a sum that reaches the end of the input. */
  lemma UnclosedStep(p: PrimitiveContext, te: seq<Token>)
    requires ParsePrimitive(te) == Success(Parsed(p, []))
    ensures ParseTokens([OpenToken] + te) == Failure
  {
    MulOfPrimitiveStep(p, te, []);
    SumLoopExit(SumOf(MulOf(p)), []);
    assert ([OpenToken] + te)[1..] == te;
    assert ParsePrimitive([OpenToken] + te) == Failure;
    assert ParseMul([OpenToken] + te) == Failure;
    assert ParseSum([OpenToken] + te) == Failure;
  }

  /** An opening parenthesis that is never closed is an error. */
  lemma UnclosedParenthesisFails(e: Expr)
    ensures ParseTokens([OpenToken] + ToTokens(e)) == Failure
  {
    PrimitiveRoundTrip(e, []);
    assert ToTokens(e) + [] == ToTokens(e);
    UnclosedStep(TreeOf(e), ToTokens(e));
  }
}
