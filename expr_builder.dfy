/** The listener that turns a parse tree into an expression with a stack,
    and `Expression.parse`, which lexes, parses, walks and collapses every
    failure into one. */
module ExpressionBuilder {
  import opened Wrappers
  import opened Expressions
  import opened ExpressionGrammar

  /** MakeExpression. `stack` holds the values of the subtrees walked so far
      whose parent has not been exited yet, oldest first: the top of the
      Java stack is the last element. */
  class MakeExpression {
    var stack: seq<Expr>

    /** A listener that has not begun a walk has an empty stack. */
    constructor ()
      ensures stack == []
    {
      stack := [];
    }

    /** `getExpression`: the bottom element, `stack.get(0)`. */
    method GetExpression() returns (e: Expr)
      requires |stack| > 0
      ensures e == stack[0]
    {
      e := stack[0];
    }

    /** `exitSum`: a sum with more than one child pops its right operand,
        then its left one, and pushes their Plus; a single-child sum leaves
        its only child's value where it is. */
    method ExitSum(c: SumContext)
      requires SumChildCount(c) > 1 ==> |stack| >= 2
      modifies this
      ensures SumChildCount(c) > 1 ==>
                |stack| == |old(stack)| - 1 &&
                stack == old(stack)[..|old(stack)| - 2]
                         + [Plus(old(stack)[|old(stack)| - 2], old(stack)[|old(stack)| - 1])]
      ensures SumChildCount(c) == 1 ==> stack == old(stack)
    {
      if SumChildCount(c) > 1 {
        var right := stack[|stack| - 1];
        stack := stack[..|stack| - 1];
        var left := stack[|stack| - 1];
        stack := stack[..|stack| - 1];
        stack := stack + [MakePlus(left, right)];
      }
    }

    /** `exitMul`: the same with Multiply. */
    method ExitMul(c: MulContext)
      requires MulChildCount(c) > 1 ==> |stack| >= 2
      modifies this
      ensures MulChildCount(c) > 1 ==>
                |stack| == |old(stack)| - 1 &&
                stack == old(stack)[..|old(stack)| - 2]
                         + [Multiply(old(stack)[|old(stack)| - 2], old(stack)[|old(stack)| - 1])]
      ensures MulChildCount(c) == 1 ==> stack == old(stack)
    {
      if MulChildCount(c) > 1 {
        var right := stack[|stack| - 1];
        stack := stack[..|stack| - 1];
        var left := stack[|stack| - 1];
        stack := stack[..|stack| - 1];
        stack := stack + [MakeMultiply(left, right)];
      }
    }

    /** `exitPrimitive`: a NUMBER pushes a Number, a VARIABLE pushes a
        Variable, and a parenthesised sum pushes nothing (its value is
        already on top). The Number and Variable constructors assert their
        invariants, so the leaf must be well formed. */
    method ExitPrimitive(c: PrimitiveContext)
      requires c.NumberLeaf? ==> c.value >= 0.0
      requires c.VariableLeaf? ==> |c.name| > 0
      modifies this
      ensures c.NumberLeaf? ==> stack == old(stack) + [Number(c.value)]
      ensures c.VariableLeaf? ==> stack == old(stack) + [Variable(c.name)]
      ensures c.Paren? ==> stack == old(stack)
    {
      match c
      case NumberLeaf(v) =>
        stack := stack + [MakeNumber(v)];
      case VariableLeaf(n) =>
        stack := stack + [MakeVariable(n)];
      case Paren(_) =>
    }

    /** The walk of a sum subtree (enter, children in order, exit; the
        terminal '+' is visited with no effect): it pushes exactly the
        subtree's value and leaves everything below untouched. */
    method WalkSum(c: SumContext)
      requires WellFormedSum(c)
      modifies this
      ensures stack == old(stack) + [SumValue(c)]
      decreases c, 0
    {
      match c {
        case SumOf(m) =>
          WalkMul(m);
        case SumPlus(s, m) =>
          WalkSum(s);
          WalkMul(m);
      }
      ExitSum(c);
    }

    method WalkMul(c: MulContext)
      requires WellFormedMul(c)
      modifies this
      ensures stack == old(stack) + [MulValue(c)]
      decreases c, 0
    {
      match c {
        case MulOf(p) =>
          WalkPrimitive(p);
        case MulTimes(m, p) =>
          WalkMul(m);
          WalkPrimitive(p);
      }
      ExitMul(c);
    }

    method WalkPrimitive(c: PrimitiveContext)
      requires WellFormedPrimitive(c)
      modifies this
      ensures stack == old(stack) + [PrimitiveValue(c)]
      decreases c, 0
    {
      match c {
        case NumberLeaf(_) =>
        case VariableLeaf(_) =>
        case Paren(s) =>
          WalkSum(s);
      }
      ExitPrimitive(c);
    }

    /** The walk of a whole tree: `exitRoot` does nothing, so the stack ends
        with the value of the root's sum on top of what was there before. */
    method WalkRoot(c: RootContext)
      requires WellFormedSum(c.sum)
      modifies this
      ensures stack == old(stack) + [SumValue(c.sum)]
    {
      WalkSum(c.sum);
    }
  }

  /** `Expression.parse`. The lexer is not part of this model: its result is
      the parameter `lexed`, `None` when it reports an error. Any lexer or
      parser error becomes the single failure (IllegalArgumentException);
      otherwise a fresh listener walks the tree and its one stacked value is
      the result, so no partial tree ever escapes. */
  method Parse(lexed: Option<seq<Token>>) returns (r: Result<Expr>)
    requires lexed.Some? ==> AllWellFormed(lexed.value)
    ensures lexed.None? ==> r == Failure
    ensures lexed.Some? ==> r == ParseTokens(lexed.value)
    ensures r.Success? ==> Valid(r.value)
  {
    if lexed.None? {
      return Failure;
    }
    var tree := ParseRoot(lexed.value);
    if tree.Failure? {
      return Failure;
    }
    RootWellFormed(lexed.value);
    var maker := new MakeExpression();
    maker.WalkRoot(tree.value);
    assert maker.stack == [SumValue(tree.value.sum)];
    var e := maker.GetExpression();
    r := Success(e);
  }

  /** Parsing the token rendering of any expression through the listener
      gives the expression back. */
  method ParseRendering(e: Expr) returns (r: Result<Expr>)
    requires Valid(e)
    ensures r == Success(e)
  {
    TokensWellFormed(e);
    r := Parse(Some(ToTokens(e)));
    RoundTrip(e);
  }
}
