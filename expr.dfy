/** The immutable expression tree of the symbolic-algebra engine: its four
    variants, their rep invariants, factories, structural equality, hashing,
    rendering, differentiation and simplification. */
module Expressions {
  import opened Wrappers

  /** Expression = Number(value) + Variable(name) + Plus(left, right)
                   + Multiply(left, right).
      Java `double` values are modelled as mathematical reals. */
  datatype Expr =
    | Number(value: real)
    | Variable(name: string)
    | Plus(left: Expr, right: Expr)
    | Multiply(left: Expr, right: Expr)

  /** The rep invariants of every node of the tree: a Number is never
      negative and a Variable's name is never empty (Plus and Multiply add
      nothing of their own). */
  predicate Valid(e: Expr)
  {
    match e
    case Number(v) => v >= 0.0
    case Variable(n) => |n| > 0
    case Plus(l, r) => Valid(l) && Valid(r)
    case Multiply(l, r) => Valid(l) && Valid(r)
  }

  /** The names of the variables occurring in `e`. */
  function Vars(e: Expr): set<string>
  {
    match e
    case Number(_) => {}
    case Variable(n) => {n}
    case Plus(l, r) => Vars(l) + Vars(r)
    case Multiply(l, r) => Vars(l) + Vars(r)
  }

  // ---------------------------------------------------------------- factories

  /** `Expression.make(double)`: the Number constructor asserts that the value
      is not negative. */
  function MakeNumber(value: real): (e: Expr)
    requires value >= 0.0
    ensures e.Number? && e.value == value && Valid(e)
  {
    Number(value)
  }

  /** `Expression.make(String)`: the Variable constructor asserts a non-empty
      name. */
  function MakeVariable(name: string): (e: Expr)
    requires |name| > 0
    ensures e.Variable? && e.name == name && Valid(e)
  {
    Variable(name)
  }

  /** `Expression.makePlus`. */
  function MakePlus(left: Expr, right: Expr): (e: Expr)
    ensures e.Plus? && e.left == left && e.right == right
    ensures Valid(e) <==> Valid(left) && Valid(right)
  {
    Plus(left, right)
  }

  /** `Expression.makeMultiply`. */
  function MakeMultiply(left: Expr, right: Expr): (e: Expr)
    ensures e.Multiply? && e.left == left && e.right == right
    ensures Valid(e) <==> Valid(left) && Valid(right)
  {
    Multiply(left, right)
  }

  // ------------------------------------------------------- equality and hash

  /** `equals`, as the four classes define it: a node only equals a node of
      its own class; Numbers compare values, Variables compare names exactly,
      and Plus and Multiply compare left with left and right with right. */
  predicate Equal(a: Expr, b: Expr)
  {
    match a
    case Number(v) => b.Number? && v == b.value
    case Variable(n) => b.Variable? && n == b.name
    case Plus(l, r) => b.Plus? && Equal(l, b.left) && Equal(r, b.right)
    case Multiply(l, r) => b.Multiply? && Equal(l, b.left) && Equal(r, b.right)
  }

  /** Structural equality is exactly equality of trees: it is order
      sensitive, case sensitive, and never relates two different variants. */
  lemma {:induction false} EqualIsIdentity(a: Expr, b: Expr)
    ensures Equal(a, b) <==> a == b
  {
    match a
    case Number(_) =>
    case Variable(_) =>
    case Plus(l, r) =>
      if b.Plus? {
        EqualIsIdentity(l, b.left);
        EqualIsIdentity(r, b.right);
      }
    case Multiply(l, r) =>
      if b.Multiply? {
        EqualIsIdentity(l, b.left);
        EqualIsIdentity(r, b.right);
      }
  }

  /** `hashCode`. The leaf hashes (`Double.hashCode`, `String.hashCode`) and
      the way Plus and Multiply combine their children's hashes with the
      operator character are parameters: only their shape is modelled. */
  function Hash(e: Expr, numberHash: real -> int, nameHash: string -> int,
                combine: (int, char, int) -> int): int
  {
    match e
    case Number(v) => numberHash(v)
    case Variable(n) => nameHash(n)
    case Plus(l, r) =>
      combine(Hash(l, numberHash, nameHash, combine), '+', Hash(r, numberHash, nameHash, combine))
    case Multiply(l, r) =>
      combine(Hash(l, numberHash, nameHash, combine), '*', Hash(r, numberHash, nameHash, combine))
  }

  /** Structurally equal expressions hash identically, whatever the leaf
      hashes and the combining function are. */
  lemma {:induction false} HashConsistent(a: Expr, b: Expr, numberHash: real -> int,
                                          nameHash: string -> int, combine: (int, char, int) -> int)
    requires Equal(a, b)
    ensures Hash(a, numberHash, nameHash, combine) == Hash(b, numberHash, nameHash, combine)
  {
    EqualIsIdentity(a, b);
  }

  // ---------------------------------------------------------------- rendering

  /** `toString`: fully parenthesised infix. How a value is printed
      (`Double.toString`) is a parameter. */
  function Render(e: Expr, showNumber: real -> string): string
  {
    match e
    case Number(v) => showNumber(v)
    case Variable(n) => n
    case Plus(l, r) => "(" + Render(l, showNumber) + " + " + Render(r, showNumber) + ")"
    case Multiply(l, r) => "(" + Render(l, showNumber) + " * " + Render(r, showNumber) + ")"
  }

  // ---------------------------------------------------------------- getValue

  /** `getValue`: a Number returns its value; Plus and Multiply throw
      UnsupportedOperationException, and so does a Variable (it defines no
      value of its own). */
  function GetValue(e: Expr): (r: Option<real>)
    ensures r.Some? <==> e.Number?
    ensures r.Some? ==> r.value == e.value
  {
    match e
    case Number(v) => Some(v)
    case _ => None
  }

  // --------------------------------------------------------------- evaluation

  /** Multiplication of reals, named so that the solver treats products of
      subterms as terms rather than as nonlinear arithmetic. */
  function Times(a: real, b: real): real
  {
    a * b
  }

  /** The value of `e` when every variable `n` stands for `env(n)`. This is the
      reference meaning against which differentiation and simplification are
      checked; the source has no evaluator of its own. */
  function Eval(e: Expr, env: string -> real): real
  {
    match e
    case Number(v) => v
    case Variable(n) => env(n)
    case Plus(l, r) => Eval(l, env) + Eval(r, env)
    case Multiply(l, r) => Times(Eval(l, env), Eval(r, env))
  }

  // ---------------------------------------------------------- differentiation

  /** `differentiate(x)`: constant rule, the variable rule, the sum rule and
      the product rule, with no simplification of the result. */
  function Derive(e: Expr, x: string): (d: Expr)
    ensures Valid(e) ==> Valid(d)
    ensures Vars(d) <= Vars(e)
  {
    match e
    case Number(_) => Number(0.0)
    case Variable(n) => if x == n then Number(1.0) else Number(0.0)
    case Plus(l, r) => Plus(Derive(l, x), Derive(r, x))
    case Multiply(l, r) => Plus(Multiply(Derive(l, x), r), Multiply(l, Derive(r, x)))
  }

  /** Forward-mode automatic differentiation: the value of `e` together with
      the value of its derivative with respect to `x`, computed by dual-number
      arithmetic. An independent reference for `Derive`. */
  function Dual(e: Expr, env: string -> real, x: string): (real, real)
  {
    match e
    case Number(v) => (v, 0.0)
    case Variable(n) => (env(n), if n == x then 1.0 else 0.0)
    case Plus(l, r) =>
      var p, q := Dual(l, env, x), Dual(r, env, x);
      (p.0 + q.0, p.1 + q.1)
    case Multiply(l, r) =>
      var p, q := Dual(l, env, x), Dual(r, env, x);
      (Times(p.0, q.0), Times(p.1, q.0) + Times(p.0, q.1))
  }

  /** The first component of the dual number is the value of the expression. */
  lemma {:induction false} DualValueIsEval(e: Expr, env: string -> real, x: string)
    ensures Dual(e, env, x).0 == Eval(e, env)
  {
    match e
    case Number(_) =>
    case Variable(_) =>
    case Plus(l, r) =>
      DualValueIsEval(l, env, x);
      DualValueIsEval(r, env, x);
    case Multiply(l, r) =>
      DualValueIsEval(l, env, x);
      DualValueIsEval(r, env, x);
  }

  /** The symbolic derivative evaluates, at every point, to the derivative
      computed by dual numbers. */
  lemma {:induction false} DeriveAgreesWithDual(e: Expr, env: string -> real, x: string)
    ensures Eval(Derive(e, x), env) == Dual(e, env, x).1
  {
    match e
    case Number(_) =>
    case Variable(_) =>
    case Plus(l, r) =>
      DeriveAgreesWithDual(l, env, x);
      DeriveAgreesWithDual(r, env, x);
    case Multiply(l, r) =>
      DeriveAgreesWithDual(l, env, x);
      DeriveAgreesWithDual(r, env, x);
      DualValueIsEval(l, env, x);
      DualValueIsEval(r, env, x);
  }

  /** An expression in which `x` does not occur has derivative zero at every
      point (though the derivative tree itself is not simplified). */
  lemma {:induction false} DeriveOfConstantIsZero(e: Expr, env: string -> real, x: string)
    requires x !in Vars(e)
    ensures Eval(Derive(e, x), env) == 0.0
  {
    match e
    case Number(_) =>
    case Variable(_) =>
    case Plus(l, r) =>
      DeriveOfConstantIsZero(l, env, x);
      DeriveOfConstantIsZero(r, env, x);
    case Multiply(l, r) =>
      DeriveOfConstantIsZero(l, env, x);
      DeriveOfConstantIsZero(r, env, x);
  }

  // ----------------------------------------------------------- simplification

  /** `simplify(env)`. A Number simplifies to itself. Variable's `simplify` is
      not defined by the modelled classes, so what a variable simplifies to is
      the parameter `varRule` (for instance an environment lookup). Plus and
      Multiply simplify both operands; when both results are Numbers
      (`getValue` succeeds on both) they fold into one Number, otherwise the
      node is rebuilt from the simplified operands in the same order. */
  function Simplify(e: Expr, varRule: string -> Expr): (s: Expr)
    requires Valid(e)
    requires forall n :: n in Vars(e) ==> Valid(varRule(n))
    ensures Valid(s)
    ensures e.Number? ==> s == e
  {
    match e
    case Number(_) => e
    case Variable(n) => varRule(n)
    case Plus(l, r) =>
      var sl := Simplify(l, varRule);
      var sr := Simplify(r, varRule);
      (match (GetValue(sl), GetValue(sr))
       case (Some(a), Some(b)) => Number(a + b)
       case _ => Plus(sl, sr))
    case Multiply(l, r) =>
      var sl := Simplify(l, varRule);
      var sr := Simplify(r, varRule);
      (match (GetValue(sl), GetValue(sr))
       case (Some(a), Some(b)) => Number(a * b)
       case _ => Multiply(sl, sr))
  }

  /** The environment-lookup reading of `varRule`: a variable becomes a Number
      when the environment knows it and stays itself otherwise. */
  predicate IsLookup(varRule: string -> Expr, e: Expr)
  {
    forall n :: n in Vars(e) ==> Valid(varRule(n)) && (varRule(n) == Variable(n) || varRule(n).Number?)
  }

  /** Simplification preserves meaning: if every variable's replacement has
      the variable's own value, the simplified tree has the original value. */
  lemma {:induction false} SimplifyPreservesValue(e: Expr, varRule: string -> Expr, env: string -> real)
    requires Valid(e)
    requires forall n :: n in Vars(e) ==> Valid(varRule(n))
    requires forall n :: n in Vars(e) ==> Eval(varRule(n), env) == env(n)
    ensures Eval(Simplify(e, varRule), env) == Eval(e, env)
  {
    match e
    case Number(_) =>
    case Variable(_) =>
    case Plus(l, r) =>
      SimplifyPreservesValue(l, varRule, env);
      SimplifyPreservesValue(r, varRule, env);
    case Multiply(l, r) =>
      SimplifyPreservesValue(l, varRule, env);
      SimplifyPreservesValue(r, varRule, env);
  }

  /** The values a lookup rule gives, read as an environment (0 elsewhere). */
  function RuleValues(varRule: string -> Expr): string -> real
  {
    n => if varRule(n).Number? then varRule(n).value else 0.0
  }

  /** When the rule gives every variable of `e` a value, simplification folds
      the whole tree into a single Number holding the value of `e`. */
  lemma {:induction false} SimplifyFullyKnown(e: Expr, varRule: string -> Expr)
    requires Valid(e)
    requires forall n :: n in Vars(e) ==> varRule(n).Number? && varRule(n).value >= 0.0
    ensures Simplify(e, varRule) == Number(Eval(e, RuleValues(varRule)))
  {
    match e
    case Number(_) =>
    case Variable(_) =>
    case Plus(l, r) =>
      SimplifyFullyKnown(l, varRule);
      SimplifyFullyKnown(r, varRule);
    case Multiply(l, r) =>
      SimplifyFullyKnown(l, varRule);
      SimplifyFullyKnown(r, varRule);
  }

  /** The trees `Simplify` produces under a lookup rule: no Plus or Multiply
      has two Number operands, and every variable left is one the rule keeps. */
  predicate Simplified(s: Expr, varRule: string -> Expr)
  {
    match s
    case Number(_) => true
    case Variable(n) => varRule(n) == s
    case Plus(l, r) => !(l.Number? && r.Number?) && Simplified(l, varRule) && Simplified(r, varRule)
    case Multiply(l, r) => !(l.Number? && r.Number?) && Simplified(l, varRule) && Simplified(r, varRule)
  }

  lemma {:induction false} SimplifyIsSimplified(e: Expr, varRule: string -> Expr)
    requires Valid(e) && IsLookup(varRule, e)
    ensures Simplified(Simplify(e, varRule), varRule)
    ensures Vars(Simplify(e, varRule)) <= Vars(e)
  {
    match e
    case Number(_) =>
    case Variable(_) =>
    case Plus(l, r) =>
      SimplifyIsSimplified(l, varRule);
      SimplifyIsSimplified(r, varRule);
    case Multiply(l, r) =>
      SimplifyIsSimplified(l, varRule);
      SimplifyIsSimplified(r, varRule);
  }

  lemma {:induction false} SimplifiedIsFixpoint(s: Expr, varRule: string -> Expr)
    requires Valid(s) && Simplified(s, varRule)
    ensures forall n :: n in Vars(s) ==> Valid(varRule(n))
    ensures Simplify(s, varRule) == s
  {
    match s
    case Number(_) =>
    case Variable(_) =>
    case Plus(l, r) =>
      SimplifiedIsFixpoint(l, varRule);
      SimplifiedIsFixpoint(r, varRule);
    case Multiply(l, r) =>
      SimplifiedIsFixpoint(l, varRule);
      SimplifiedIsFixpoint(r, varRule);
  }

  /** Under an environment lookup, simplifying twice is simplifying once. */
  lemma {:induction false} SimplifyIdempotent(e: Expr, varRule: string -> Expr)
    requires Valid(e) && IsLookup(varRule, e)
    ensures Vars(Simplify(e, varRule)) <= Vars(e)
    ensures Simplify(Simplify(e, varRule), varRule) == Simplify(e, varRule)
  {
    SimplifyIsSimplified(e, varRule);
    SimplifiedIsFixpoint(Simplify(e, varRule), varRule);
  }
}
