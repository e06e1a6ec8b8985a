/**
 * The integer index arithmetic that index computation builds: literals,
 * named scalars (loop indices, strides, extents) and the binary operations
 * the kernel IR builder offers. Expressions are fresh trees, so only their
 * value under a binding of names matters; `/`, `%` and `ceilDiv` are the
 * C++ truncating forms, and a zero divisor has no value.
 */
module IndexExpr {
  import opened Wrappers
  import CArith

  datatype IExpr =
    | Lit(n: int)
    | Var(name: string)
    | Add(a: IExpr, b: IExpr)
    | Sub(a: IExpr, b: IExpr)
    | Mul(a: IExpr, b: IExpr)
    | Div(a: IExpr, b: IExpr)
    | Mod(a: IExpr, b: IExpr)
    | CeilDiv(a: IExpr, b: IExpr)
    | Min(a: IExpr, b: IExpr)
    | Max(a: IExpr, b: IExpr)
    | Neg(a: IExpr)

  /** Values of the named scalars. */
  type Env = map<string, int>

  function Eval(e: IExpr, env: Env): Option<int> {
    match e
    case Lit(n) => Some(n)
    case Var(x) => if x in env then Some(env[x]) else None
    case Add(a, b) =>
      var x :- Eval(a, env); var y :- Eval(b, env); Some(x + y)
    case Sub(a, b) =>
      var x :- Eval(a, env); var y :- Eval(b, env); Some(x - y)
    case Mul(a, b) =>
      var x :- Eval(a, env); var y :- Eval(b, env); Some(x * y)
    case Div(a, b) =>
      var x :- Eval(a, env); var y :- Eval(b, env);
      if y == 0 then None else Some(CArith.TruncDiv(x, y))
    case Mod(a, b) =>
      var x :- Eval(a, env); var y :- Eval(b, env);
      if y == 0 then None else Some(CArith.TruncMod(x, y))
    case CeilDiv(a, b) =>
      var x :- Eval(a, env); var y :- Eval(b, env);
      if y == 0 then None else Some(CArith.CeilDiv(x, y))
    case Min(a, b) =>
      var x :- Eval(a, env); var y :- Eval(b, env); Some(if x < y then x else y)
    case Max(a, b) =>
      var x :- Eval(a, env); var y :- Eval(b, env); Some(if x < y then y else x)
    case Neg(a) =>
      var x :- Eval(a, env); Some(-x)
  }

  /** The value a fresh evaluator finds, with no name bound. */
  function ConstValue(e: IExpr): Option<int> {
    Eval(e, map[])
  }

  /** `isZeroInt`: a literal zero, recognised by shape only. */
  predicate IsZeroInt(e: IExpr) {
    e == Lit(0)
  }

  /** `isOneInt`: a literal one, recognised by shape only. */
  predicate IsOneInt(e: IExpr) {
    e == Lit(1)
  }

  /** An expression with no defining operation: a literal or a named scalar. */
  predicate IsLeaf(e: IExpr) {
    e.Lit? || e.Var?
  }

  /**
   * The simplifying builder's addition, in the two rules index code relies
   * on before a zero test: two literals fold into one, and a literal zero
   * drops out.
   */
  function AddFolded(a: IExpr, b: IExpr): (r: IExpr)
    ensures IsZeroInt(a) ==> r == b
    ensures IsZeroInt(b) ==> r == a
    ensures a.Lit? && b.Lit? ==> r == Lit(a.n + b.n)
  {
    if IsZeroInt(a) then b
    else if IsZeroInt(b) then a
    else if a.Lit? && b.Lit? then Lit(a.n + b.n)
    else Add(a, b)
  }

  /** Folding never changes the value of a sum. */
  lemma AddFoldedEval(a: IExpr, b: IExpr, env: Env)
    ensures Eval(AddFolded(a, b), env) == Eval(Add(a, b), env)
  {
    if IsZeroInt(a) {
      match Eval(b, env)
      case None =>
      case Some(y) => assert Eval(Add(a, b), env) == Some(0 + y);
    }
  }

  /** A value without names evaluates the same under every binding. */
  lemma {:induction false} ConstValueEverywhere(e: IExpr, env: Env)
    requires ConstValue(e).Some?
    ensures Eval(e, env) == ConstValue(e)
  {
    match e
    case Lit(_) =>
    case Var(x) =>
    case Add(a, b) => ConstValueEverywhere(a, env); ConstValueEverywhere(b, env);
    case Sub(a, b) => ConstValueEverywhere(a, env); ConstValueEverywhere(b, env);
    case Mul(a, b) => ConstValueEverywhere(a, env); ConstValueEverywhere(b, env);
    case Div(a, b) => ConstValueEverywhere(a, env); ConstValueEverywhere(b, env);
    case Mod(a, b) => ConstValueEverywhere(a, env); ConstValueEverywhere(b, env);
    case CeilDiv(a, b) => ConstValueEverywhere(a, env); ConstValueEverywhere(b, env);
    case Min(a, b) => ConstValueEverywhere(a, env); ConstValueEverywhere(b, env);
    case Max(a, b) => ConstValueEverywhere(a, env); ConstValueEverywhere(b, env);
    case Neg(a) => ConstValueEverywhere(a, env);
  }

  /** Re-linearising a truncating quotient and remainder gives back the dividend, for any signs. */
  lemma DivModRelinearise(e: IExpr, f: IExpr, env: Env)
    requires Eval(e, env).Some? && Eval(f, env).Some? && Eval(f, env).value != 0
    ensures Eval(Add(Mul(Div(e, f), f), Mod(e, f)), env) == Eval(e, env)
  {
    var x := Eval(e, env).value;
    var y := Eval(f, env).value;
    var q := CArith.TruncDiv(x, y);
    var r := CArith.TruncMod(x, y);
    CArith.TruncDivModSpec(x, y);
    assert x == q * y + r by {
      assert x == y * q + r;
    }
    assert Eval(Mul(Div(e, f), f), env) == Some(q * y);
    assert Eval(Mod(e, f), env) == Some(r);
  }
}
