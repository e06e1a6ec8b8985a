/**
 * The kernel IR expression evaluator: integer scalars are bound to concrete
 * values, launch dimensions are bound per thread parallel type, and
 * evaluating a derived scalar folds its definition through negation, casts
 * and the integer binary operators, memoising every value it computes.
 */
module KernelEvaluator {
  import opened Wrappers
  import opened Ir
  import CArith

  datatype EvalError =
    | NotScalar
    | NotIntType
    | NotAnIntConstant
    | BindsConstant
    | BindsComputedValue
    | NotThreadType
    | DivisionByZero
    | UnexpectedOperator

  /** Bound and memoised scalar values, and bound launch dimensions. */
  datatype Evaluator = Evaluator(known: map<Val, int>, dims: map<ParallelType, int>)

  datatype Evaluation = Evaluation(state: Evaluator, result: Result<Option<int>, EvalError>)

  const Fresh: Evaluator := Evaluator(map[], map[])

  /** `bind(value, n)`: only an `Int` scalar that is neither constant nor computed can be bound. */
  function Bind(ev: Evaluator, v: Val, n: int): (r: Result<Evaluator, EvalError>)
    ensures r.Ok? <==> IsScalar(v) && DataTypeOf(v) == IntType && !IsConstScalar(v) && !HasDefinition(v)
    ensures r.Ok? ==> r.value.known == ev.known[v := n] && r.value.dims == ev.dims
  {
    if !IsScalar(v) then Err(NotScalar)
    else if DataTypeOf(v) != IntType then Err(NotIntType)
    else if IsConstScalar(v) then Err(BindsConstant)
    else if HasDefinition(v) then Err(BindsComputedValue)
    else Ok(ev.(known := ev.known[v := n]))
  }

  /** `bind(pt, n)`: only a thread or block parallel type has a launch dimension. */
  function BindParallel(ev: Evaluator, pt: ParallelType, n: int): (r: Result<Evaluator, EvalError>)
    ensures r.Ok? <==> IsThread(pt)
    ensures r.Ok? ==> r.value.dims == ev.dims[pt := n] && r.value.known == ev.known
  {
    if !IsThread(pt) then Err(NotThreadType) else Ok(ev.(dims := ev.dims[pt := n]))
  }

  /** The bound launch dimension whose size name is `name`, looking at the types in `pts` in order. */
  function ThreadDimFrom(dims: map<ParallelType, int>, name: string, pts: seq<ParallelType>): Option<int> {
    if pts == [] then None
    else if pts[0] in dims && name == ThreadSizeName(pts[0]) then Some(dims[pts[0]])
    else ThreadDimFrom(dims, name, pts[1..])
  }

  function ThreadDim(dims: map<ParallelType, int>, name: string): Option<int> {
    ThreadDimFrom(dims, name, ThreadParallelTypes)
  }

  lemma {:induction false} ThreadDimFromSkips(dims: map<ParallelType, int>, name: string, pts: seq<ParallelType>, k: nat)
    requires k <= |pts|
    requires forall i :: 0 <= i < k ==> ThreadSizeName(pts[i]) != name
    ensures ThreadDimFrom(dims, name, pts) == ThreadDimFrom(dims, name, pts[k..])
  {
    if k > 0 {
      ThreadDimFromSkips(dims, name, pts[1..], k - 1);
      assert pts[1..][k - 1..] == pts[k..];
    }
  }

  /** A named scalar resolves to the launch dimension of the one thread type it is named after. */
  lemma ThreadDimOfBoundType(dims: map<ParallelType, int>, pt: ParallelType)
    requires IsThread(pt) && pt in dims
    ensures ThreadDim(dims, ThreadSizeName(pt)) == Some(dims[pt])
  {
    var ts := ThreadParallelTypes;
    var k :| 0 <= k < |ts| && ts[k] == pt;
    assert forall i :: 0 <= i < k ==> ThreadSizeName(ts[i]) != ThreadSizeName(pt) by {
      forall i | 0 <= i < k
        ensures ThreadSizeName(ts[i]) != ThreadSizeName(pt)
      {
        var a := ThreadSizeName(ts[i]);
        var b := ThreadSizeName(pt);
        assert a[0] != b[0] || a[|a| - 1] != b[|b| - 1];
      }
    }
    ThreadDimFromSkips(dims, ThreadSizeName(pt), ts, k);
  }

  function ApplyUnary(op: UnaryOpType, x: int): Result<int, EvalError> {
    match op
    case Neg => Ok(-x)
    case Cast => Ok(x)
    case _ => Err(UnexpectedOperator)
  }

  /** The integer binary operators, with C++ division, remainder and `ceilDiv`. */
  function ApplyBinary(op: BinaryOpType, a: int, b: int): (r: Result<int, EvalError>)
    ensures op in {DivOp, ModOp, CeilDivOp} ==> (r.Err? <==> b == 0)
    ensures op in {AddOp, SubOp, MulOp, AndOp} ==> r.Ok?
    ensures op == AndOp ==> (r == Ok(1) <==> a != 0 && b != 0) && (r == Ok(0) <==> a == 0 || b == 0)
  {
    match op
    case AddOp => Ok(a + b)
    case SubOp => Ok(a - b)
    case MulOp => Ok(a * b)
    case DivOp => if b == 0 then Err(DivisionByZero) else Ok(CArith.TruncDiv(a, b))
    case ModOp => if b == 0 then Err(DivisionByZero) else Ok(CArith.TruncMod(a, b))
    case CeilDivOp => if b == 0 then Err(DivisionByZero) else Ok(CArith.CeilDiv(a, b))
    case AndOp => Ok(if a != 0 && b != 0 then 1 else 0)
    case _ => Err(UnexpectedOperator)
  }

  /** Division and remainder of the same operands recombine to the dividend; `ceilDiv` of non-negative by positive is the ceiling. */
  lemma ApplyBinaryDivision(a: int, b: int)
    requires b != 0
    ensures a == b * ApplyBinary(DivOp, a, b).value + ApplyBinary(ModOp, a, b).value
    ensures a >= 0 && b > 0 ==>
      var c := ApplyBinary(CeilDivOp, a, b).value; (c - 1) * b < a <= c * b
  {
    CArith.TruncDivModSpec(a, b);
    if a >= 0 && b > 0 {
      CArith.CeilDivIsCeiling(a, b);
    }
  }

  /**
   * `evaluate`: a constant scalar gives its value; otherwise the value must
   * be an `Int` scalar, a bound or memoised value is returned as is, a named
   * launch dimension is looked up, and a derived value is folded from its
   * definition, whose result is memoised. A definition the evaluator has no
   * handler for gives no value.
   */
  function Evaluate(ev: Evaluator, v: Val): (r: Evaluation)
    ensures r.state.dims == ev.dims
    ensures forall k :: k in ev.known ==> k in r.state.known && r.state.known[k] == ev.known[k]
    ensures r.result.Ok? && r.result.value.Some? && !HoldsConstant(v) ==>
      v in r.state.known && r.state.known[v] == r.result.value.value
    decreases v
  {
    if IsScalar(v) && HoldsConstant(v) then
      Evaluation(ev, if v.IntScalar? then Ok(v.intValue) else Err(NotAnIntConstant))
    else if !IsScalar(v) then Evaluation(ev, Err(NotScalar))
    else if DataTypeOf(v) != IntType then Evaluation(ev, Err(NotIntType))
    else if v in ev.known then Evaluation(ev, Ok(Some(ev.known[v])))
    else
      match v
      case NamedScalar(name, _) =>
        var d := ThreadDim(ev.dims, name);
        if d.Some? then Evaluation(ev.(known := ev.known[v := d.value]), Ok(d))
        else Evaluation(ev, Ok(None))
      case Derived(_, _, _, UnaryDef(op, x)) =>
        var ex := Evaluate(ev, x);
        if ex.result.Err? then Evaluation(ex.state, ex.result)
        else if ex.result.value.None? then Evaluation(ex.state, Ok(None))
        else
          var y := ApplyUnary(op, ex.result.value.value);
          if y.Err? then Evaluation(ex.state, Err(y.error))
          else Evaluation(ex.state.(known := ex.state.known[v := y.value]), Ok(Some(y.value)))
      case Derived(_, _, _, BinaryDef(op, lhs, rhs)) =>
        var el := Evaluate(ev, lhs);
        if el.result.Err? then Evaluation(el.state, el.result)
        else
          var er := Evaluate(el.state, rhs);
          if er.result.Err? then Evaluation(er.state, er.result)
          else if el.result.value.None? || er.result.value.None? then Evaluation(er.state, Ok(None))
          else
            var y := ApplyBinary(op, el.result.value.value, er.result.value.value);
            if y.Err? then Evaluation(er.state, Err(y.error))
            else Evaluation(er.state.(known := er.state.known[v := y.value]), Ok(Some(y.value)))
      case _ => Evaluation(ev, Ok(None))
  }

  /** `isConst`: whether a fresh evaluator, with nothing bound, finds a value. */
  function IsConst(v: Val): Result<bool, EvalError> {
    var r := Evaluate(Fresh, v);
    if r.result.Err? then Err(r.result.error) else Ok(r.result.value.Some?)
  }

  /**
   * The value constant folding finds for `v` with nothing bound. The fusion
   * IR has its own evaluator, which is not part of this model; the lowering
   * passes that ask it for constant extents are modelled with this one.
   */
  function ConstantValue(v: Val): (r: Option<int>)
    ensures r.Some? ==> IsConst(v) == Ok(true)
  {
    var e := Evaluate(Fresh, v);
    if e.result.Ok? && e.result.value.Some? then e.result.value else None
  }

  /**
   * The reference meaning of a value under the bindings of `ev`: the same
   * checks and folding as `Evaluate`, without memoisation, reading `ev` only
   * for values that have no definition.
   */
  function Denote(ev: Evaluator, v: Val): Result<Option<int>, EvalError>
    decreases v
  {
    if IsScalar(v) && HoldsConstant(v) then
      if v.IntScalar? then Ok(v.intValue) else Err(NotAnIntConstant)
    else if !IsScalar(v) then Err(NotScalar)
    else if DataTypeOf(v) != IntType then Err(NotIntType)
    else if !HasDefinition(v) && v in ev.known then Ok(Some(ev.known[v]))
    else
      match v
      case NamedScalar(name, _) => Ok(ThreadDim(ev.dims, name))
      case Derived(_, _, _, UnaryDef(op, x)) =>
        var a :- Denote(ev, x);
        if a.None? then Ok(None)
        else
          var y :- ApplyUnary(op, a.value);
          Ok(Some(y))
      case Derived(_, _, _, BinaryDef(op, lhs, rhs)) =>
        var a :- Denote(ev, lhs);
        var b :- Denote(ev, rhs);
        if a.None? || b.None? then Ok(None)
        else
          var y :- ApplyBinary(op, a.value, b.value);
          Ok(Some(y))
      case _ => Ok(None)
  }

  /** Every memoised value of a derived scalar is its reference meaning. */
  ghost predicate Consistent(ev: Evaluator) {
    forall k :: k in ev.known && HasDefinition(k) ==> Denote(ev, k) == Ok(Some(ev.known[k]))
  }

  /**
   * `ev2` only adds memo entries to `ev`: for derived values, or for named
   * scalars whose launch dimension it records.
   */
  ghost predicate Extends(ev: Evaluator, ev2: Evaluator) {
    && ev2.dims == ev.dims
    && (forall k :: k in ev.known ==> k in ev2.known && ev2.known[k] == ev.known[k])
    && (forall k :: k in ev2.known && k !in ev.known ==>
          HasDefinition(k) || (k.NamedScalar? && ThreadDim(ev.dims, k.str) == Some(ev2.known[k])))
  }

  /** Memo entries never change the reference meaning of any value. */
  lemma {:induction false} DenoteStable(ev: Evaluator, ev2: Evaluator, v: Val)
    requires Extends(ev, ev2)
    ensures Denote(ev2, v) == Denote(ev, v)
    decreases v
  {
    match v
    case Derived(_, _, _, UnaryDef(_, x)) =>
      DenoteStable(ev, ev2, x);
    case Derived(_, _, _, BinaryDef(_, l, r)) =>
      DenoteStable(ev, ev2, l);
      DenoteStable(ev, ev2, r);
    case _ =>
  }

  lemma ExtendsTransitive(a: Evaluator, b: Evaluator, c: Evaluator)
    requires Extends(a, b) && Extends(b, c)
    ensures Extends(a, c)
  {
  }

  /**
   * The memoising evaluator agrees with the reference meaning whenever its
   * memo is consistent, and a successful evaluation only adds consistent
   * memo entries.
   */
  lemma {:induction false} EvaluateMatchesDenote(ev: Evaluator, v: Val)
    requires Consistent(ev)
    ensures Evaluate(ev, v).result == Denote(ev, v)
    ensures Evaluate(ev, v).result.Ok? ==>
      Extends(ev, Evaluate(ev, v).state) && Consistent(Evaluate(ev, v).state)
    decreases v, 1
  {
    if IsScalar(v) && HoldsConstant(v) {
    } else if !IsScalar(v) || DataTypeOf(v) != IntType {
    } else if v in ev.known {
    } else {
      match v
      case NamedScalar(_, _) => EvaluateNamedMatches(ev, v);
      case Derived(_, _, _, UnaryDef(_, _)) => EvaluateUnaryMatches(ev, v);
      case Derived(_, _, _, BinaryDef(_, _, _)) => EvaluateBinaryMatches(ev, v);
      case _ =>
    }
  }

  /** The evaluation step of a named scalar: a bound thread dimension is memoised. */
  lemma EvaluateNamedMatches(ev: Evaluator, v: Val)
    requires Consistent(ev) && v.NamedScalar? && v !in ev.known
    requires IsScalar(v) && !HoldsConstant(v) && DataTypeOf(v) == IntType
    ensures Evaluate(ev, v).result == Denote(ev, v)
    ensures Evaluate(ev, v).result.Ok? ==>
      Extends(ev, Evaluate(ev, v).state) && Consistent(Evaluate(ev, v).state)
  {
    var r := Evaluate(ev, v);
    if r.result.Ok? {
      assert Extends(ev, r.state);
      forall k | k in r.state.known && HasDefinition(k)
        ensures Denote(r.state, k) == Ok(Some(r.state.known[k]))
      {
        DenoteStable(ev, r.state, k);
      }
    }
  }

  /** The evaluation step of a unary definition. */
  lemma {:induction false} EvaluateUnaryMatches(ev: Evaluator, v: Val)
    requires Consistent(ev) && v.Derived? && v.definition.UnaryDef? && v !in ev.known
    requires IsScalar(v) && !HoldsConstant(v) && DataTypeOf(v) == IntType
    ensures Evaluate(ev, v).result == Denote(ev, v)
    ensures Evaluate(ev, v).result.Ok? ==>
      Extends(ev, Evaluate(ev, v).state) && Consistent(Evaluate(ev, v).state)
    decreases v, 0
  {
    var r := Evaluate(ev, v);
    var x := v.definition.input;
    EvaluateMatchesDenote(ev, x);
    var ex := Evaluate(ev, x);
    if ex.result.Ok? {
      assert Extends(ev, r.state) by {
        assert Extends(ev, ex.state);
      }
      if r.result.Ok? {
        forall k | k in r.state.known && HasDefinition(k)
          ensures Denote(r.state, k) == Ok(Some(r.state.known[k]))
        {
          DenoteStable(ev, r.state, k);
          if k != v {
            DenoteStable(ev, ex.state, k);
          }
        }
      }
    }
  }

  /** The evaluation step of a binary definition: left operand first, then right. */
  lemma {:induction false} EvaluateBinaryMatches(ev: Evaluator, v: Val)
    requires Consistent(ev) && v.Derived? && v.definition.BinaryDef? && v !in ev.known
    requires IsScalar(v) && !HoldsConstant(v) && DataTypeOf(v) == IntType
    ensures Evaluate(ev, v).result == Denote(ev, v)
    ensures Evaluate(ev, v).result.Ok? ==>
      Extends(ev, Evaluate(ev, v).state) && Consistent(Evaluate(ev, v).state)
    decreases v, 0
  {
    var r := Evaluate(ev, v);
    var lhs := v.definition.lhs;
    var rhs := v.definition.rhs;
    EvaluateMatchesDenote(ev, lhs);
    var el := Evaluate(ev, lhs);
    if el.result.Ok? {
      EvaluateMatchesDenote(el.state, rhs);
      DenoteStable(ev, el.state, rhs);
      var er := Evaluate(el.state, rhs);
      if er.result.Ok? {
        ExtendsTransitive(ev, el.state, er.state);
        assert Extends(ev, r.state);
        if r.result.Ok? {
          forall k | k in r.state.known && HasDefinition(k)
            ensures Denote(r.state, k) == Ok(Some(r.state.known[k]))
          {
            DenoteStable(ev, r.state, k);
            if k != v {
              DenoteStable(ev, er.state, k);
            }
          }
        }
      }
    }
  }

  /** A fresh evaluator has nothing memoised, so `isConst` is the reference meaning with nothing bound. */
  lemma IsConstMatchesDenote(v: Val)
    ensures IsConst(v).Ok? <==> Denote(Fresh, v).Ok?
    ensures IsConst(v) == Ok(true) <==> Denote(Fresh, v).Ok? && Denote(Fresh, v).value.Some?
  {
    EvaluateMatchesDenote(Fresh, v);
  }

  /** Binding an unbound scalar and then evaluating it gives back the bound value. */
  lemma BindThenEvaluate(ev: Evaluator, v: Val, n: int)
    requires Bind(ev, v, n).Ok?
    ensures Evaluate(Bind(ev, v, n).value, v).result == Ok(Some(n))
  {
  }

  /** Binding a launch dimension makes the named scalar of that dimension evaluate to it, unless that scalar was bound by name. */
  lemma BindParallelThenEvaluate(ev: Evaluator, pt: ParallelType, n: int)
    requires IsThread(pt)
    requires NamedScalar(ThreadSizeName(pt), IntType) !in ev.known
    ensures Evaluate(BindParallel(ev, pt, n).value, NamedScalar(ThreadSizeName(pt), IntType)).result == Ok(Some(n))
  {
    ThreadDimOfBoundType(ev.dims[pt := n], pt);
  }

  /** Binding a value that had no meaning yet keeps every memoised result consistent. */
  lemma BindKeepsConsistent(ev: Evaluator, v: Val, n: int)
    requires Consistent(ev)
    requires Denote(ev, v) == Ok(None)
    requires Bind(ev, v, n).Ok?
    ensures Consistent(Bind(ev, v, n).value)
  {
    var ev2 := Bind(ev, v, n).value;
    forall k | k in ev2.known && HasDefinition(k)
      ensures Denote(ev2, k) == Ok(Some(ev2.known[k]))
    {
      assert k != v;
      assert Denote(ev2, k) == Denote(ev, k) by {
        BindStableOn(ev, v, n, k);
      }
    }
  }

  /** Binding a value `v` that had no meaning leaves the meaning of every value that already had one unchanged. */
  lemma {:induction false} BindStableOn(ev: Evaluator, v: Val, n: int, w: Val)
    requires Denote(ev, v) == Ok(None)
    requires Bind(ev, v, n).Ok?
    requires Denote(ev, w).Ok? && Denote(ev, w).value.Some?
    ensures Denote(Bind(ev, v, n).value, w) == Denote(ev, w)
    decreases w
  {
    var ev2 := Bind(ev, v, n).value;
    if IsScalar(w) && HoldsConstant(w) {
    } else if !IsScalar(w) || DataTypeOf(w) != IntType {
    } else if !HasDefinition(w) && w in ev.known {
    } else {
      match w
      case NamedScalar(name, _) =>
      case Derived(_, _, _, UnaryDef(_, x)) =>
        BindStableOn(ev, v, n, x);
      case Derived(_, _, _, BinaryDef(_, l, r)) =>
        BindStableOn(ev, v, n, l);
        BindStableOn(ev, v, n, r);
      case _ =>
    }
  }
}
