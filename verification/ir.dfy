/**
 * The fuser's IR value graph. A value is a scalar leaf (an `Int`, `Double`
 * or `Bool` that may hold a constant), a named scalar such as `blockDim.x`,
 * a non-scalar leaf (a tensor view or iteration domain), or a value produced
 * by a defining expression. Every node carries its statement name, so two
 * distinct nodes of the same shape are different values: equality of `Val`s
 * stands for object identity in the source.
 */
module Ir {
  import opened Wrappers

  datatype DataType = IntType | DoubleType | BoolType | FloatTensorType

  datatype ParallelType =
    | BIDz | BIDy | BIDx | TIDz | TIDy | TIDx
    | Vectorize | MisalignedVectorize | Unroll | Unswitch | Serial

  /** The six thread and block parallel types, in the order the kernel enumerates them. */
  const ThreadParallelTypes: seq<ParallelType> := [BIDz, BIDy, BIDx, TIDz, TIDy, TIDx]

  predicate IsThread(pt: ParallelType) {
    pt in ThreadParallelTypes
  }

  /** The name of the launch-dimension scalar standing for a thread parallel type. */
  function ThreadSizeName(pt: ParallelType): string {
    match pt
    case BIDz => "gridDim.z"
    case BIDy => "gridDim.y"
    case BIDx => "gridDim.x"
    case TIDz => "blockDim.z"
    case TIDy => "blockDim.y"
    case TIDx => "blockDim.x"
    case _ => ""
  }

  datatype UnaryOpType = Neg | Cast | AbsOp | NotOp

  datatype BinaryOpType = AddOp | SubOp | MulOp | DivOp | ModOp | CeilDivOp | AndOp | OrOp | MinOp | MaxOp | LtOp | GeOp

  /** Kinds of IR expressions, compared by `Expr::sameAs`. */
  datatype ExprType = UnaryExpr | BinaryExpr | TernaryExpr | ReductionExpr | BroadcastExpr | SplitExpr | MergeExpr

  datatype Val =
    | IntScalar(name: nat, intValue: Option<int>)
    | DoubleScalar(name: nat, hasValue: bool)
    | BoolScalar(name: nat, boolValue: Option<bool>)
    | NamedScalar(str: string, namedType: DataType)
    | NonScalar(name: nat)
    | Derived(name: nat, scalar: bool, dtype: DataType, definition: Def)

  /** The defining expression of a derived value, with its inputs. */
  datatype Def =
    | UnaryDef(uop: UnaryOpType, input: Val)
    | BinaryDef(bop: BinaryOpType, lhs: Val, rhs: Val)
    | OtherDef(etype: ExprType, inputs: seq<Val>)

  /** An IR expression as `Expr::sameAs` sees it: its kind, inputs and outputs. */
  datatype ExprNode = ExprNode(name: nat, etype: ExprType, inputs: seq<Val>, outputs: seq<Val>)

  datatype Statement = ValStmt(v: Val) | ExprStmt(e: ExprNode)

  function DefInputs(d: Def): seq<Val> {
    match d
    case UnaryDef(_, x) => [x]
    case BinaryDef(_, l, r) => [l, r]
    case OtherDef(_, ins) => ins
  }

  predicate HasDefinition(v: Val) {
    v.Derived?
  }

  predicate IsScalar(v: Val) {
    match v
    case NonScalar(_) => false
    case Derived(_, scalar, _, _) => scalar
    case _ => true
  }

  function DataTypeOf(v: Val): DataType {
    match v
    case IntScalar(_, _) => IntType
    case DoubleScalar(_, _) => DoubleType
    case BoolScalar(_, _) => BoolType
    case NamedScalar(_, t) => t
    case NonScalar(_) => FloatTensorType
    case Derived(_, _, t, _) => t
  }

  /** `isConst()` of a single node: only a scalar leaf holding a value is constant by itself. */
  predicate HoldsConstant(v: Val) {
    match v
    case IntScalar(_, n) => n.Some?
    case DoubleScalar(_, c) => c
    case BoolScalar(_, b) => b.Some?
    case _ => false
  }

  /**
   * The constancy check: a value with a definition is constant when every
   * input of the definition is; a scalar leaf when it holds a value; a named
   * scalar never; any other leaf is not looked at and leaves the verdict true.
   */
  predicate ConstCheck(v: Val)
    decreases v
  {
    match v
    case Derived(_, _, _, UnaryDef(_, x)) => ConstCheck(x)
    case Derived(_, _, _, BinaryDef(_, l, r)) => ConstCheck(l) && ConstCheck(r)
    case Derived(_, _, _, OtherDef(_, ins)) => ConstCheckAll(ins)
    case NamedScalar(_, _) => false
    case NonScalar(_) => true
    case _ => HoldsConstant(v)
  }

  predicate ConstCheckAll(s: seq<Val>)
    decreases s
  {
    if s == [] then true else ConstCheck(s[0]) && ConstCheckAll(s[1..])
  }

  predicate IsConstScalar(v: Val) {
    IsScalar(v) && ConstCheck(v)
  }

  /** The definition-less values a value is built from (the value itself when it has no definition). */
  function Leaves(v: Val): set<Val>
    decreases v
  {
    match v
    case Derived(_, _, _, UnaryDef(_, x)) => Leaves(x)
    case Derived(_, _, _, BinaryDef(_, l, r)) => Leaves(l) + Leaves(r)
    case Derived(_, _, _, OtherDef(_, ins)) => LeavesAll(ins)
    case _ => {v}
  }

  function LeavesAll(s: seq<Val>): set<Val>
    decreases s
  {
    if s == [] then {} else Leaves(s[0]) + LeavesAll(s[1..])
  }

  /** A leaf does not spoil constancy when it holds a value or is not a scalar at all. */
  predicate LeafIsConstant(l: Val) {
    HoldsConstant(l) || l.NonScalar?
  }

  lemma {:induction false} ConstCheckAllIffLeaves(s: seq<Val>)
    ensures ConstCheckAll(s) <==> forall l :: l in LeavesAll(s) ==> LeafIsConstant(l)
    decreases s
  {
    if s != [] {
      ConstCheckIffLeaves(s[0]);
      ConstCheckAllIffLeaves(s[1..]);
    }
  }

  /** A value passes the constancy check exactly when every leaf it is built from holds a value or is a non-scalar. */
  lemma {:induction false} ConstCheckIffLeaves(v: Val)
    ensures ConstCheck(v) <==> forall l :: l in Leaves(v) ==> LeafIsConstant(l)
    decreases v
  {
    match v
    case Derived(_, _, _, UnaryDef(_, x)) =>
      ConstCheckIffLeaves(x);
    case Derived(_, _, _, BinaryDef(_, l, r)) =>
      ConstCheckIffLeaves(l);
      ConstCheckIffLeaves(r);
    case Derived(_, _, _, OtherDef(_, ins)) =>
      ConstCheckAllIffLeaves(ins);
    case _ =>
      assert Leaves(v) == {v};
      assert ConstCheck(v) == LeafIsConstant(v);
  }

  /** The recursive checks of a derived value read the inputs of its definition. */
  lemma DerivedViaInputs(v: Val)
    requires v.Derived?
    ensures Leaves(v) == LeavesAll(DefInputs(v.definition))
    ensures ConstCheck(v) == ConstCheckAll(DefInputs(v.definition))
  {
    var ins := DefInputs(v.definition);
    if v.definition.UnaryDef? {
      assert ins[1..] == [];
    } else if v.definition.BinaryDef? {
      var r := v.definition.rhs;
      assert ins[1..] == [r];
      assert [r][1..] == [];
      assert LeavesAll([r]) == Leaves(r);
      assert ConstCheckAll([r]) == ConstCheck(r);
    }
  }

  /** `getInt`: the value of a constant `Int` scalar; nothing for every other value, derived ones included. */
  function GetInt(v: Val): (r: Option<int>)
    ensures r.Some? ==> IsConstScalar(v) && DataTypeOf(v) == IntType
  {
    if IsConstScalar(v) && DataTypeOf(v) == IntType && v.IntScalar? then v.intValue else None
  }

  /** Only an `Int` leaf carrying a value has an integer; a derived value has none even if it is constant. */
  lemma GetIntOnlyOfLiterals(v: Val, n: int)
    ensures GetInt(v) == Some(n) <==> v.IntScalar? && v.intValue == Some(n)
  {
  }

  predicate IsZeroInt(v: Val) {
    GetInt(v) == Some(0)
  }

  predicate IsOneInt(v: Val) {
    GetInt(v) == Some(1)
  }

  /** `isProducerOf`: `other` is one of the inputs of this value's definition. */
  predicate IsProducerOf(v: Val, other: Val) {
    v.Derived? && other in DefInputs(v.definition)
  }

  predicate IsConsumerOf(v: Val, other: Val) {
    IsProducerOf(other, v)
  }

  /** A definition-less value is related to nothing, and the two relations are converses. */
  lemma ProducerConsumerConverse(a: Val, b: Val)
    ensures !HasDefinition(a) ==> !IsProducerOf(a, b)
    ensures IsConsumerOf(a, b) <==> IsProducerOf(b, a)
  {
  }

  lemma LeavesAllContains(s: seq<Val>, i: nat)
    requires i < |s|
    ensures Leaves(s[i]) <= LeavesAll(s)
    decreases s
  {
    if i > 0 {
      LeavesAllContains(s[1..], i - 1);
    }
  }

  lemma ConstCheckAllContains(s: seq<Val>, i: nat)
    requires i < |s|
    requires ConstCheckAll(s)
    ensures ConstCheck(s[i])
    decreases s
  {
    if i > 0 {
      ConstCheckAllContains(s[1..], i - 1);
    }
  }

  /**
   * A value related by `isProducerOf` to `other` is built from every leaf
   * `other` is built from, and it can only be constant if `other` is.
   */
  lemma ProducerLeavesIncluded(v: Val, other: Val)
    requires IsProducerOf(v, other)
    ensures Leaves(other) <= Leaves(v)
    ensures ConstCheck(v) ==> ConstCheck(other)
  {
    var ins := DefInputs(v.definition);
    var i :| 0 <= i < |ins| && ins[i] == other;
    DerivedViaInputs(v);
    LeavesAllContains(ins, i);
    if ConstCheck(v) {
      ConstCheckAllContains(ins, i);
    }
  }

  /**
   * `Expr::sameAs`: the same expression, or another expression of the same
   * kind with as many inputs and outputs whose inputs are pairwise the same
   * under the values' own comparison `valSame`. Outputs are only counted.
   */
  function SameAs(e: ExprNode, other: Statement, valSame: (Val, Val) -> bool): bool {
    if other == ExprStmt(e) then true
    else if !other.ExprStmt? then false
    else
      var o := other.e;
      if e.etype != o.etype then false
      else if |e.inputs| != |o.inputs| || |e.outputs| != |o.outputs| then false
      else forall i :: 0 <= i < |e.inputs| ==> valSame(e.inputs[i], o.inputs[i])
  }

  /** Under identity of values, two distinct expressions are the same exactly when kind, input list and output count agree. */
  lemma SameAsUnderIdentity(e: ExprNode, o: ExprNode)
    ensures SameAs(e, ExprStmt(o), (a: Val, b: Val) => a == b)
      <==> e == o || (e.etype == o.etype && e.inputs == o.inputs && |e.outputs| == |o.outputs|)
  {
    var same := (a: Val, b: Val) => a == b;
    if e != o && e.etype == o.etype && |e.inputs| == |o.inputs| && |e.outputs| == |o.outputs| {
      if SameAs(e, ExprStmt(o), same) {
        assert forall i :: 0 <= i < |e.inputs| ==> e.inputs[i] == o.inputs[i];
      }
    }
  }

  /** The comparison is symmetric whenever the value comparison is, and a value is never the same as an expression. */
  lemma SameAsSymmetric(e: ExprNode, o: ExprNode, valSame: (Val, Val) -> bool)
    requires forall a, b :: valSame(a, b) == valSame(b, a)
    ensures SameAs(e, ExprStmt(o), valSame) == SameAs(o, ExprStmt(e), valSame)
    ensures forall v :: !SameAs(e, ValStmt(v), valSame)
  {
  }

  /** Expressions that differ only in which values they output still compare the same. */
  lemma SameAsIgnoresOutputs(e: ExprNode, outs: seq<Val>, valSame: (Val, Val) -> bool)
    requires |outs| == |e.outputs|
    requires forall a :: valSame(a, a)
    ensures SameAs(e, ExprStmt(e.(outputs := outs, name := e.name + 1)), valSame)
  {
  }
}
