/**
 * Typing of binary and unary operators (`visitBinaryOp`, `visitUnaryOp`).
 * `None` stands for the `TypeMismatchInExpression` the visitor raises; the
 * caller attaches the operator node to it.
 */
module Operators {
  import opened Wrappers
  import opened Types
  import opened Syntax

  predicate IsArithmetic(op: BinOp) { op in {Add, Sub, Mul, Div, IntDiv, Mod} }
  predicate IsComparison(op: BinOp) { op in {Lt, Gt, Le, Ge} }
  predicate IsEquality(op: BinOp) { op in {Eq, Ne} }
  predicate IsLogical(op: BinOp) { op in {And, Or} }

  /**
   * The type of `left op right` given the operand types. `leftNil` and
   * `rightNil` say whether an operand node is literally `nil`: the nil rule
   * of `==` and `!=` looks at the nodes, not at their types.
   */
  function BinaryType(op: BinOp, lt: Type, rt: Type, leftNil: bool, rightNil: bool): Option<Type> {
    if lt == ErrorT || rt == ErrorT then Some(ErrorT)
    else if IsArithmetic(op) then
      if IsInt(lt) && IsInt(rt) then Some(Prim(IntK))
      else if IsNumeric(lt) && IsNumeric(rt) then Some(Prim(FloatK))
      else None
    else if IsComparison(op) then
      if IsNumeric(lt) && IsNumeric(rt) then Some(Prim(BoolK)) else None
    else if IsEquality(op) then
      if SameType(lt, rt) || (IsInt(lt) && IsFloat(rt)) || (IsFloat(lt) && IsInt(rt)) then Some(Prim(BoolK))
      else if (leftNil || rightNil) && (IsClass(lt) || IsArray(lt) || IsClass(rt) || IsArray(rt)) then Some(Prim(BoolK))
      else None
    else if IsLogical(op) then
      if IsBool(lt) && IsBool(rt) then Some(Prim(BoolK)) else None
    else
      // string concatenation `^`
      if IsString(lt) && IsString(rt) then Some(Prim(StringK)) else None
  }

  /** The type of `op operand`. */
  function UnaryType(op: UnOp, t: Type): Option<Type> {
    if t == ErrorT then Some(ErrorT)
    else if op == Plus || op == Minus then
      if IsNumeric(t) then Some(t) else None
    else
      if IsBool(t) then Some(Prim(BoolK)) else None
  }

  // ---------------------------------------------------------------------
  // Lemmas
  // ---------------------------------------------------------------------

  /** An erroneous operand makes the whole expression erroneous, without a new report. */
  lemma ErrorPropagates(op: BinOp, u: UnOp, t: Type, ln: bool, rn: bool)
    ensures BinaryType(op, ErrorT, t, ln, rn) == Some(ErrorT)
    ensures BinaryType(op, t, ErrorT, ln, rn) == Some(ErrorT)
    ensures UnaryType(u, ErrorT) == Some(ErrorT)
  {
  }

  /** A binary operator yields the error sentinel or one of the primitive types int, float, boolean, string. */
  lemma BinaryResultPrimitive(op: BinOp, lt: Type, rt: Type, ln: bool, rn: bool)
    requires BinaryType(op, lt, rt, ln, rn).Some?
    ensures var r := BinaryType(op, lt, rt, ln, rn).value;
      r == ErrorT || r in {Prim(IntK), Prim(FloatK), Prim(BoolK), Prim(StringK)}
    ensures BinaryType(op, lt, rt, ln, rn).value == ErrorT <==> lt == ErrorT || rt == ErrorT
  {
  }

  /**
   * Arithmetic: int with int gives int, any other pair of numbers gives
   * float (an int operand is widened), anything else is a mismatch.
   */
  lemma ArithmeticTyping(op: BinOp, lt: Type, rt: Type, ln: bool, rn: bool)
    requires IsArithmetic(op) && lt != ErrorT && rt != ErrorT
    ensures BinaryType(op, lt, rt, ln, rn) == Some(Prim(IntK)) <==> lt == Prim(IntK) && rt == Prim(IntK)
    ensures BinaryType(op, lt, rt, ln, rn) == Some(Prim(FloatK)) <==>
      (lt == Prim(FloatK) && IsNumeric(rt)) || (IsNumeric(lt) && rt == Prim(FloatK))
    ensures BinaryType(op, lt, rt, ln, rn).None? <==> !IsNumeric(lt) || !IsNumeric(rt)
  {
  }

  /** Comparisons take two numbers and give a boolean. */
  lemma ComparisonTyping(op: BinOp, lt: Type, rt: Type, ln: bool, rn: bool)
    requires IsComparison(op) && lt != ErrorT && rt != ErrorT
    ensures BinaryType(op, lt, rt, ln, rn) == (if IsNumeric(lt) && IsNumeric(rt) then Some(Prim(BoolK)) else None)
  {
  }

  /**
   * Equality accepts two operands of the same type, an int against a float,
   * and `nil` against an object or array; everything else is a mismatch.
   */
  lemma EqualityTyping(op: BinOp, lt: Type, rt: Type, ln: bool, rn: bool)
    requires IsEquality(op) && lt != ErrorT && rt != ErrorT
    ensures BinaryType(op, lt, rt, ln, rn).Some? <==>
      || (lt == rt && ErrorFree(lt))
      || (IsNumeric(lt) && IsNumeric(rt))
      || ((ln || rn) && (lt.ClassT? || lt.ArrayT? || rt.ClassT? || rt.ArrayT?))
    ensures BinaryType(op, lt, rt, ln, rn).Some? ==> BinaryType(op, lt, rt, ln, rn) == Some(Prim(BoolK))
  {
    SameTypeIsEquality(lt, rt);
  }

  /** Equality is symmetric in its operands. */
  lemma EqualitySymmetric(op: BinOp, lt: Type, rt: Type, ln: bool, rn: bool)
    requires IsEquality(op)
    ensures BinaryType(op, lt, rt, ln, rn) == BinaryType(op, rt, lt, rn, ln)
  {
    SameTypeIsEquality(lt, rt);
    SameTypeIsEquality(rt, lt);
  }

  /** Arithmetic and comparison do not depend on the order of the operand types. */
  lemma NumericSymmetric(op: BinOp, lt: Type, rt: Type, ln: bool, rn: bool)
    requires IsArithmetic(op) || IsComparison(op)
    ensures BinaryType(op, lt, rt, ln, rn) == BinaryType(op, rt, lt, rn, ln)
  {
  }

  /** `&&`, `||` need two booleans; `^` needs two strings. */
  lemma LogicalAndConcatTyping(lt: Type, rt: Type, ln: bool, rn: bool)
    requires lt != ErrorT && rt != ErrorT
    ensures BinaryType(And, lt, rt, ln, rn).Some? <==> lt == Prim(BoolK) && rt == Prim(BoolK)
    ensures BinaryType(Or, lt, rt, ln, rn) == BinaryType(And, lt, rt, ln, rn)
    ensures BinaryType(Concat, lt, rt, ln, rn).Some? <==> lt == Prim(StringK) && rt == Prim(StringK)
    ensures BinaryType(Concat, lt, rt, ln, rn).Some? ==> BinaryType(Concat, lt, rt, ln, rn) == Some(Prim(StringK))
  {
  }

  /** Unary `+`/`-` keep a numeric type; `!` maps boolean to boolean. */
  lemma UnaryTyping(op: UnOp, t: Type)
    requires t != ErrorT
    ensures op != Not ==> (UnaryType(op, t).Some? <==> IsNumeric(t))
    ensures op != Not && UnaryType(op, t).Some? ==> UnaryType(op, t) == Some(t)
    ensures op == Not ==> UnaryType(op, t) == (if t == Prim(BoolK) then Some(Prim(BoolK)) else None)
  {
  }
}
