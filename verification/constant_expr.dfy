/**
 * `_contains_non_constant_expr`: the classifier that decides whether an
 * initialiser of a `final` declaration is built from literals only.
 */
module ConstantExpr {
  import opened Syntax

  predicate IsPrimitiveLiteral(e: Expr) {
    e.IntLit? || e.FloatLit? || e.BoolLit? || e.StringLit?
  }

  /**
   * Literals of the four primitive types are constant; array literals and
   * operator applications are constant when their parts are; everything
   * else, `nil`, parenthesised expressions and `this` included, is not.
   */
  predicate NonConstant(e: Expr)
    decreases e
  {
    if IsPrimitiveLiteral(e) then false
    else match e
      case ArrayLit(elems) => exists i :: 0 <= i < |elems| && NonConstant(elems[i])
      case Binary(_, l, r) => NonConstant(l) || NonConstant(r)
      case Unary(_, x) => NonConstant(x)
      case _ => true
  }

  /** The leaves of an expression once array literals and operators are seen through. */
  function Leaves(e: Expr): seq<Expr>
    decreases e, 1
  {
    match e
    case ArrayLit(elems) => LeavesOfAll(elems)
    case Binary(_, l, r) => Leaves(l) + Leaves(r)
    case Unary(_, x) => Leaves(x)
    case _ => [e]
  }

  function LeavesOfAll(es: seq<Expr>): seq<Expr>
    decreases es, 0
  {
    if |es| == 0 then [] else Leaves(es[0]) + LeavesOfAll(es[1..])
  }

  /** The classifier rejects an expression exactly when one of its leaves is not a primitive literal. */
  lemma {:induction false} NonConstantIffLeaf(e: Expr)
    ensures NonConstant(e) <==> exists x :: x in Leaves(e) && !IsPrimitiveLiteral(x)
    decreases e, 1
  {
    match e
    case ArrayLit(elems) =>
      NonConstantIffLeafAll(elems);
    case Binary(_, l, r) =>
      NonConstantIffLeaf(l);
      NonConstantIffLeaf(r);
    case Unary(_, x) =>
      NonConstantIffLeaf(x);
    case _ =>
  }

  lemma {:induction false} NonConstantIffLeafAll(es: seq<Expr>)
    ensures (exists i :: 0 <= i < |es| && NonConstant(es[i])) <==>
      exists x :: x in LeavesOfAll(es) && !IsPrimitiveLiteral(x)
    decreases es, 0
  {
    if |es| > 0 {
      NonConstantIffLeaf(es[0]);
      NonConstantIffLeafAll(es[1..]);
      if exists i :: 0 <= i < |es| && NonConstant(es[i]) {
        var i :| 0 <= i < |es| && NonConstant(es[i]);
        if i > 0 { assert es[1..][i - 1] == es[i]; }
      }
      if exists i :: 0 <= i < |es[1..]| && NonConstant(es[1..][i]) {
        var i :| 0 <= i < |es[1..]| && NonConstant(es[1..][i]);
        assert es[1..][i] == es[i + 1];
      }
    }
  }

  /** Array literals and operators over constants stay constant; `nil` and names never are. */
  lemma ConstantCases(op: BinOp, u: UnOp, l: Expr, r: Expr, name: string)
    ensures !NonConstant(l) && !NonConstant(r) ==> !NonConstant(Binary(op, l, r)) && !NonConstant(Unary(u, l))
    ensures !NonConstant(l) && !NonConstant(r) ==> !NonConstant(ArrayLit([l, r]))
    ensures !NonConstant(ArrayLit([]))
    ensures NonConstant(NilLit) && NonConstant(Ident(name)) && NonConstant(Paren(l)) && NonConstant(This)
  {
    assert !NonConstant(l) && !NonConstant(r) ==> forall i :: 0 <= i < 2 ==> !NonConstant([l, r][i]);
  }
}
