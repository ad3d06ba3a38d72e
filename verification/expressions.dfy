/**
 * Typing of expressions. Every expression visitor of the checker reads the
 * scopes, the class table and the current class, never changes them, and
 * either returns a type after emitting zero or more diagnostics or raises
 * one. `TypeOf` gives exactly that: `Done(type, emitted)` or
 * `Raised(emitted, raised)`.
 */
module Expressions {
  import opened Wrappers
  import opened Types
  import opened Syntax
  import opened Diagnostics
  import opened ClassTable
  import opened Operators

  /** A scope entry: the declared type and whether the name is final. */
  datatype Symbol = Symbol(ty: Type, isFinal: bool)

  type Scope = map<string, Symbol>

  /** What the expression visitors read of the checker's state. */
  datatype Env = Env(table: Table, scopes: seq<Scope>, currentClass: Option<string>)

  /** A value computed after the diagnostics in `log` were emitted, or a raised diagnostic. */
  datatype Eval<T> = Done(value: T, log: seq<Diag>) | Raised(log: seq<Diag>, diag: Diag)

  /** `r` preceded by the diagnostics `log` emitted before it. */
  function After<T>(log: seq<Diag>, r: Eval<T>): (q: Eval<T>)
    ensures q.log == log + r.log
    ensures q.Done? <==> r.Done?
  {
    match r
    case Done(v, l) => Done(v, log + l)
    case Raised(l, d) => Raised(log + l, d)
  }

  // ---------------------------------------------------------------------
  // Scopes and identifiers
  // ---------------------------------------------------------------------

  /** `lookup`: the scopes searched from the innermost outwards. */
  function LookupIn(scopes: seq<Scope>, x: string): Option<Symbol>
    decreases |scopes|
  {
    if |scopes| == 0 then None
    else if x in scopes[|scopes| - 1] then Some(scopes[|scopes| - 1][x])
    else LookupIn(scopes[..|scopes| - 1], x)
  }

  /** Whether `x` is an attribute declared by the current class itself. */
  predicate OwnAttr(env: Env, x: string) {
    env.currentClass.Some? && env.currentClass.value in env.table && x in env.table[env.currentClass.value].attrs
  }

  /**
   * `visitIdentifier`: a local or parameter, else an attribute the current
   * class declares itself (inherited attributes are not consulted), else a
   * class name; otherwise `UndeclaredIdentifier` is raised.
   */
  function IdentType(env: Env, x: string): Eval<Type> {
    match LookupIn(env.scopes, x)
    case Some(s) => Done(s.ty, [])
    case None =>
      if OwnAttr(env, x) then Done(env.table[env.currentClass.value].attrs[x].ty, [])
      else if x in env.table then Done(ClassT(x), [])
      else Raised([], UndeclaredIdentifier(x))
  }

  // ---------------------------------------------------------------------
  // Array literals
  // ---------------------------------------------------------------------

  /**
   * The element-type loop of `visitArrayLiteral`: each further element must
   * have the running type; `nil` may join objects and arrays, and a running
   * `nil` gives way to the first object or array type.
   */
  function UnifyFrom(base: Type, ts: seq<Type>): Option<Type>
    decreases |ts|
  {
    if |ts| == 0 then Some(base)
    else if SameType(base, ts[0]) then UnifyFrom(base, ts[1..])
    else if ts[0] == NilT && (IsClass(base) || IsArray(base)) then UnifyFrom(base, ts[1..])
    else if base == NilT && (IsClass(ts[0]) || IsArray(ts[0])) then UnifyFrom(ts[0], ts[1..])
    else None
  }

  /** An element of type `t` may sit in an array whose element type is `r`. */
  predicate Fits(r: Type, t: Type) {
    SameType(r, t) || (t == NilT && (IsClass(r) || IsArray(r)))
  }

  /** `r` is a common element type of all of `ts`. */
  predicate CommonType(r: Type, ts: seq<Type>) {
    forall i :: 0 <= i < |ts| ==> Fits(r, ts[i])
  }

  method UnifyElements(ts: seq<Type>) returns (r: Option<Type>)
    requires |ts| > 0
    ensures r == UnifyFrom(ts[0], ts[1..])
  {
    var base := ts[0];
    var i := 1;
    while i < |ts|
      invariant 1 <= i <= |ts|
      invariant UnifyFrom(base, ts[i..]) == UnifyFrom(ts[0], ts[1..])
    {
      var t := ts[i];
      assert ts[i..][0] == t && ts[i..][1..] == ts[i + 1..];
      if !SameType(base, t) {
        if t == NilT && (IsClass(base) || IsArray(base)) {
        } else if base == NilT && (IsClass(t) || IsArray(t)) {
          base := t;
        } else {
          return None;
        }
      }
      i := i + 1;
    }
    assert ts[i..] == [];
    return Some(base);
  }

  // ---------------------------------------------------------------------
  // Typing
  // ---------------------------------------------------------------------

  function ParamTypes(ps: seq<Param>): (ts: seq<Type>)
    ensures |ts| == |ps|
    ensures forall i :: 0 <= i < |ps| ==> ts[i] == ps[i].ty
  {
    seq(|ps|, i requires 0 <= i < |ps| => ps[i].ty)
  }

  /** Every argument type fits the parameter type at the same position. */
  predicate AllCompatible(table: Table, ps: seq<Type>, ts: seq<Type>)
    requires |ps| == |ts|
  {
    forall i :: 0 <= i < |ps| ==> Compatible(table, ps[i], ts[i])
  }

  /** A call's result: its type once the arguments passed, the error sentinel otherwise. */
  function CallResult(ret: Type, r: Eval<bool>): Eval<Type> {
    match r
    case Raised(l, d) => Raised(l, d)
    case Done(ok, l) => Done(if ok then ret else ErrorT, l)
  }

  /** The type each visitor gives `e`, with what it emits or raises on the way. */
  function TypeOf(env: Env, e: Expr): Eval<Type>
    decreases e
  {
    match e
    case IntLit(_) => Done(Prim(IntK), [])
    case FloatLit => Done(Prim(FloatK), [])
    case BoolLit(_) => Done(Prim(BoolK), [])
    case StringLit(_) => Done(Prim(StringK), [])
    case NilLit => Done(NilT, [])
    case Ident(x) => IdentType(env, x)
    case This =>
      if env.currentClass.None? then Done(ErrorT, [UndeclaredIdentifier("this")])
      else Done(ClassT(env.currentClass.value), [])
    case Paren(x) => TypeOf(env, x)
    case ArrayLit(es) =>
      if |es| == 0 then Done(EmptyArrayT, [])
      else (match TypeOfList(env, es)
        case Raised(l, d) => Raised(l, d)
        case Done(ts, l) =>
          if ErrorT in ts then Done(ErrorT, l)
          else (match UnifyFrom(ts[0], ts[1..])
            case None => Done(ErrorT, l + [IllegalArrayLiteral(e)])
            case Some(b) => Done(ArrayT(b, |es|), l)))
    case Binary(op, x, y) =>
      (match TypeOf(env, x)
      case Raised(l, d) => Raised(l, d)
      case Done(lt, l1) =>
        (match TypeOf(env, y)
        case Raised(l2, d) => Raised(l1 + l2, d)
        case Done(rt, l2) =>
          (match BinaryType(op, lt, rt, x.NilLit?, y.NilLit?)
          case None => Raised(l1 + l2, TypeMismatchInExpression(e))
          case Some(t) => Done(t, l1 + l2))))
    case Unary(op, x) =>
      (match TypeOf(env, x)
      case Raised(l, d) => Raised(l, d)
      case Done(t, l) =>
        (match UnaryType(op, t)
        case None => Raised(l, TypeMismatchInExpression(e))
        case Some(u) => Done(u, l)))
    case New(c, args) =>
      if c !in env.table then Done(ErrorT, [UndeclaredClass(c)])
      else (match FindMethod(env.table, c, c)
        case Some(m) =>
          if |m.params| != |args| then Done(ErrorT, [TypeMismatchInExpression(e)])
          else CallResult(ClassT(c), ArgsAgainst(env, e, args, ParamTypes(m.params)))
        case None =>
          if |args| > 0 then Done(ErrorT, [TypeMismatchInExpression(e)]) else Done(ClassT(c), []))
    case Postfix(p, ops) =>
      (match TypeOf(env, p)
      case Raised(l, d) => Raised(l, d)
      case Done(t, l) => if t == ErrorT then Done(ErrorT, l) else After(l, PostfixFrom(env, e, t, ops)))
    case MemberAccess(obj, m) =>
      if obj.Ident? && obj.name in env.table then
        // `ClassName.member`: the class's own members only. The guard meant
        // to reject an instance attribute here can never hold, so any
        // attribute is accepted with its type.
        var ci := env.table[obj.name];
        if m in ci.attrs then Done(ci.attrs[m].ty, [])
        else if m in ci.methods then
          if !ci.methods[m].isStatic then Done(ErrorT, [IllegalMemberAccess(e)])
          else Done(ci.methods[m].ret, [])
        else Done(ErrorT, [UndeclaredAttribute(m)])
      else
        (match TypeOf(env, obj)
        case Raised(l, d) => Raised(l, d)
        case Done(t, l) =>
          if t == ErrorT then Done(ErrorT, l)
          else if !t.ClassT? then Done(ErrorT, l + [TypeMismatchInExpression(e)])
          else (match FindAttr(env.table, t.name, m)
            case None => Done(ErrorT, l + [UndeclaredAttribute(m)])
            case Some(a) =>
              if a.isStatic then Done(ErrorT, l + [IllegalMemberAccess(e)]) else Done(a.ty, l)))
    case MethodCall(obj, f, args) =>
      // The parameter types are read from attributes that parameters do not
      // have, so every argument is checked against an absent type.
      var absent := seq(|args|, _ => NoType);
      if obj.Ident? && obj.name in env.table then
        (match FindMethod(env.table, obj.name, f)
        case None => Done(ErrorT, [UndeclaredMethod(f)])
        case Some(m) =>
          if !m.isStatic then Done(ErrorT, [IllegalMemberAccess(e)])
          else if |m.params| != |args| then Done(ErrorT, [TypeMismatchInExpression(e)])
          else CallResult(m.ret, ArgsAgainst(env, e, args, absent)))
      else
        (match TypeOf(env, obj)
        case Raised(l, d) => Raised(l, d)
        case Done(t, l) =>
          if t == ErrorT then Done(ErrorT, l)
          else if !t.ClassT? then Done(ErrorT, l + [TypeMismatchInExpression(e)])
          else (match FindMethod(env.table, t.name, f)
            case None => Done(ErrorT, l + [UndeclaredMethod(f)])
            case Some(m) =>
              if m.isStatic then Done(ErrorT, l + [IllegalMemberAccess(e)])
              else if |m.params| != |args| then Done(ErrorT, l + [TypeMismatchInExpression(e)])
              else After(l, CallResult(m.ret, ArgsAgainst(env, e, args, absent)))))
    case ArrayAccess(a, i) =>
      (match TypeOf(env, a)
      case Raised(l, d) => Raised(l, d)
      case Done(at, l1) =>
        (match TypeOf(env, i)
        case Raised(l2, d) => Raised(l1 + l2, d)
        case Done(it, l2) =>
          if at == ErrorT then Done(ErrorT, l1 + l2)
          else if !at.ArrayT? || !IsInt(it) then Done(ErrorT, l1 + l2 + [TypeMismatchInExpression(e)])
          // the element type is read from an attribute array types do not have
          else Done(ErrorT, l1 + l2)))
  }

  /** The expressions typed left to right; the first raise stops the rest. */
  function TypeOfList(env: Env, es: seq<Expr>): (r: Eval<seq<Type>>)
    ensures r.Done? ==> |r.value| == |es|
    decreases es
  {
    if |es| == 0 then Done([], [])
    else match TypeOf(env, es[0])
      case Raised(l, d) => Raised(l, d)
      case Done(t, l) =>
        (match TypeOfList(env, es[1..])
        case Raised(l2, d) => Raised(l + l2, d)
        case Done(ts, l2) => Done([t] + ts, l + l2))
  }

  /**
   * Arguments typed one at a time against the parameter types; the first
   * that does not fit emits a mismatch on `node` and ends the check.
   */
  function ArgsAgainst(env: Env, node: Expr, args: seq<Expr>, ps: seq<Type>): Eval<bool>
    requires |args| == |ps|
    decreases args
  {
    if |args| == 0 then Done(true, [])
    else match TypeOf(env, args[0])
      case Raised(l, d) => Raised(l, d)
      case Done(t, l) =>
        if !Compatible(env.table, ps[0], t) then Done(false, l + [TypeMismatchInExpression(node)])
        else After(l, ArgsAgainst(env, node, args[1..], ps[1..]))
  }

  /**
   * One postfix operation applied to a value of type `cur`: `Some` with the
   * new type, or `None` when the chain stops with the error sentinel.
   */
  function PostfixStep(env: Env, node: Expr, cur: Type, op: PostfixOp): Eval<Option<Type>>
    decreases op
  {
    match op
    case MemberOp(m) =>
      if !cur.ClassT? then Done(None, [TypeMismatchInExpression(node)])
      else (match FindAttr(env.table, cur.name, m)
        case None => Done(None, [UndeclaredAttribute(m)])
        case Some(a) =>
          if a.isStatic then Done(None, [IllegalMemberAccess(node)]) else Done(Some(a.ty), []))
    case IndexOp(i) =>
      (match TypeOf(env, i)
      case Raised(l, d) => Raised(l, d)
      case Done(it, l) =>
        if !cur.ArrayT? || !IsInt(it) then Done(None, l + [TypeMismatchInExpression(node)])
        else Done(Some(cur.elem), l))
    case CallOp(f, args) =>
      (match TypeOfList(env, args)
      case Raised(l, d) => Raised(l, d)
      case Done(ts, l) =>
        if !cur.ClassT? then Done(None, l + [TypeMismatchInExpression(node)])
        else (match FindMethod(env.table, cur.name, f)
          case None => Done(None, l + [UndeclaredMethod(f)])
          case Some(m) =>
            if m.isStatic then Done(None, l + [IllegalMemberAccess(node)])
            else if |m.params| != |ts| then Done(None, l + [TypeMismatchInExpression(node)])
            else if !AllCompatible(env.table, ParamTypes(m.params), ts) then Done(None, l + [TypeMismatchInExpression(node)])
            else Done(Some(m.ret), l)))
  }

  /** `visitPostfixExpression` from a primary of type `cur`: the operations in order. */
  function PostfixFrom(env: Env, node: Expr, cur: Type, ops: seq<PostfixOp>): Eval<Type>
    decreases ops
  {
    if |ops| == 0 then Done(cur, [])
    else match PostfixStep(env, node, cur, ops[0])
      case Raised(l, d) => Raised(l, d)
      case Done(None, l) => Done(ErrorT, l)
      case Done(Some(t), l) => After(l, PostfixFrom(env, node, t, ops[1..]))
  }

  // ---------------------------------------------------------------------
  // Lemmas: scopes and identifiers
  // ---------------------------------------------------------------------

  /** Lookup finds the declaration in the innermost scope that has the name, and fails only when none has. */
  lemma {:induction false} LookupInnermost(scopes: seq<Scope>, x: string)
    ensures LookupIn(scopes, x).None? <==> forall i :: 0 <= i < |scopes| ==> x !in scopes[i]
    ensures LookupIn(scopes, x).Some? ==>
      exists i :: 0 <= i < |scopes| && x in scopes[i] && LookupIn(scopes, x).value == scopes[i][x] &&
        forall j :: i < j < |scopes| ==> x !in scopes[j]
    decreases |scopes|
  {
    if |scopes| > 0 {
      var n := |scopes| - 1;
      var init := scopes[..n];
      LookupInnermost(init, x);
      assert forall i :: 0 <= i < n ==> init[i] == scopes[i];
      if x !in scopes[n] && LookupIn(init, x).Some? {
        var i :| 0 <= i < |init| && x in init[i] && LookupIn(init, x).value == init[i][x] &&
          forall j :: i < j < |init| ==> x !in init[j];
        assert forall j :: i < j < |scopes| ==> x !in scopes[j];
      }
    }
  }

  /**
   * An identifier is undeclared exactly when no scope, no attribute of the
   * current class itself and no class has the name. Otherwise it has the
   * type of the innermost scope's binding, of any scope outward; failing
   * that, of the current class's own attribute; failing that, it names the
   * class. Nothing is emitted either way.
   */
  lemma IdentifierResolution(env: Env, x: string)
    ensures TypeOf(env, Ident(x)).Raised? <==>
      (forall i :: 0 <= i < |env.scopes| ==> x !in env.scopes[i]) && !OwnAttr(env, x) && x !in env.table
    ensures TypeOf(env, Ident(x)).Raised? ==> TypeOf(env, Ident(x)) == Raised([], UndeclaredIdentifier(x))
    ensures TypeOf(env, Ident(x)).Done? ==> TypeOf(env, Ident(x)).log == []
    ensures forall i :: 0 <= i < |env.scopes| && x in env.scopes[i] && (forall j :: i < j < |env.scopes| ==> x !in env.scopes[j]) ==>
      TypeOf(env, Ident(x)) == Done(env.scopes[i][x].ty, [])
    ensures (forall i :: 0 <= i < |env.scopes| ==> x !in env.scopes[i]) && OwnAttr(env, x) ==>
      TypeOf(env, Ident(x)) == Done(env.table[env.currentClass.value].attrs[x].ty, [])
    ensures (forall i :: 0 <= i < |env.scopes| ==> x !in env.scopes[i]) && !OwnAttr(env, x) && x in env.table ==>
      TypeOf(env, Ident(x)) == Done(ClassT(x), [])
  {
    LookupInnermost(env.scopes, x);
  }

  // ---------------------------------------------------------------------
  // Lemmas: array literals
  // ---------------------------------------------------------------------

  /** The element type the loop settles on is a common type of all elements. */
  lemma {:induction false} UnifySound(b: Type, ts: seq<Type>)
    requires ErrorFree(b) && forall i :: 0 <= i < |ts| ==> ErrorFree(ts[i])
    requires UnifyFrom(b, ts).Some?
    ensures Fits(UnifyFrom(b, ts).value, b) && CommonType(UnifyFrom(b, ts).value, ts)
    ensures ErrorFree(UnifyFrom(b, ts).value)
    decreases |ts|
  {
    if |ts| > 0 {
      var r := UnifyFrom(b, ts).value;
      var t := ts[0];
      SameTypeIsEquality(b, t);
      if SameType(b, t) || (t == NilT && (IsClass(b) || IsArray(b))) {
        UnifySound(b, ts[1..]);
        SameTypeIsEquality(r, b);
      } else {
        UnifySound(t, ts[1..]);
        SameTypeIsEquality(r, t);
      }
      SameTypeIsEquality(r, t);
      assert forall i :: 1 <= i < |ts| ==> ts[i] == ts[1..][i - 1];
    } else {
      SameTypeIsEquality(b, b);
    }
  }

  /** Whenever the elements have a common type, the loop accepts them. */
  lemma {:induction false} UnifyComplete(b: Type, ts: seq<Type>, r: Type)
    requires Fits(r, b) && CommonType(r, ts)
    ensures UnifyFrom(b, ts).Some?
    decreases |ts|
  {
    if |ts| > 0 {
      var t := ts[0];
      assert Fits(r, t);
      assert CommonType(r, ts[1..]) by {
        assert forall i :: 0 <= i < |ts[1..]| ==> ts[1..][i] == ts[i + 1];
      }
      SameTypeIsEquality(r, b);
      SameTypeIsEquality(r, t);
      SameTypeIsEquality(b, t);
      SameTypeIsEquality(NilT, NilT);
      if SameType(b, t) || (t == NilT && (IsClass(b) || IsArray(b))) {
        UnifyComplete(b, ts[1..], r);
      } else {
        assert b == NilT && t == r;
        UnifyComplete(t, ts[1..], r);
      }
    }
  }

  /** A running `nil` stays `nil` over elements that are all `nil`. */
  lemma {:induction false} UnifyNil(ts: seq<Type>)
    requires forall i :: 0 <= i < |ts| ==> ts[i] == NilT
    ensures UnifyFrom(NilT, ts) == Some(NilT)
    decreases |ts|
  {
    if |ts| > 0 {
      UnifyNil(ts[1..]);
    }
  }

  /**
   * A non-empty array literal whose elements are typed without error is an
   * array of its length over a common element type of the elements, and is
   * an `IllegalArrayLiteral` exactly when they have no common type.
   */
  lemma ArrayLiteralTyping(env: Env, es: seq<Expr>, ts: seq<Type>, l: seq<Diag>)
    requires |es| > 0
    requires TypeOfList(env, es) == Done(ts, l)
    requires forall i :: 0 <= i < |ts| ==> ErrorFree(ts[i])
    ensures TypeOf(env, ArrayLit(es)).Done?
    ensures TypeOf(env, ArrayLit(es)).value.ArrayT? ==>
      TypeOf(env, ArrayLit(es)).value.size == |es| && CommonType(TypeOf(env, ArrayLit(es)).value.elem, ts) &&
      TypeOf(env, ArrayLit(es)).log == l
    ensures TypeOf(env, ArrayLit(es)).value == ErrorT <==> !exists r :: CommonType(r, ts)
    ensures TypeOf(env, ArrayLit(es)).value == ErrorT ==>
      TypeOf(env, ArrayLit(es)).log == l + [IllegalArrayLiteral(ArrayLit(es))]
    ensures forall r :: CommonType(r, ts) && (exists i :: 0 <= i < |ts| && ts[i] != NilT) ==>
      TypeOf(env, ArrayLit(es)) == Done(ArrayT(r, |es|), l)
    ensures (forall i :: 0 <= i < |ts| ==> ts[i] == NilT) ==> TypeOf(env, ArrayLit(es)) == Done(ArrayT(NilT, |es|), l)
  {
    assert ErrorT !in ts;
    assert forall i :: 0 <= i < |ts[1..]| ==> ts[1..][i] == ts[i + 1];
    match UnifyFrom(ts[0], ts[1..])
    case Some(b) =>
      UnifySound(ts[0], ts[1..]);
      assert CommonType(b, ts) by {
        forall i | 0 <= i < |ts| ensures Fits(b, ts[i]) {
          if i > 0 { assert ts[i] == ts[1..][i - 1]; }
        }
      }
      forall r | CommonType(r, ts) && (exists i :: 0 <= i < |ts| && ts[i] != NilT) ensures r == b {
        var i :| 0 <= i < |ts| && ts[i] != NilT;
        assert Fits(r, ts[i]) && Fits(b, ts[i]);
        SameTypeIsEquality(r, ts[i]);
        SameTypeIsEquality(b, ts[i]);
      }
      if forall i :: 0 <= i < |ts| ==> ts[i] == NilT {
        UnifyNil(ts[1..]);
      }
    case None =>
      if exists r :: CommonType(r, ts) {
        var r :| CommonType(r, ts);
        assert Fits(r, ts[0]);
        UnifyComplete(ts[0], ts[1..], r);
      }
  }

  // ---------------------------------------------------------------------
  // Lemmas: postfix chains
  // ---------------------------------------------------------------------

  /**
   * `.m` never raises. On a value that is not an object it stops with a
   * mismatch; on an object it looks for the nearest class on the parent
   * chain that declares `m`: none stops with `UndeclaredAttribute`, a
   * static one with `IllegalMemberAccess`, and an instance attribute
   * continues with its type, emitting nothing.
   */
  lemma PostfixMemberRule(env: Env, node: Expr, cur: Type, m: string)
    ensures PostfixStep(env, node, cur, MemberOp(m)).Done?
    ensures !cur.ClassT? ==> PostfixStep(env, node, cur, MemberOp(m)) == Done(None, [TypeMismatchInExpression(node)])
    ensures cur.ClassT? ==>
      var ch := Chain(env.table, cur.name, Bound(env.table));
      && ((forall i :: 0 <= i < |ch| ==> !DeclaresAttr(env.table, ch[i], m)) ==>
        PostfixStep(env, node, cur, MemberOp(m)) == Done(None, [UndeclaredAttribute(m)]))
      && (forall i :: NearestAttr(env.table, ch, m, i) && env.table[ch[i]].attrs[m].isStatic ==>
        PostfixStep(env, node, cur, MemberOp(m)) == Done(None, [IllegalMemberAccess(node)]))
      && (forall i :: NearestAttr(env.table, ch, m, i) && !env.table[ch[i]].attrs[m].isStatic ==>
        PostfixStep(env, node, cur, MemberOp(m)) == Done(Some(env.table[ch[i]].attrs[m].ty), []))
  {
    if cur.ClassT? {
      FindAttrIff(env.table, cur.name, m);
    }
  }

  /**
   * `[i]` types the index first, and a raise there is the step's raise.
   * Then it continues with the element type when the value is an array and
   * the index an int, and otherwise stops with a mismatch.
   */
  lemma PostfixIndexRule(env: Env, node: Expr, cur: Type, i: Expr)
    ensures TypeOf(env, i).Raised? ==>
      PostfixStep(env, node, cur, IndexOp(i)) == Raised(TypeOf(env, i).log, TypeOf(env, i).diag)
    ensures TypeOf(env, i).Done? && cur.ArrayT? && TypeOf(env, i).value == Prim(IntK) ==>
      PostfixStep(env, node, cur, IndexOp(i)) == Done(Some(cur.elem), TypeOf(env, i).log)
    ensures TypeOf(env, i).Done? && !(cur.ArrayT? && TypeOf(env, i).value == Prim(IntK)) ==>
      PostfixStep(env, node, cur, IndexOp(i)) == Done(None, TypeOf(env, i).log + [TypeMismatchInExpression(node)])
  {
  }

  /** The argument types fit the parameters one by one, and there are as many. */
  predicate ArgsFit(table: Table, ps: seq<Param>, ts: seq<Type>) {
    |ps| == |ts| && forall k :: 0 <= k < |ts| ==> Compatible(table, ps[k].ty, ts[k])
  }

  /**
   * `.f(args)`, once the arguments are typed: on a value that is not an
   * object it stops with a mismatch; on an object it takes the nearest
   * class on the parent chain that declares `f`. None stops with
   * `UndeclaredMethod`, a static method with `IllegalMemberAccess`, an
   * instance method whose parameters do not take the arguments with a
   * mismatch; otherwise the chain continues with its return type.
   */
  lemma PostfixCallRule(env: Env, node: Expr, cur: Type, f: string, args: seq<Expr>, ts: seq<Type>, l: seq<Diag>)
    requires TypeOfList(env, args) == Done(ts, l)
    ensures PostfixStep(env, node, cur, CallOp(f, args)).Done?
    ensures !cur.ClassT? ==> PostfixStep(env, node, cur, CallOp(f, args)) == Done(None, l + [TypeMismatchInExpression(node)])
    ensures cur.ClassT? ==>
      var ch := Chain(env.table, cur.name, Bound(env.table));
      && ((forall i :: 0 <= i < |ch| ==> !DeclaresMethod(env.table, ch[i], f)) ==>
        PostfixStep(env, node, cur, CallOp(f, args)) == Done(None, l + [UndeclaredMethod(f)]))
      && (forall i :: NearestMethod(env.table, ch, f, i) && env.table[ch[i]].methods[f].isStatic ==>
        PostfixStep(env, node, cur, CallOp(f, args)) == Done(None, l + [IllegalMemberAccess(node)]))
      && (forall i ::
        NearestMethod(env.table, ch, f, i) && !env.table[ch[i]].methods[f].isStatic && !ArgsFit(env.table, env.table[ch[i]].methods[f].params, ts) ==>
        PostfixStep(env, node, cur, CallOp(f, args)) == Done(None, l + [TypeMismatchInExpression(node)]))
      && (forall i ::
        NearestMethod(env.table, ch, f, i) && !env.table[ch[i]].methods[f].isStatic && ArgsFit(env.table, env.table[ch[i]].methods[f].params, ts) ==>
        PostfixStep(env, node, cur, CallOp(f, args)) == Done(Some(env.table[ch[i]].methods[f].ret), l))
  {
    if cur.ClassT? {
      FindMethodIff(env.table, cur.name, f);
    }
  }

  // ---------------------------------------------------------------------
  // Lemmas: object creation and the legacy visitors
  // ---------------------------------------------------------------------

  /**
   * The arguments pass exactly when each is typed without a raise and fits
   * its parameter; they then emit what typing them emits.
   */
  lemma {:induction false} ArgsAgainstAccepts(env: Env, node: Expr, args: seq<Expr>, ps: seq<Type>)
    requires |args| == |ps|
    ensures (ArgsAgainst(env, node, args, ps).Done? && ArgsAgainst(env, node, args, ps).value) <==>
      (TypeOfList(env, args).Done? && AllCompatible(env.table, ps, TypeOfList(env, args).value))
    ensures TypeOfList(env, args).Done? && AllCompatible(env.table, ps, TypeOfList(env, args).value) ==>
      ArgsAgainst(env, node, args, ps) == Done(true, TypeOfList(env, args).log)
    decreases args
  {
    if |args| > 0 {
      var rest := args[1..];
      ArgsAgainstAccepts(env, node, rest, ps[1..]);
      if TypeOf(env, args[0]).Done? && TypeOfList(env, rest).Done? {
        var t := TypeOf(env, args[0]).value;
        var ts := TypeOfList(env, rest).value;
        assert TypeOfList(env, args).value == [t] + ts;
        assert forall k :: 1 <= k < |ps| ==> ([t] + ts)[k] == ts[k - 1] && ps[k] == ps[1..][k - 1];
      }
    }
  }

  /** Argument `k` is the first whose type does not fit its parameter. */
  predicate FirstMisfit(table: Table, ps: seq<Type>, ts: seq<Type>, k: int) {
    0 <= k < |ps| && k < |ts| && !Compatible(table, ps[k], ts[k]) &&
    forall j :: 0 <= j < k ==> Compatible(table, ps[j], ts[j])
  }

  /** Argument `k` and those before it are typed without a raise, and `k` is the first that does not fit. */
  predicate MisfitAt(env: Env, args: seq<Expr>, ps: seq<Type>, k: int) {
    0 <= k < |args| && TypeOfList(env, args[..k + 1]).Done? &&
    FirstMisfit(env.table, ps, TypeOfList(env, args[..k + 1]).value, k)
  }

  /**
   * At the first argument that does not fit, the check stops: it emits
   * what typing the arguments up to that one emits, then one mismatch, and
   * types no further argument.
   */
  lemma {:induction false} ArgsAgainstFirstMisfit(env: Env, node: Expr, args: seq<Expr>, ps: seq<Type>, k: nat)
    requires |args| == |ps|
    requires MisfitAt(env, args, ps, k)
    ensures ArgsAgainst(env, node, args, ps) ==
      Done(false, TypeOfList(env, args[..k + 1]).log + [TypeMismatchInExpression(node)])
    decreases k
  {
    var pre := args[..k + 1];
    assert pre[0] == args[0];
    var t := TypeOf(env, args[0]).value;
    var l := TypeOf(env, args[0]).log;
    if k == 0 {
      assert pre[1..] == [];
    } else {
      var rest := args[1..];
      assert pre[1..] == rest[..k];
      var ts := TypeOfList(env, rest[..k]).value;
      assert TypeOfList(env, pre).value == [t] + ts;
      assert Compatible(env.table, ps[0], t);
      assert MisfitAt(env, rest, ps[1..], k - 1) by {
        assert forall j :: 0 <= j < k ==> ([t] + ts)[j + 1] == ts[j] && ps[1..][j] == ps[j + 1];
      }
      ArgsAgainstFirstMisfit(env, node, rest, ps[1..], k - 1);
      var l2 := TypeOfList(env, rest[..k]).log;
      assert l + (l2 + [TypeMismatchInExpression(node)]) == (l + l2) + [TypeMismatchInExpression(node)];
    }
  }

  /**
   * `new C(args)`: an unknown class is reported; without a constructor only
   * an empty argument list is accepted; with one, the number of arguments
   * must match before any argument is typed, and then the object is created
   * exactly when every argument fits its parameter, the first that does not
   * being reported as a mismatch.
   */
  lemma ObjectCreationRule(env: Env, c: string, args: seq<Expr>)
    ensures c !in env.table ==> TypeOf(env, New(c, args)) == Done(ErrorT, [UndeclaredClass(c)])
    ensures c in env.table && FindMethod(env.table, c, c).None? ==>
      TypeOf(env, New(c, args)).Done? &&
      (TypeOf(env, New(c, args)).value == ClassT(c) <==> |args| == 0)
    ensures (c in env.table && FindMethod(env.table, c, c).Some? &&
      |FindMethod(env.table, c, c).value.params| != |args|) ==>
      TypeOf(env, New(c, args)) == Done(ErrorT, [TypeMismatchInExpression(New(c, args))])
    ensures TypeOf(env, New(c, args)).Done? ==>
      TypeOf(env, New(c, args)).value in {ClassT(c), ErrorT}
    ensures (c in env.table && FindMethod(env.table, c, c).Some? &&
      |FindMethod(env.table, c, c).value.params| == |args|) ==>
      var ps := ParamTypes(FindMethod(env.table, c, c).value.params);
      && ((TypeOf(env, New(c, args)).Done? && TypeOf(env, New(c, args)).value == ClassT(c)) <==>
        (TypeOfList(env, args).Done? && AllCompatible(env.table, ps, TypeOfList(env, args).value)))
      && (TypeOfList(env, args).Done? && AllCompatible(env.table, ps, TypeOfList(env, args).value) ==>
        TypeOf(env, New(c, args)) == Done(ClassT(c), TypeOfList(env, args).log))
      && (forall k :: MisfitAt(env, args, ps, k) ==>
        TypeOf(env, New(c, args)) ==
          Done(ErrorT, TypeOfList(env, args[..k + 1]).log + [TypeMismatchInExpression(New(c, args))]))
  {
    if c in env.table && FindMethod(env.table, c, c).Some? && |FindMethod(env.table, c, c).value.params| == |args| {
      var ps := ParamTypes(FindMethod(env.table, c, c).value.params);
      ArgsAgainstAccepts(env, New(c, args), args, ps);
      forall k | MisfitAt(env, args, ps, k)
        ensures TypeOf(env, New(c, args)) ==
          Done(ErrorT, TypeOfList(env, args[..k + 1]).log + [TypeMismatchInExpression(New(c, args))])
      {
        ArgsAgainstFirstMisfit(env, New(c, args), args, ps, k);
      }
    }
  }

  /**
   * The legacy `visitArrayAccess` never yields an element type: every
   * access it accepts ends in the error sentinel, and a well-typed one does
   * so without any report.
   */
  lemma LegacyIndexNeverTyped(env: Env, a: Expr, i: Expr, n: nat)
    ensures TypeOf(env, ArrayAccess(a, i)).Done? ==> TypeOf(env, ArrayAccess(a, i)).value == ErrorT
    ensures TypeOf(env, a) == Done(ArrayT(Prim(IntK), n), []) && TypeOf(env, i) == Done(Prim(IntK), []) ==>
      TypeOf(env, ArrayAccess(a, i)) == Done(ErrorT, [])
  {
  }

  // ---------------------------------------------------------------------
  // The error sentinel never arrives unreported
  // ---------------------------------------------------------------------

  /** Every declared type the environment holds is free of the error sentinel. */
  predicate WellFormedEnv(env: Env) {
    && (forall i, x :: 0 <= i < |env.scopes| && x in env.scopes[i] ==> ErrorFree(env.scopes[i][x].ty))
    && (forall c, a :: c in env.table && a in env.table[c].attrs ==> ErrorFree(env.table[c].attrs[a].ty))
    && (forall c, f :: c in env.table && f in env.table[c].methods ==> ErrorFree(env.table[c].methods[f].ret))
  }

  /** The type of `e` never flows through the legacy array-access visitor. */
  predicate AvoidsLegacyIndex(e: Expr)
    decreases e
  {
    match e
    case ArrayAccess(_, _) => false
    case Paren(x) => AvoidsLegacyIndex(x)
    case ArrayLit(es) => forall i :: 0 <= i < |es| ==> AvoidsLegacyIndex(es[i])
    case Binary(_, x, y) => AvoidsLegacyIndex(x) && AvoidsLegacyIndex(y)
    case Unary(_, x) => AvoidsLegacyIndex(x)
    case Postfix(p, _) => AvoidsLegacyIndex(p)
    case MemberAccess(obj, _) => AvoidsLegacyIndex(obj)
    case MethodCall(obj, _, _) => AvoidsLegacyIndex(obj)
    case _ => true
  }

  /** A type result is the error sentinel only after a report, and otherwise free of it. */
  predicate Reported(r: Eval<Type>) {
    r.Done? ==> if r.value == ErrorT then |r.log| > 0 else ErrorFree(r.value)
  }

  predicate ReportedAll(r: Eval<seq<Type>>) {
    r.Done? ==> forall i :: 0 <= i < |r.value| ==> if r.value[i] == ErrorT then |r.log| > 0 else ErrorFree(r.value[i])
  }

  /**
   * The error sentinel exists so that one error is reported once: whenever
   * an expression's type is the sentinel, some diagnostic was emitted while
   * typing it.
   */
  lemma {:induction false} ErrorIsReported(env: Env, e: Expr)
    requires WellFormedEnv(env)
    requires AvoidsLegacyIndex(e)
    ensures Reported(TypeOf(env, e))
    decreases e
  {
    match e
    case Ident(x) =>
      LookupInnermost(env.scopes, x);
    case Paren(x) =>
      ErrorIsReported(env, x);
    case ArrayLit(es) =>
      ErrorIsReportedAll(env, es);
      ArrayLitReported(env, es);
    case Binary(op, x, y) =>
      ErrorIsReported(env, x);
      ErrorIsReported(env, y);
    case Unary(op, x) =>
      ErrorIsReported(env, x);
    case New(c, args) =>
      if c in env.table && FindMethod(env.table, c, c).Some? &&
        |FindMethod(env.table, c, c).value.params| == |args| {
        ArgsRejectionReported(env, e, args, ParamTypes(FindMethod(env.table, c, c).value.params));
      }
    case Postfix(p, ops) =>
      ErrorIsReported(env, p);
      PostfixExprReported(env, p, ops);
    case MemberAccess(obj, m) =>
      if !(obj.Ident? && obj.name in env.table) {
        ErrorIsReported(env, obj);
      }
      MemberAccessReported(env, obj, m);
    case MethodCall(obj, f, args) =>
      if !(obj.Ident? && obj.name in env.table) {
        ErrorIsReported(env, obj);
      }
      MethodCallReported(env, obj, f, args);
    case _ =>
  }

  /** An array literal is the sentinel only after a report, given its elements are reported. */
  lemma ArrayLitReported(env: Env, es: seq<Expr>)
    requires ReportedAll(TypeOfList(env, es))
    ensures Reported(TypeOf(env, ArrayLit(es)))
  {
    if |es| > 0 {
      match TypeOfList(env, es)
      case Raised(_, _) =>
      case Done(ts, l) =>
        if ErrorT !in ts {
          if UnifyFrom(ts[0], ts[1..]).Some? {
            assert forall i :: 0 <= i < |ts| ==> ErrorFree(ts[i]);
            assert forall i :: 0 <= i < |ts[1..]| ==> ts[1..][i] == ts[i + 1];
            UnifySound(ts[0], ts[1..]);
            SameTypeIsEquality(UnifyFrom(ts[0], ts[1..]).value, ts[0]);
          }
        }
    }
  }

  /** A postfix expression is the sentinel only after a report, given its primary is reported. */
  lemma PostfixExprReported(env: Env, p: Expr, ops: seq<PostfixOp>)
    requires WellFormedEnv(env)
    requires Reported(TypeOf(env, p))
    ensures Reported(TypeOf(env, Postfix(p, ops)))
  {
    if TypeOf(env, p).Done? && TypeOf(env, p).value != ErrorT {
      PostfixReported(env, Postfix(p, ops), TypeOf(env, p).value, ops);
    }
  }

  /** A member access is the sentinel only after a report, given its object is reported. */
  lemma MemberAccessReported(env: Env, obj: Expr, m: string)
    requires WellFormedEnv(env)
    requires !(obj.Ident? && obj.name in env.table) ==> Reported(TypeOf(env, obj))
    ensures Reported(TypeOf(env, MemberAccess(obj, m)))
  {
    if !(obj.Ident? && obj.name in env.table) {
      if TypeOf(env, obj).Done? && TypeOf(env, obj).value.ClassT? {
        FindAttrIff(env.table, TypeOf(env, obj).value.name, m);
      }
    }
  }

  /** A method call is the sentinel only after a report, given its object is reported. */
  lemma MethodCallReported(env: Env, obj: Expr, f: string, args: seq<Expr>)
    requires WellFormedEnv(env)
    requires !(obj.Ident? && obj.name in env.table) ==> Reported(TypeOf(env, obj))
    ensures Reported(TypeOf(env, MethodCall(obj, f, args)))
  {
    if obj.Ident? && obj.name in env.table {
      CallOnClassReported(env, obj, f, args);
    } else if TypeOf(env, obj).Done? && TypeOf(env, obj).value.ClassT? {
      CallOnInstanceReported(env, obj, f, args);
    }
  }

  lemma CallOnClassReported(env: Env, obj: Expr, f: string, args: seq<Expr>)
    requires WellFormedEnv(env)
    requires obj.Ident? && obj.name in env.table
    ensures Reported(TypeOf(env, MethodCall(obj, f, args)))
  {
    var found := FindMethod(env.table, obj.name, f);
    if found.Some? && |found.value.params| == |args| {
      FoundReturnErrorFree(env, obj.name, f);
      CallResultReported(env, MethodCall(obj, f, args), args, found.value.ret);
    }
  }

  lemma CallOnInstanceReported(env: Env, obj: Expr, f: string, args: seq<Expr>)
    requires WellFormedEnv(env)
    requires !(obj.Ident? && obj.name in env.table)
    requires TypeOf(env, obj).Done? && TypeOf(env, obj).value.ClassT?
    ensures Reported(TypeOf(env, MethodCall(obj, f, args)))
  {
    var t := TypeOf(env, obj).value;
    var found := FindMethod(env.table, t.name, f);
    if found.Some? && |found.value.params| == |args| {
      FoundReturnErrorFree(env, t.name, f);
      CallResultReported(env, MethodCall(obj, f, args), args, found.value.ret);
    }
  }

  /** A method that lookup finds returns a type free of the sentinel. */
  lemma FoundReturnErrorFree(env: Env, c: string, f: string)
    requires WellFormedEnv(env)
    requires FindMethod(env.table, c, f).Some?
    ensures ErrorFree(FindMethod(env.table, c, f).value.ret)
  {
    FindMethodIff(env.table, c, f);
  }

  /** A call whose arguments are checked against absent types is the sentinel only after a report. */
  lemma CallResultReported(env: Env, node: Expr, args: seq<Expr>, ret: Type)
    requires ErrorFree(ret)
    ensures Reported(CallResult(ret, ArgsAgainst(env, node, args, seq(|args|, _ => NoType))))
  {
    ArgsRejectionReported(env, node, args, seq(|args|, _ => NoType));
  }

  lemma {:induction false} ErrorIsReportedAll(env: Env, es: seq<Expr>)
    requires WellFormedEnv(env)
    requires forall i :: 0 <= i < |es| ==> AvoidsLegacyIndex(es[i])
    ensures ReportedAll(TypeOfList(env, es))
    decreases es
  {
    if |es| > 0 {
      ErrorIsReported(env, es[0]);
      assert forall i :: 0 <= i < |es[1..]| ==> es[1..][i] == es[i + 1];
      ErrorIsReportedAll(env, es[1..]);
    }
  }

  /** An argument list is rejected only after a report. */
  lemma {:induction false} ArgsRejectionReported(env: Env, node: Expr, args: seq<Expr>, ps: seq<Type>)
    requires |args| == |ps|
    ensures ArgsAgainst(env, node, args, ps).Done? && !ArgsAgainst(env, node, args, ps).value ==>
      |ArgsAgainst(env, node, args, ps).log| > 0
    decreases args
  {
    if |args| > 0 && TypeOf(env, args[0]).Done? && Compatible(env.table, ps[0], TypeOf(env, args[0]).value) {
      ArgsRejectionReported(env, node, args[1..], ps[1..]);
    }
  }

  /** A postfix chain that starts from a real type ends in the sentinel only after a report. */
  lemma {:induction false} PostfixReported(env: Env, node: Expr, cur: Type, ops: seq<PostfixOp>)
    requires WellFormedEnv(env)
    requires ErrorFree(cur)
    ensures Reported(PostfixFrom(env, node, cur, ops))
    decreases ops
  {
    if |ops| > 0 {
      var step := PostfixStep(env, node, cur, ops[0]);
      if ops[0].MemberOp? && cur.ClassT? {
        FindAttrIff(env.table, cur.name, ops[0].member);
      } else if ops[0].CallOp? && cur.ClassT? {
        FindMethodIff(env.table, cur.name, ops[0].callee);
      }
      if step.Done? && step.value.Some? {
        PostfixReported(env, node, step.value.value, ops[1..]);
      }
    }
  }
}
