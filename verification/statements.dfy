/**
 * The local rule of each statement and declaration visitor: what it
 * emits or raises once the scopes it reads are in place. Visiting nested
 * statements, entering and leaving scopes and counting loops is done by
 * the checker class; the functions here give the part of each visitor
 * that only reads its state.
 */
module Statements {
  import opened Wrappers
  import opened Types
  import opened Syntax
  import opened Diagnostics
  import opened ClassTable
  import opened ConstantExpr
  import opened Expressions
  import opened Builder

  /** A visitor's effect: the diagnostics it emitted, possibly ended by one it raised. */
  datatype Outcome = Emits(log: seq<Diag>) | Raises(log: seq<Diag>, diag: Diag)

  /** Diagnostics emitted in three stretches read the same however the stretches are grouped. */
  lemma Assoc(a: seq<Diag>, b: seq<Diag>, c: seq<Diag>)
    ensures (a + b) + c == a + (b + c)
  {
  }

  /** `o` preceded by the diagnostics `l` emitted before it. */
  function Prepend(l: seq<Diag>, o: Outcome): (r: Outcome)
    ensures r.log == l + o.log
    ensures r.Emits? <==> o.Emits?
    ensures r.Raises? ==> r.diag == o.diag
  {
    match o
    case Emits(l2) => Emits(l + l2)
    case Raises(l2, d) => Raises(l + l2, d)
  }

  /** The statement mismatch `node` draws when `actual` may not stand for `expected`. */
  function Mismatch(table: Table, expected: Type, actual: Type, node: Node): (r: seq<Diag>)
    ensures r == [] <==> Compatible(table, expected, actual)
    ensures r != [] ==> r == [TypeMismatchInStatement(node)]
  {
    if Compatible(table, expected, actual) then [] else [TypeMismatchInStatement(node)]
  }

  // ---------------------------------------------------------------------
  // Scopes
  // ---------------------------------------------------------------------

  /** `declare_local`/`declare_param` on a non-empty stack: only the innermost scope is consulted and extended. */
  function DeclareIn(scopes: seq<Scope>, x: string, sym: Symbol): Option<seq<Scope>>
    requires |scopes| > 0
  {
    var n := |scopes| - 1;
    if x in scopes[n] then None else Some(scopes[..n] + [scopes[n][x := sym]])
  }

  /** The stack `declare_local` works on: a scope is opened first when there is none. */
  function WithOpenScope(scopes: seq<Scope>): (r: seq<Scope>)
    ensures |r| > 0
    ensures |scopes| > 0 ==> r == scopes
  {
    if |scopes| == 0 then [map[]] else scopes
  }

  // ---------------------------------------------------------------------
  // Assignment
  // ---------------------------------------------------------------------

  /** The target is a final name that the statement may not assign. */
  predicate AssignsConstant(env: Env, currentMethod: Option<string>, x: string) {
    match LookupIn(env.scopes, x)
    case Some(sym) => sym.isFinal
    case None =>
      env.currentClass.Some? && FindAttr(env.table, env.currentClass.value, x).Some? &&
      FindAttr(env.table, env.currentClass.value, x).value.isFinal && currentMethod != env.currentClass
  }

  /**
   * `visitAssignmentStatement`: the right-hand side is typed first; a name
   * is looked up in the scopes, then along the current class's chain; a
   * final target is reported (a final attribute only outside a
   * constructor) and the types are compared anyway; a postfix target is
   * typed and an erroneous one ends the check.
   */
  function AssignOutcome(env: Env, currentMethod: Option<string>, s: Stmt): Outcome
    requires s.Assign?
  {
    match TypeOf(env, s.rhs)
    case Raised(l, d) => Raises(l, d)
    case Done(rt, l) => Prepend(l, TargetOutcome(env, currentMethod, s, rt))
  }

  /** The target of an assignment whose right-hand side has type `rt`. */
  function TargetOutcome(env: Env, currentMethod: Option<string>, s: Stmt, rt: Type): Outcome
    requires s.Assign?
  {
    if s.lhs.IdLhs? then Emits(IdTargetLog(env, currentMethod, s, rt))
    else PostfixTargetOutcome(env, s, rt)
  }

  /** A plain name as target: a local, else an attribute of the current class. */
  function IdTargetLog(env: Env, currentMethod: Option<string>, s: Stmt, rt: Type): seq<Diag>
    requires s.Assign? && s.lhs.IdLhs?
  {
    var x := s.lhs.name;
    match LookupIn(env.scopes, x)
    case Some(sym) =>
      (if sym.isFinal then [CannotAssignToConstant(s)] else []) + Mismatch(env.table, sym.ty, rt, StmtNode(s))
    case None =>
      if env.currentClass.None? then [UndeclaredIdentifier(x)]
      else (match FindAttr(env.table, env.currentClass.value, x)
        case None => [UndeclaredIdentifier(x)]
        case Some(a) =>
          (if a.isFinal && currentMethod != env.currentClass then [CannotAssignToConstant(s)] else []) +
            Mismatch(env.table, a.ty, rt, StmtNode(s)))
  }

  /** A postfix expression as target: typed like any expression, then checked against `rt`. */
  function PostfixTargetOutcome(env: Env, s: Stmt, rt: Type): Outcome
    requires s.Assign? && s.lhs.PostfixLhs?
  {
    match TypeOf(env, s.lhs.target)
    case Raised(l2, d) => Raises(l2, d)
    case Done(lt, l2) => Emits(l2 + Mismatch(env.table, lt, rt, StmtNode(s)))
  }

  // ---------------------------------------------------------------------
  // If, for, break, continue
  // ---------------------------------------------------------------------

  /**
   * The condition of `visitIfStatement`: `Done(true, _)` when the branches
   * are to be visited. An erroneous condition ends the statement silently,
   * a non-boolean one after a mismatch.
   */
  function IfCondition(env: Env, s: Stmt): Eval<bool>
    requires s.If?
  {
    match TypeOf(env, s.cond)
    case Raised(l, d) => Raised(l, d)
    case Done(t, l) =>
      if t == ErrorT then Done(false, l)
      else if !IsBool(t) then Done(false, l + [TypeMismatchInStatement(StmtNode(s))])
      else Done(true, l)
  }

  /** The loop variable: declared as a non-final int in the loop's scope when no scope has it. */
  function LoopVarScopes(scopes: seq<Scope>, v: string): seq<Scope>
    requires |scopes| > 0
  {
    if LookupIn(scopes, v).Some? then scopes
    else DeclareIn(scopes, v, Symbol(Prim(IntK), false)).value
  }

  /** An existing loop variable that is not an int is a mismatch on the `for` statement. */
  function LoopVarLog(scopes: seq<Scope>, v: string, s: Stmt): seq<Diag> {
    match LookupIn(scopes, v)
    case None => []
    case Some(sym) => if IsInt(sym.ty) then [] else [TypeMismatchInStatement(StmtNode(s))]
  }

  /** The two bounds of `visitForStatement`, typed in order; either one not an int is a mismatch. */
  function BoundsOutcome(env: Env, s: Stmt): Outcome
    requires s.For?
  {
    match TypeOf(env, s.start)
    case Raised(l, d) => Raises(l, d)
    case Done(st, l1) => Prepend(l1, StopOutcome(env, s, st))
  }

  /** The upper bound, once the lower one has type `st`. */
  function StopOutcome(env: Env, s: Stmt, st: Type): Outcome
    requires s.For?
  {
    match TypeOf(env, s.stop)
    case Raised(l2, d) => Raises(l2, d)
    case Done(et, l2) =>
      Emits(l2 + (if IsInt(st) && IsInt(et) then [] else [TypeMismatchInStatement(StmtNode(s))]))
  }

  /** `visitBreakStatement` and `visitContinueStatement`. */
  function JumpLog(loopDepth: int, s: Stmt): seq<Diag> {
    if loopDepth == 0 then [MustInLoop(s)] else []
  }

  // ---------------------------------------------------------------------
  // Return
  // ---------------------------------------------------------------------

  /**
   * `visitReturnStatement` as written. `expected` is the enclosing return
   * type, `None` inside a destructor. A bare `return` has no type, which
   * no declared type accepts, so it is reported even in a `void` method.
   */
  function ReturnOutcomeAsWritten(env: Env, expected: Option<Type>, s: Stmt): Outcome
    requires s.Return?
  {
    var r := if s.value.None? then Done(NoType, []) else TypeOf(env, s.value.value);
    match r
    case Raised(l, d) => Raises(l, d)
    case Done(t, l) =>
      if expected.None? || t == ErrorT then Emits(l)
      else if s.value == Some(NilLit) then
        Emits(l + (if IsClass(expected.value) || IsArray(expected.value) then [] else [TypeMismatchInStatement(StmtNode(s))]))
      else Emits(l + Mismatch(env.table, expected.value, t, StmtNode(s)))
  }

  /** The return rule as intended: a bare `return` is accepted exactly where the return type is `void`. */
  function ReturnOutcome(env: Env, expected: Option<Type>, s: Stmt): Outcome
    requires s.Return?
  {
    if s.value.None? && expected.Some? then
      Emits(if IsVoidNamed(expected.value) then [] else [TypeMismatchInStatement(StmtNode(s))])
    else ReturnOutcomeAsWritten(env, expected, s)
  }

  // ---------------------------------------------------------------------
  // Method call as a statement
  // ---------------------------------------------------------------------

  /** `visitMethodInvocationStatement`: a call whose type is known must be `void`. */
  function InvokeOutcome(env: Env, s: Stmt): Outcome
    requires s.Invoke?
  {
    match TypeOf(env, s.call)
    case Raised(l, d) => Raises(l, d)
    case Done(t, l) =>
      Emits(l + (if t != ErrorT && !IsVoidNamed(t) then [TypeMismatchInStatement(StmtNode(s))] else []))
  }

  // ---------------------------------------------------------------------
  // Declarations
  // ---------------------------------------------------------------------

  /**
   * The initialiser of one variable of `visitVariableDecl`, typed after
   * the variable is declared. Every violation here is raised: for a final
   * variable a non-constant initialiser first, then an incompatible type.
   */
  function InitOutcome(env: Env, d: VarDecl, e: Expr): Outcome {
    match TypeOf(env, e)
    case Raised(l, x) => Raises(l, x)
    case Done(t, l) =>
      if d.isFinal && NonConstant(e) then Raises(l, IllegalConstantExpression(e))
      else if Compatible(env.table, d.ty, t) then Emits(l)
      else if d.isFinal then Raises(l, TypeMismatchInConstant(VarDeclNode(d)))
      else Raises(l, TypeMismatchInStatement(VarDeclNode(d)))
  }

  /**
   * The initialiser of one attribute of `visitAttributeDecl`. Here the
   * violations are emitted, so a final attribute can draw both a
   * non-constant and a type report.
   */
  function AttrInitOutcome(env: Env, a: AttrDecl, e: Expr): Outcome {
    match TypeOf(env, e)
    case Raised(l, x) => Raises(l, x)
    case Done(t, l) =>
      if a.isFinal then
        Emits(l + (if NonConstant(e) then [IllegalConstantExpression(e)] else []) +
          (if Compatible(env.table, a.ty, t) then [] else [TypeMismatchInConstant(AttrDeclNode(a))]))
      else Emits(l + Mismatch(env.table, a.ty, t, AttrDeclNode(a)))
  }

  /** The attributes' initialisers checked in order; the first raise ends the declaration. */
  function AttrDeclOutcome(env: Env, a: AttrDecl, vs: seq<VarInit>): Outcome
    decreases |vs|
  {
    if |vs| == 0 then Emits([])
    else
      var first := if vs[0].init.Some? then AttrInitOutcome(env, a, vs[0].init.value) else Emits([]);
      match first
      case Raises(l, d) => Raises(l, d)
      case Emits(l) =>
        (match AttrDeclOutcome(env, a, vs[1..])
        case Raises(l2, d) => Raises(l + l2, d)
        case Emits(l2) => Emits(l + l2))
  }

  /** The attributes from the `i`th on, after the earlier ones emitted `log`. */
  function AttrDeclFrom(env: Env, a: AttrDecl, i: nat, log: seq<Diag>): Outcome
    requires i <= |a.attrs|
    decreases |a.attrs| - i
  {
    if i == |a.attrs| then Emits(log)
    else if a.attrs[i].init.None? then AttrDeclFrom(env, a, i + 1, log)
    else
      var o := AttrInitOutcome(env, a, a.attrs[i].init.value);
      if o.Raises? then Raises(log + o.log, o.diag)
      else AttrDeclFrom(env, a, i + 1, log + o.log)
  }

  lemma {:induction false} AttrDeclFromOutcome(env: Env, a: AttrDecl, i: nat, log: seq<Diag>)
    requires i <= |a.attrs|
    ensures AttrDeclFrom(env, a, i, log) == Prepend(log, AttrDeclOutcome(env, a, a.attrs[i..]))
    decreases |a.attrs| - i
  {
    if i < |a.attrs| {
      if a.attrs[i].init.None? {
        AttrDeclFromOutcome(env, a, i + 1, log);
        AttrSkipStep(env, a, i, log);
      } else {
        AttrDeclFromOutcome(env, a, i + 1, log + AttrInitOutcome(env, a, a.attrs[i].init.value).log);
        AttrInitStep(env, a, i, log);
      }
    } else {
      assert log + [] == log;
    }
  }

  /** One step of `AttrDeclFromOutcome`: an attribute without initialiser. */
  lemma AttrSkipStep(env: Env, a: AttrDecl, i: nat, log: seq<Diag>)
    requires i < |a.attrs| && a.attrs[i].init.None?
    requires AttrDeclFrom(env, a, i + 1, log) == Prepend(log, AttrDeclOutcome(env, a, a.attrs[i + 1..]))
    ensures AttrDeclFrom(env, a, i, log) == Prepend(log, AttrDeclOutcome(env, a, a.attrs[i..]))
  {
    var vs := a.attrs[i..];
    assert vs[0] == a.attrs[i] && vs[1..] == a.attrs[i + 1..];
    assert [] + AttrDeclOutcome(env, a, vs[1..]).log == AttrDeclOutcome(env, a, vs[1..]).log;
  }

  /** One step of `AttrDeclFromOutcome`: an attribute whose initialiser is checked. */
  lemma AttrInitStep(env: Env, a: AttrDecl, i: nat, log: seq<Diag>)
    requires i < |a.attrs| && a.attrs[i].init.Some?
    requires var o := AttrInitOutcome(env, a, a.attrs[i].init.value);
      AttrDeclFrom(env, a, i + 1, log + o.log) == Prepend(log + o.log, AttrDeclOutcome(env, a, a.attrs[i + 1..]))
    ensures AttrDeclFrom(env, a, i, log) == Prepend(log, AttrDeclOutcome(env, a, a.attrs[i..]))
  {
    var vs := a.attrs[i..];
    assert vs[0] == a.attrs[i] && vs[1..] == a.attrs[i + 1..];
    var o := AttrInitOutcome(env, a, a.attrs[i].init.value);
    if o.Emits? {
      Assoc(log, o.log, AttrDeclOutcome(env, a, a.attrs[i + 1..]).log);
    }
  }

  /** A variable declaration's effect: the scopes after it and what it emitted or raised. */
  datatype DeclRun = DeclRun(scopes: seq<Scope>, out: Outcome)

  /**
   * `visitVariableDecl` inside a block, whose scope is innermost: each
   * variable is declared, then its initialiser checked; a repeated name or
   * a failed initialiser raises and ends the declaration.
   */
  function VarDeclRun(env: Env, d: VarDecl, vs: seq<VarInit>): (r: DeclRun)
    requires |env.scopes| > 0
    ensures |r.scopes| == |env.scopes|
    decreases |vs|
  {
    if |vs| == 0 then DeclRun(env.scopes, Emits([]))
    else
      var first := VarStep(env, d, vs[0]);
      if first.out.Raises? then first
      else
        var rest := VarDeclRun(env.(scopes := first.scopes), d, vs[1..]);
        DeclRun(rest.scopes, Prepend(first.out.log, rest.out))
  }

  /** A declaration run preceded by the diagnostics `l` emitted before it. */
  function Continued(l: seq<Diag>, run: DeclRun): DeclRun {
    DeclRun(run.scopes, Prepend(l, run.out))
  }

  /** One variable: declared in the innermost scope, then its initialiser checked with the variable in scope. */
  function VarStep(env: Env, d: VarDecl, v: VarInit): (r: DeclRun)
    requires |env.scopes| > 0
    ensures |r.scopes| == |env.scopes|
  {
    match DeclareIn(env.scopes, v.name, Symbol(d.ty, d.isFinal))
    case None => DeclRun(env.scopes, Raises([], Redeclared(VariableKind, v.name)))
    case Some(sc) =>
      DeclRun(sc, if v.init.Some? then InitOutcome(env.(scopes := sc), d, v.init.value) else Emits([]))
  }

  /**
   * The variables from the `i`th on, after the earlier ones emitted `log`:
   * the order in which `visitVariableDecl`'s loop meets them.
   */
  function VarDeclFrom(env: Env, d: VarDecl, i: nat, log: seq<Diag>): DeclRun
    requires |env.scopes| > 0 && i <= |d.vars|
    decreases |d.vars| - i
  {
    if i == |d.vars| then DeclRun(env.scopes, Emits(log))
    else
      var step := VarStep(env, d, d.vars[i]);
      if step.out.Raises? then DeclRun(step.scopes, Raises(log + step.out.log, step.out.diag))
      else VarDeclFrom(env.(scopes := step.scopes), d, i + 1, log + step.out.log)
  }

  lemma {:induction false} VarDeclFromRun(env: Env, d: VarDecl, i: nat, log: seq<Diag>)
    requires |env.scopes| > 0 && i <= |d.vars|
    ensures VarDeclFrom(env, d, i, log) == Continued(log, VarDeclRun(env, d, d.vars[i..]))
    decreases |d.vars| - i
  {
    if i < |d.vars| {
      var step := VarStep(env, d, d.vars[i]);
      if step.out.Emits? {
        VarDeclFromRun(env.(scopes := step.scopes), d, i + 1, log + step.out.log);
      }
      VarDeclFromStep(env, d, i, log);
    } else {
      assert log + [] == log;
    }
  }

  /** One step of `VarDeclFromRun`, given the claim for the variables after the `i`th. */
  lemma VarDeclFromStep(env: Env, d: VarDecl, i: nat, log: seq<Diag>)
    requires |env.scopes| > 0 && i < |d.vars|
    requires var step := VarStep(env, d, d.vars[i]);
      step.out.Emits? ==>
        VarDeclFrom(env.(scopes := step.scopes), d, i + 1, log + step.out.log) ==
          Continued(log + step.out.log, VarDeclRun(env.(scopes := step.scopes), d, d.vars[i + 1..]))
    ensures VarDeclFrom(env, d, i, log) == Continued(log, VarDeclRun(env, d, d.vars[i..]))
  {
    var vs := d.vars[i..];
    assert vs[0] == d.vars[i] && vs[1..] == d.vars[i + 1..];
    var step := VarStep(env, d, d.vars[i]);
    if step.out.Emits? {
      Assoc(log, step.out.log, VarDeclRun(env.(scopes := step.scopes), d, d.vars[i + 1..]).out.log);
    }
  }

  /** A declaration changes only the innermost scope. */
  lemma {:induction false} VarDeclKeepsOuter(env: Env, d: VarDecl, vs: seq<VarInit>)
    requires |env.scopes| > 0
    ensures VarDeclRun(env, d, vs).scopes[..|env.scopes| - 1] == env.scopes[..|env.scopes| - 1]
    decreases |vs|
  {
    if |vs| > 0 {
      var n := |env.scopes| - 1;
      var first := VarStep(env, d, vs[0]);
      if DeclareIn(env.scopes, vs[0].name, Symbol(d.ty, d.isFinal)).Some? {
        assert first.scopes[..n] == env.scopes[..n];
      }
      if first.out.Emits? {
        VarDeclKeepsOuter(env.(scopes := first.scopes), d, vs[1..]);
      }
    }
  }

  /** A method's parameters entered into its fresh scope, and the redeclarations that drew a report. */
  datatype ParamRun = ParamRun(scope: Scope, log: seq<Diag>)

  /** `declare_param` over the parameters in order: a repeated name is reported and skipped. */
  function ParamsFrom(sc: Scope, ps: seq<Param>): ParamRun
    decreases |ps|
  {
    if |ps| == 0 then ParamRun(sc, [])
    else if ps[0].name in sc then
      var rest := ParamsFrom(sc, ps[1..]);
      ParamRun(rest.scope, [Redeclared(ParameterKind, ps[0].name)] + rest.log)
    else ParamsFrom(sc[ps[0].name := Symbol(ps[0].ty, true)], ps[1..])
  }

  function ParamNames(ps: seq<Param>): (r: seq<string>)
    ensures |r| == |ps|
    ensures forall i :: 0 <= i < |ps| ==> r[i] == ps[i].name
  {
    if |ps| == 0 then [] else [ps[0].name] + ParamNames(ps[1..])
  }

  // ---------------------------------------------------------------------
  // Lemmas: scopes
  // ---------------------------------------------------------------------

  /**
   * A declaration fails exactly when the innermost scope has the name,
   * whatever outer scopes hold; once made, lookup finds it and every other
   * name resolves as before.
   */
  lemma DeclareThenLookup(scopes: seq<Scope>, x: string, sym: Symbol)
    requires |scopes| > 0
    ensures DeclareIn(scopes, x, sym).None? <==> x in scopes[|scopes| - 1]
    ensures DeclareIn(scopes, x, sym).Some? ==>
      var r := DeclareIn(scopes, x, sym).value;
      && |r| == |scopes| && r[..|r| - 1] == scopes[..|scopes| - 1]
      && LookupIn(r, x) == Some(sym)
      && forall y :: y != x ==> LookupIn(r, y) == LookupIn(scopes, y)
  {
    var n := |scopes| - 1;
    if x !in scopes[n] {
      var r := DeclareIn(scopes, x, sym).value;
      assert r[..n] == scopes[..n];
      forall y | y != x ensures LookupIn(r, y) == LookupIn(scopes, y) {
        assert y in r[n] <==> y in scopes[n];
      }
    }
  }

  /** A name bound only in outer scopes may be declared again: the new binding shadows the outer one. */
  lemma ShadowingAllowed(scopes: seq<Scope>, x: string, sym: Symbol)
    requires |scopes| > 1 && x in scopes[0] && x !in scopes[|scopes| - 1]
    ensures DeclareIn(scopes, x, sym).Some?
    ensures LookupIn(DeclareIn(scopes, x, sym).value, x) == Some(sym)
  {
    DeclareThenLookup(scopes, x, sym);
  }

  // ---------------------------------------------------------------------
  // Lemmas: assignment
  // ---------------------------------------------------------------------

  /**
   * An assignment whose right-hand side is typed reports
   * `CannotAssignToConstant` exactly when its named target is final, a
   * final attribute being assignable inside a constructor.
   */
  lemma AssignConstantRule(env: Env, currentMethod: Option<string>, s: Stmt, x: string, rt: Type, l: seq<Diag>)
    requires s.Assign? && s.lhs == IdLhs(x) && TypeOf(env, s.rhs) == Done(rt, l)
    requires CannotAssignToConstant(s) !in l
    ensures AssignOutcome(env, currentMethod, s).Emits?
    ensures CannotAssignToConstant(s) in AssignOutcome(env, currentMethod, s).log <==> AssignsConstant(env, currentMethod, x)
  {
  }

  /**
   * A named target that is neither in scope nor an attribute on the
   * current class's chain is reported once, with no type check.
   */
  lemma AssignUndeclaredRule(env: Env, currentMethod: Option<string>, s: Stmt, x: string, rt: Type, l: seq<Diag>)
    requires s.Assign? && s.lhs == IdLhs(x) && TypeOf(env, s.rhs) == Done(rt, l)
    ensures (LookupIn(env.scopes, x).None? &&
      (env.currentClass.None? || FindAttr(env.table, env.currentClass.value, x).None?)) <==>
      AssignOutcome(env, currentMethod, s) == Emits(l + [UndeclaredIdentifier(x)])
  {
    var r := AssignOutcome(env, currentMethod, s);
    if r == Emits(l + [UndeclaredIdentifier(x)]) {
      assert r.log[|l|] == UndeclaredIdentifier(x);
    }
  }

  /** The target's declared type must accept the right-hand side's type; the error sentinel on either side is accepted. */
  lemma AssignTypeRule(env: Env, currentMethod: Option<string>, s: Stmt, rt: Type, l: seq<Diag>, lt: Type, l2: seq<Diag>)
    requires s.Assign? && s.lhs.PostfixLhs? && TypeOf(env, s.rhs) == Done(rt, l) && TypeOf(env, s.lhs.target) == Done(lt, l2)
    requires TypeMismatchInStatement(StmtNode(s)) !in l + l2
    ensures AssignOutcome(env, currentMethod, s).Emits?
    ensures TypeMismatchInStatement(StmtNode(s)) in AssignOutcome(env, currentMethod, s).log <==> !Compatible(env.table, lt, rt)
    ensures lt == ErrorT || rt == ErrorT ==> AssignOutcome(env, currentMethod, s) == Emits(l + l2)
  {
  }

  /**
   * A named target is type-checked against the local it resolves to, else
   * against the attribute found along the current class's chain; the
   * constant report, if any, comes first and does not stop the type check.
   */
  lemma AssignIdTypeRule(env: Env, currentMethod: Option<string>, s: Stmt, x: string, rt: Type, l: seq<Diag>)
    requires s.Assign? && s.lhs == IdLhs(x) && TypeOf(env, s.rhs) == Done(rt, l)
    requires TypeMismatchInStatement(StmtNode(s)) !in l
    ensures AssignOutcome(env, currentMethod, s).Emits?
    ensures LookupIn(env.scopes, x).Some? ==>
      var sym := LookupIn(env.scopes, x).value;
      AssignOutcome(env, currentMethod, s).log ==
        l + (if sym.isFinal then [CannotAssignToConstant(s)] else []) +
          (if Compatible(env.table, sym.ty, rt) then [] else [TypeMismatchInStatement(StmtNode(s))])
    ensures LookupIn(env.scopes, x).None? && env.currentClass.Some? && FindAttr(env.table, env.currentClass.value, x).Some? ==>
      var a := FindAttr(env.table, env.currentClass.value, x).value;
      AssignOutcome(env, currentMethod, s).log ==
        l + (if a.isFinal && currentMethod != env.currentClass then [CannotAssignToConstant(s)] else []) +
          (if Compatible(env.table, a.ty, rt) then [] else [TypeMismatchInStatement(StmtNode(s))])
    ensures TypeMismatchInStatement(StmtNode(s)) in AssignOutcome(env, currentMethod, s).log <==>
      || (LookupIn(env.scopes, x).Some? && !Compatible(env.table, LookupIn(env.scopes, x).value.ty, rt))
      || (&& LookupIn(env.scopes, x).None? && env.currentClass.Some?
          && FindAttr(env.table, env.currentClass.value, x).Some?
          && !Compatible(env.table, FindAttr(env.table, env.currentClass.value, x).value.ty, rt))
  {
  }

  // ---------------------------------------------------------------------
  // Lemmas: if, for, return, call statements
  // ---------------------------------------------------------------------

  /**
   * The branches are visited exactly when the condition is boolean; a
   * condition of another type draws one mismatch, an erroneous one none.
   */
  lemma IfConditionRule(env: Env, s: Stmt, t: Type, l: seq<Diag>)
    requires s.If? && TypeOf(env, s.cond) == Done(t, l)
    ensures IfCondition(env, s).Done?
    ensures IfCondition(env, s).value <==> t == Prim(BoolK)
    ensures IfCondition(env, s).log == l + (if t == ErrorT || t == Prim(BoolK) then [] else [TypeMismatchInStatement(StmtNode(s))])
  {
  }

  /**
   * After the loop-variable step the variable is bound; it is a fresh
   * non-final int when no scope had it, and an existing variable of another
   * type than int draws a mismatch.
   */
  lemma LoopVarRule(scopes: seq<Scope>, v: string, s: Stmt)
    requires |scopes| > 0 && scopes[|scopes| - 1] == map[]
    ensures |LoopVarScopes(scopes, v)| == |scopes|
    ensures LookupIn(LoopVarScopes(scopes, v), v).Some?
    ensures LookupIn(scopes, v).None? ==>
      LookupIn(LoopVarScopes(scopes, v), v) == Some(Symbol(Prim(IntK), false)) && LoopVarLog(scopes, v, s) == []
    ensures LookupIn(scopes, v).Some? ==>
      (LoopVarLog(scopes, v, s) == [] <==> LookupIn(scopes, v).value.ty == Prim(IntK))
  {
    DeclareThenLookup(scopes, v, Symbol(Prim(IntK), false));
  }

  /**
   * Both bounds must be ints. The check does not look past the error
   * sentinel: an erroneous bound draws a mismatch of its own.
   */
  lemma BoundsRule(env: Env, s: Stmt, st: Type, l1: seq<Diag>, et: Type, l2: seq<Diag>)
    requires s.For? && TypeOf(env, s.start) == Done(st, l1) && TypeOf(env, s.stop) == Done(et, l2)
    ensures BoundsOutcome(env, s).Emits?
    ensures BoundsOutcome(env, s).log == l1 + l2 <==> st == Prim(IntK) && et == Prim(IntK)
    ensures st == ErrorT ==> BoundsOutcome(env, s).log == l1 + l2 + [TypeMismatchInStatement(StmtNode(s))]
  {
    assert l1 + (l2 + []) == l1 + l2;
    assert l1 + (l2 + [TypeMismatchInStatement(StmtNode(s))]) == l1 + l2 + [TypeMismatchInStatement(StmtNode(s))];
  }

  /**
   * Corrected return rule: no report without an enclosing return type or
   * for an erroneous value; `nil` only for a class or array type; a bare
   * `return` only for `void`; any other value must be compatible.
   */
  lemma ReturnRule(env: Env, expected: Type, s: Stmt)
    requires s.Return? && (s.value.None? || TypeOf(env, s.value.value).Done?)
    ensures ReturnOutcome(env, None, s).Emits? && ReturnOutcome(env, Some(expected), s).Emits?
    ensures s.value.Some? ==> ReturnOutcome(env, None, s).log == TypeOf(env, s.value.value).log
    ensures s.value.None? ==> ReturnOutcome(env, None, s) == Emits([])
    ensures s.value.None? ==>
      (ReturnOutcome(env, Some(expected), s) == Emits([]) <==> expected in {NoType, Prim(VoidK), ClassT("void")})
    ensures s.value == Some(NilLit) ==>
      (ReturnOutcome(env, Some(expected), s) == Emits([]) <==> expected.ClassT? || expected.ArrayT?)
    ensures s.value.Some? && s.value.value != NilLit ==>
      var r := TypeOf(env, s.value.value);
      ReturnOutcome(env, Some(expected), s).log ==
        r.log + (if r.value == ErrorT || Compatible(env.table, expected, r.value) then [] else [TypeMismatchInStatement(StmtNode(s))])
  {
    VoidNamedIff(expected);
  }

  /** The call statement draws a mismatch exactly when its type is known and is not `void`. */
  lemma InvokeRule(env: Env, s: Stmt, t: Type, l: seq<Diag>)
    requires s.Invoke? && TypeOf(env, s.call) == Done(t, l)
    ensures InvokeOutcome(env, s).Emits?
    ensures InvokeOutcome(env, s).log == l <==> t in {ErrorT, NoType, Prim(VoidK), ClassT("void")}
  {
    VoidNamedIff(t);
  }

  // ---------------------------------------------------------------------
  // Lemmas: declarations
  // ---------------------------------------------------------------------

  /**
   * A variable initialiser passes exactly when it is constant (for a final
   * variable) and of a compatible type; otherwise the constant rule is
   * raised before the type rule, and the label of the type rule says
   * whether the variable is final.
   */
  lemma InitRule(env: Env, d: VarDecl, e: Expr, t: Type, l: seq<Diag>)
    requires TypeOf(env, e) == Done(t, l)
    ensures InitOutcome(env, d, e) == Emits(l) <==> (!d.isFinal || !NonConstant(e)) && Compatible(env.table, d.ty, t)
    ensures d.isFinal && NonConstant(e) ==> InitOutcome(env, d, e) == Raises(l, IllegalConstantExpression(e))
    ensures (!d.isFinal || !NonConstant(e)) && !Compatible(env.table, d.ty, t) ==>
      InitOutcome(env, d, e) ==
        Raises(l, if d.isFinal then TypeMismatchInConstant(VarDeclNode(d)) else TypeMismatchInStatement(VarDeclNode(d)))
  {
  }

  /** A final variable's initialiser made only of literals and operators is never rejected as non-constant. */
  lemma ConstantInitAccepted(env: Env, d: VarDecl, e: Expr, t: Type, l: seq<Diag>)
    requires d.isFinal && TypeOf(env, e) == Done(t, l) && Compatible(env.table, d.ty, t)
    requires forall x :: x in Leaves(e) ==> IsPrimitiveLiteral(x)
    ensures InitOutcome(env, d, e) == Emits(l)
  {
    NonConstantIffLeaf(e);
  }

  /**
   * An attribute initialiser is never raised upon by the declaration
   * itself: a final one emits the constant report and the type report
   * independently, in that order.
   */
  lemma AttrInitRule(env: Env, a: AttrDecl, e: Expr, t: Type, l: seq<Diag>)
    requires TypeOf(env, e) == Done(t, l)
    ensures AttrInitOutcome(env, a, e).Emits?
    ensures a.isFinal ==> (AttrInitOutcome(env, a, e).log ==
      l + (if NonConstant(e) then [IllegalConstantExpression(e)] else []) +
        (if Compatible(env.table, a.ty, t) then [] else [TypeMismatchInConstant(AttrDeclNode(a))]))
    ensures !a.isFinal ==>
      (AttrInitOutcome(env, a, e).log == l <==> Compatible(env.table, a.ty, t))
  {
  }

  /** Without initialisers an attribute declaration reports nothing. */
  lemma {:induction false} AttrDeclWithoutInits(env: Env, a: AttrDecl, vs: seq<VarInit>)
    requires forall i :: 0 <= i < |vs| ==> vs[i].init.None?
    ensures AttrDeclOutcome(env, a, vs) == Emits([])
    decreases |vs|
  {
    if |vs| > 0 {
      assert forall i :: 0 <= i < |vs[1..]| ==> vs[1..][i] == vs[i + 1];
      AttrDeclWithoutInits(env, a, vs[1..]);
    }
  }

  /**
   * Parameters draw no report exactly when their names are distinct and
   * new to the scope; every parameter is then bound, as final, to its
   * declared type.
   */
  lemma {:induction false} ParamsFromSpec(sc: Scope, ps: seq<Param>)
    ensures ParamsFrom(sc, ps).log == [] <==> FreshSeq(ParamNames(ps), sc.Keys)
    ensures forall i :: 0 <= i < |ps| ==> ps[i].name in ParamsFrom(sc, ps).scope
    ensures FreshSeq(ParamNames(ps), sc.Keys) ==>
      forall i :: 0 <= i < |ps| ==> ParamsFrom(sc, ps).scope[ps[i].name] == Symbol(ps[i].ty, true)
    ensures forall x :: x in sc ==> x in ParamsFrom(sc, ps).scope && ParamsFrom(sc, ps).scope[x] == sc[x]
    decreases |ps|
  {
    if |ps| > 0 {
      var p := ps[0];
      var rest := ps[1..];
      assert ParamNames(ps) == [p.name] + ParamNames(rest);
      assert forall i :: 1 <= i < |ps| ==> ps[i] == rest[i - 1];
      FreshCons(p.name, ParamNames(rest), sc.Keys);
      if p.name in sc {
        ParamsFromSpec(sc, rest);
      } else {
        var sc1 := sc[p.name := Symbol(p.ty, true)];
        assert sc1.Keys == sc.Keys + {p.name};
        ParamsFromSpec(sc1, rest);
      }
    }
  }

  /**
   * A declaration without initialisers succeeds exactly when its names are
   * distinct and new to the innermost scope; each name then resolves to
   * the declared type and finality, and every other name as before.
   */
  lemma {:induction false} VarDeclWithoutInits(env: Env, d: VarDecl, vs: seq<VarInit>)
    requires |env.scopes| > 0
    requires forall i :: 0 <= i < |vs| ==> vs[i].init.None?
    ensures VarDeclRun(env, d, vs).out.Emits? <==> FreshSeq(VarNames(vs), env.scopes[|env.scopes| - 1].Keys)
    ensures VarDeclRun(env, d, vs).out.Raises? ==>
      VarDeclRun(env, d, vs).out.diag.Redeclared? && VarDeclRun(env, d, vs).out.diag.kind == VariableKind
    ensures VarDeclRun(env, d, vs).out.log == []
    ensures forall j :: FirstClash(VarNames(vs), env.scopes[|env.scopes| - 1].Keys, j) ==>
      VarDeclRun(env, d, vs).out == Raises([], Redeclared(VariableKind, vs[j].name))
    decreases |vs|
  {
    if |vs| > 0 {
      var n := |env.scopes| - 1;
      var sym := Symbol(d.ty, d.isFinal);
      var used := env.scopes[n].Keys;
      assert VarNames(vs) == [vs[0].name] + VarNames(vs[1..]);
      FreshCons(vs[0].name, VarNames(vs[1..]), used);
      DeclareThenLookup(env.scopes, vs[0].name, sym);
      if vs[0].name !in env.scopes[n] {
        var sc := DeclareIn(env.scopes, vs[0].name, sym).value;
        assert sc[n].Keys == used + {vs[0].name};
        assert forall i :: 0 <= i < |vs[1..]| ==> vs[1..][i] == vs[i + 1];
        VarDeclWithoutInits(env.(scopes := sc), d, vs[1..]);
        forall j | FirstClash(VarNames(vs), used, j)
          ensures VarDeclRun(env, d, vs).out == Raises([], Redeclared(VariableKind, vs[j].name))
        {
          FirstClashCons(vs[0].name, VarNames(vs[1..]), used, j);
          assert vs[1..][j - 1] == vs[j];
        }
      } else {
        forall j | FirstClash(VarNames(vs), used, j) ensures j == 0 {
          FirstClashCons(vs[0].name, VarNames(vs[1..]), used, j);
        }
      }
    }
  }

  /** Once a declaration has gone through, every name it declares resolves to the declared type and finality. */
  lemma {:induction false} VarDeclBinds(env: Env, d: VarDecl, vs: seq<VarInit>)
    requires |env.scopes| > 0
    requires VarDeclRun(env, d, vs).out.Emits?
    ensures forall i :: 0 <= i < |vs| ==> LookupIn(VarDeclRun(env, d, vs).scopes, vs[i].name) == Some(Symbol(d.ty, d.isFinal))
    ensures forall y :: (forall i :: 0 <= i < |vs| ==> vs[i].name != y) ==>
      LookupIn(VarDeclRun(env, d, vs).scopes, y) == LookupIn(env.scopes, y)
    decreases |vs|
  {
    if |vs| > 0 {
      var sym := Symbol(d.ty, d.isFinal);
      DeclareThenLookup(env.scopes, vs[0].name, sym);
      var sc := DeclareIn(env.scopes, vs[0].name, sym).value;
      var env1 := env.(scopes := sc);
      VarDeclBinds(env1, d, vs[1..]);
      assert forall i :: 1 <= i < |vs| ==> vs[i] == vs[1..][i - 1];
    }
  }

  /** As written, a bare `return` in a `void` method is a mismatch; as intended it is accepted. */
  lemma BareReturnInVoidMethod(env: Env)
    ensures ReturnOutcomeAsWritten(env, Some(Prim(VoidK)), Return(None)) ==
      Emits([TypeMismatchInStatement(StmtNode(Return(None)))])
    ensures ReturnOutcome(env, Some(Prim(VoidK)), Return(None)) == Emits([])
  {
  }
}
