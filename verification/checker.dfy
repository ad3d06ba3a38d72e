/**
 * The checker object: its class table, scope stack, loop depth, current
 * class, method and return type, and the list of emitted diagnostics,
 * updated in place by the visitors as the program is walked. A visitor
 * that raises returns the raised diagnostic; its caller stops at once and
 * passes it on, leaving the state as it was at the raise.
 */
module Checker {
  import opened Wrappers
  import opened Types
  import opened Syntax
  import opened Diagnostics
  import opened ClassTable
  import opened ConstantExpr
  import opened Expressions
  import opened Statements
  import opened Builder

  /** `raised` is what `r` raised, and `t` its type when it raised nothing. */
  predicate Yields(r: Eval<Type>, t: Type, raised: Option<Diag>) {
    if r.Done? then raised.None? && t == r.value else raised == Some(r.diag)
  }

  /** `raised` is what `o` raised, if anything. */
  predicate Ends(o: Outcome, raised: Option<Diag>) {
    if o.Emits? then raised.None? else raised == Some(o.diag)
  }

  /** The table the second pass works with: `IO` is added only when no class was registered. */
  function Injected(t: Table): Table {
    if |t| == 0 then map["IO" := IOClass()] else t
  }

  /** `t` with the built-in `IO` class added unless a class of that name is declared. */
  function WithIO(t: Table): Table {
    if "IO" in t then t else t["IO" := IOClass()]
  }

  class StaticChecker {
    var classTable: Table
    var hasMain: bool
    var scopes: seq<Scope>
    var currentClass: Option<string>
    var currentMethod: Option<string>
    var loopDepth: int
    /** The enclosing return type; `None` outside methods and inside a destructor. */
    var currentReturn: Option<Type>
    var errors: seq<Diag>

    constructor()
      ensures classTable == map[] && !hasMain && scopes == []
      ensures currentClass == None && currentMethod == None && loopDepth == 0 && currentReturn == None
      ensures errors == []
    {
      classTable := map[];
      hasMain := false;
      scopes := [];
      currentClass := None;
      currentMethod := None;
      loopDepth := 0;
      currentReturn := None;
      errors := [];
    }

    /** What the expression visitors read. */
    function ExprEnv(): Env
      reads this`classTable, this`scopes, this`currentClass
    {
      Expressions.Env(classTable, scopes, currentClass)
    }

    method Emit(d: Diag)
      modifies this`errors
      ensures errors == old(errors) + [d]
    {
      errors := errors + [d];
    }

    // -------------------------------------------------------------------
    // The scope stack
    // -------------------------------------------------------------------

    method EnterScope()
      modifies this`scopes
      ensures scopes == old(scopes) + [map[]]
    {
      scopes := scopes + [map[]];
    }

    /** Pops the innermost scope; an empty stack is left alone. */
    method ExitScope()
      modifies this`scopes
      ensures |old(scopes)| > 0 ==> scopes == old(scopes)[..|old(scopes)| - 1]
      ensures |old(scopes)| == 0 ==> scopes == []
    {
      if |scopes| > 0 {
        scopes := scopes[..|scopes| - 1];
      }
    }

    /** Binds `x` in the innermost scope, which is known to exist. */
    method Bind(x: string, sym: Symbol)
      requires |scopes| > 0
      modifies this`scopes
      ensures |scopes| == |old(scopes)| && scopes[..|scopes| - 1] == old(scopes)[..|scopes| - 1]
      ensures scopes[|scopes| - 1] == old(scopes)[|scopes| - 1][x := sym]
    {
      var n := |scopes| - 1;
      scopes := scopes[..n] + [scopes[n][x := sym]];
    }

    /** `declare_local`: a name already in the innermost scope raises `Redeclared(Variable, x)`, even for a final one. */
    method DeclareLocal(x: string, ty: Type, isFinal: bool) returns (raised: Option<Diag>)
      modifies this`scopes
      ensures DeclareIn(WithOpenScope(old(scopes)), x, Symbol(ty, isFinal)).None? ==>
        raised == Some(Redeclared(VariableKind, x)) && scopes == WithOpenScope(old(scopes))
      ensures DeclareIn(WithOpenScope(old(scopes)), x, Symbol(ty, isFinal)).Some? ==>
        raised.None? && scopes == DeclareIn(WithOpenScope(old(scopes)), x, Symbol(ty, isFinal)).value
    {
      if |scopes| == 0 {
        EnterScope();
      }
      var n := |scopes| - 1;
      if x in scopes[n] {
        return Some(Redeclared(VariableKind, x));
      }
      Bind(x, Symbol(ty, isFinal));
      raised := None;
    }

    /** `declare_param`: a repeated parameter is emitted, not raised, and the later one is dropped. */
    method DeclareParam(x: string, ty: Type)
      modifies this`scopes, this`errors
      ensures DeclareIn(WithOpenScope(old(scopes)), x, Symbol(ty, true)).None? ==>
        errors == old(errors) + [Redeclared(ParameterKind, x)] && scopes == WithOpenScope(old(scopes))
      ensures DeclareIn(WithOpenScope(old(scopes)), x, Symbol(ty, true)).Some? ==>
        errors == old(errors) && scopes == DeclareIn(WithOpenScope(old(scopes)), x, Symbol(ty, true)).value
    {
      if |scopes| == 0 {
        EnterScope();
      }
      var n := |scopes| - 1;
      if x in scopes[n] {
        Emit(Redeclared(ParameterKind, x));
        return;
      }
      Bind(x, Symbol(ty, true));
    }

    /**
     * All parameters of a method or constructor, entered into the scope
     * just opened. Constructors go through `visitParameter` and methods
     * through `declare_param`; on a non-empty stack the two do the same.
     */
    method DeclareParams(ps: seq<Param>)
      requires |scopes| > 0 && scopes[|scopes| - 1] == map[]
      modifies this`scopes, this`errors
      ensures |scopes| == |old(scopes)| && scopes[..|scopes| - 1] == old(scopes)[..|scopes| - 1]
      ensures scopes[|scopes| - 1] == ParamsFrom(map[], ps).scope
      ensures errors == old(errors) + ParamsFrom(map[], ps).log
    {
      var n := |scopes| - 1;
      var i := 0;
      ghost var log: seq<Diag> := [];
      while i < |ps|
        invariant 0 <= i <= |ps|
        invariant |scopes| == n + 1 && scopes[..n] == old(scopes)[..n]
        invariant errors == old(errors) + log
        invariant ParamsFrom(map[], ps) ==
          ParamRun(ParamsFrom(scopes[n], ps[i..]).scope, log + ParamsFrom(scopes[n], ps[i..]).log)
      {
        assert ps[i..][0] == ps[i] && ps[i..][1..] == ps[i + 1..];
        if ps[i].name in scopes[n] {
          log := log + [Redeclared(ParameterKind, ps[i].name)];
        }
        DeclareParam(ps[i].name, ps[i].ty);
        i := i + 1;
      }
      assert ps[i..] == [];
    }

    // -------------------------------------------------------------------
    // Walks over scopes and parent chains
    // -------------------------------------------------------------------

    /** `lookup`: the scopes from the innermost outwards. */
    method Lookup(x: string) returns (r: Option<Symbol>)
      ensures r == LookupIn(scopes, x)
    {
      var i := |scopes|;
      assert scopes[..i] == scopes;
      while i > 0
        invariant 0 <= i <= |scopes|
        invariant LookupIn(scopes[..i], x) == LookupIn(scopes, x)
      {
        assert scopes[..i][i - 1] == scopes[i - 1] && scopes[..i][..i - 1] == scopes[..i - 1];
        if x in scopes[i - 1] {
          return Some(scopes[i - 1][x]);
        }
        i := i - 1;
      }
      return None;
    }

    /** `lookup_in_class_attrs`: the first class up the chain that declares `attr`. */
    method LookupInClassAttrs(cls: string, attr: string) returns (r: Option<AttrInfo>)
      ensures r == FindAttr(classTable, cls, attr)
    {
      if cls !in classTable {
        return None;
      }
      var cur := cls;
      var fuel := Bound(classTable);
      while fuel > 0
        invariant FindAttrFrom(classTable, cur, attr, fuel) == FindAttr(classTable, cls, attr)
      {
        if cur !in classTable {
          return None;
        }
        if attr in classTable[cur].attrs {
          return Some(classTable[cur].attrs[attr]);
        }
        match classTable[cur].parent {
          case None => return None;
          case Some(p) => cur := p;
        }
        fuel := fuel - 1;
      }
      return None;
    }

    /** `lookup_method`: the walk stops at a class it has seen before. */
    method LookupMethod(cls: string, name: string) returns (r: Option<MethodInfo>)
      ensures r == FindMethod(classTable, cls, name)
    {
      var cur := Some(cls);
      var visited: set<string> := {};
      while cur.Some? && cur.value !in visited
        invariant FindMethodFrom(classTable, cur, name, visited) == FindMethod(classTable, cls, name)
        decreases classTable.Keys - visited
      {
        var c := cur.value;
        if c !in classTable {
          return None;
        }
        visited := visited + {c};
        if name in classTable[c].methods {
          return Some(classTable[c].methods[name]);
        }
        cur := classTable[c].parent;
      }
      return None;
    }

    /** `is_subtype`: `sup`'s name is met walking up from `sub`. */
    method IsSubtype(sub: Type, sup: Type) returns (r: bool)
      ensures r == Subtype(classTable, sub, sup)
    {
      if !(sub.ClassT? && sup.ClassT?) {
        return false;
      }
      var cur := Some(sub.name);
      var fuel := Bound(classTable);
      while fuel > 0 && cur.Some?
        invariant cur.Some? ==> (Subtype(classTable, sub, sup) <==> sup.name in Chain(classTable, cur.value, fuel))
        invariant cur.None? ==> !Subtype(classTable, sub, sup)
      {
        if cur.value == sup.name {
          return true;
        }
        cur := Step(classTable, cur.value);
        fuel := fuel - 1;
      }
      return false;
    }

    // -------------------------------------------------------------------
    // The first pass
    // -------------------------------------------------------------------

    /** One attribute declaration's names entered into `ci`. */
    static method EnterAttrs(ci: ClassInfo, a: AttrDecl) returns (r: Result<ClassInfo>)
      ensures r == AttrVarsFrom(ci, a, a.attrs)
    {
      var cur := ci;
      var k := 0;
      while k < |a.attrs|
        invariant 0 <= k <= |a.attrs|
        invariant AttrVarsFrom(cur, a, a.attrs[k..]) == AttrVarsFrom(ci, a, a.attrs)
      {
        var v := a.attrs[k];
        assert a.attrs[k..][0] == v && a.attrs[k..][1..] == a.attrs[k + 1..];
        if v.name in cur.attrs {
          return Fail(Redeclared(AttributeKind, v.name));
        }
        cur := cur.(attrs := cur.attrs[v.name := AttrEntry(a, v)]);
        k := k + 1;
      }
      assert a.attrs[k..] == [];
      return Ok(cur);
    }

    /** One member entered into the entry of class `cname`. */
    static method EnterMember(ci: ClassInfo, cname: string, m: Member) returns (r: Result<ClassInfo>)
      ensures r == AddMember(ci, cname, m)
    {
      if m.AttrMember? {
        r := EnterAttrs(ci, m.attr);
        return;
      }
      var key := MethodKey(cname, m);
      if key in ci.methods {
        return Fail(Redeclared(MethodKind, key));
      }
      return Ok(ci.(methods := ci.methods[key := MethodEntry(cname, m)]));
    }

    /** A class's members entered in order; `sawMain` says whether one of them is `static void main()`. */
    static method EnterMembers(ci: ClassInfo, cname: string, ms: seq<Member>) returns (r: Result<ClassInfo>, sawMain: bool)
      ensures r == MembersFrom(ci, cname, ms)
      ensures r.Ok? ==> (sawMain <==> exists j :: 0 <= j < |ms| && IsMainDecl(ms[j]))
    {
      var cur := ci;
      sawMain := false;
      var j := 0;
      while j < |ms|
        invariant 0 <= j <= |ms|
        invariant MembersFrom(cur, cname, ms[j..]) == MembersFrom(ci, cname, ms)
        invariant sawMain <==> exists k :: 0 <= k < j && IsMainDecl(ms[k])
      {
        assert ms[j..][0] == ms[j] && ms[j..][1..] == ms[j + 1..];
        var next := EnterMember(cur, cname, ms[j]);
        if next.Fail? {
          return next, sawMain;
        }
        if IsMainDecl(ms[j]) {
          sawMain := true;
        }
        cur := next.value;
        j := j + 1;
      }
      assert ms[j..] == [];
      return Ok(cur), sawMain;
    }

    /**
     * `_build_class_table`: the table and the main flag as `Build` gives
     * them, or the violation it raises. The parent check goes through the
     * classes in declaration order, which is the order the table's entries
     * were registered in.
     */
    method BuildClassTable(cs: seq<ClassDecl>) returns (raised: Option<Diag>)
      modifies this`classTable, this`hasMain
      ensures Build(cs).Fail? ==> raised == Some(Build(cs).diag)
      ensures Build(cs).Ok? ==> raised.None? && classTable == Build(cs).value.table && hasMain == Build(cs).value.hasMain
    {
      classTable := map[];
      hasMain := false;
      var i := 0;
      while i < |cs|
        invariant 0 <= i <= |cs|
        invariant RegisterFrom(classTable, cs[i..]) == RegisterFrom(map[], cs)
        invariant !hasMain
      {
        assert cs[i..][0] == cs[i] && cs[i..][1..] == cs[i + 1..];
        if cs[i].name in classTable {
          return Some(Redeclared(ClassKind, cs[i].name));
        }
        classTable := classTable[cs[i].name := ClassInfo(cs[i].parent, map[], map[])];
        i := i + 1;
      }
      assert cs[i..] == [];
      assert RegisterFrom(map[], cs) == Ok(classTable);
      i := 0;
      while i < |cs|
        invariant 0 <= i <= |cs|
        invariant MissingParent(cs[i..], classTable.Keys) == MissingParent(cs, classTable.Keys)
        invariant RegisterFrom(map[], cs) == Ok(classTable) && !hasMain
      {
        assert cs[i..][0] == cs[i] && cs[i..][1..] == cs[i + 1..];
        if cs[i].parent.Some? && cs[i].parent.value !in classTable {
          return Some(UndeclaredClass(cs[i].parent.value));
        }
        i := i + 1;
      }
      assert cs[i..] == [];
      assert MissingParent(cs, classTable.Keys).None?;
      i := 0;
      while i < |cs|
        invariant 0 <= i <= |cs|
        invariant AddClasses(Built(classTable, hasMain), cs[i..]) == Build(cs)
      {
        assert cs[i..][0] == cs[i] && cs[i..][1..] == cs[i + 1..];
        // the entry pass one registered for this class: its parent and no members yet
        var entry, sawMain := EnterMembers(ClassInfo(cs[i].parent, map[], map[]), cs[i].name, cs[i].members);
        hasMain := hasMain || sawMain;
        if entry.Fail? {
          return Some(entry.diag);
        }
        classTable := classTable[cs[i].name := entry.value];
        i := i + 1;
      }
      assert cs[i..] == [];
      raised := None;
    }

    // -------------------------------------------------------------------
    // Expressions
    // -------------------------------------------------------------------

    /** `visit` on an expression: its type, with what the typing emitted appended to `errors`. */
    method VisitExpr(e: Expr) returns (t: Type, raised: Option<Diag>)
      modifies this`errors
      ensures errors == old(errors) + TypeOf(ExprEnv(), e).log
      ensures Yields(TypeOf(ExprEnv(), e), t, raised)
    {
      if e.Postfix? {
        t, raised := VisitPostfix(e);
        return;
      }
      var r := TypeOf(ExprEnv(), e);
      errors := errors + r.log;
      if r.Raised? {
        return ErrorT, Some(r.diag);
      }
      return r.value, None;
    }

    /**
     * `visitPostfixExpression`: the primary typed, then the current type
     * rebound by each operation in turn until one of them fails.
     */
    method VisitPostfix(e: Expr) returns (t: Type, raised: Option<Diag>)
      requires e.Postfix?
      modifies this`errors
      ensures errors == old(errors) + TypeOf(ExprEnv(), e).log
      ensures Yields(TypeOf(ExprEnv(), e), t, raised)
    {
      var p := TypeOf(ExprEnv(), e.primary);
      errors := errors + p.log;
      if p.Raised? {
        return ErrorT, Some(p.diag);
      }
      if p.value == ErrorT {
        return ErrorT, None;
      }
      t, raised := VisitOps(e, p.value);
      Assoc(old(errors), p.log, PostfixFrom(ExprEnv(), e, p.value, e.ops).log);
    }

    /** The postfix operations of `e` applied in order, from a value of type `cur`. */
    method VisitOps(e: Expr, cur: Type) returns (t: Type, raised: Option<Diag>)
      requires e.Postfix?
      modifies this`errors
      ensures errors == old(errors) + PostfixFrom(ExprEnv(), e, cur, e.ops).log
      ensures Yields(PostfixFrom(ExprEnv(), e, cur, e.ops), t, raised)
    {
      var env := ExprEnv();
      ghost var target := After(errors, PostfixFrom(env, e, cur, e.ops));
      assert e.ops[0..] == e.ops;
      t := cur;
      var i := 0;
      while i < |e.ops|
        invariant 0 <= i <= |e.ops|
        invariant After(errors, PostfixFrom(env, e, t, e.ops[i..])) == target
      {
        assert e.ops[i..][0] == e.ops[i] && e.ops[i..][1..] == e.ops[i + 1..];
        var step := PostfixStep(env, e, t, e.ops[i]);
        if step.Raised? {
          errors := errors + step.log;
          return ErrorT, Some(step.diag);
        }
        if step.value.None? {
          errors := errors + step.log;
          return ErrorT, None;
        }
        AfterAfter(errors, step.log, PostfixFrom(env, e, step.value.value, e.ops[i + 1..]));
        errors := errors + step.log;
        t := step.value.value;
        i := i + 1;
      }
      assert e.ops[i..] == [];
      assert errors + [] == errors;
      return t, None;
    }

    // -------------------------------------------------------------------
    // Statements
    // -------------------------------------------------------------------

    /**
     * `visit` on a statement. Unless it raises, a statement leaves the
     * scope stack and the loop depth as it found them.
     */
    method VisitStmt(s: Stmt) returns (raised: Option<Diag>)
      modifies this`errors, this`scopes, this`loopDepth
      ensures old(errors) <= errors
      ensures raised.None? ==> scopes == old(scopes) && loopDepth == old(loopDepth)
      decreases s, 1
    {
      match s
      case Block(_, _) => raised := VisitBlock(s);
      case Assign(_, _) => raised := VisitAssign(s);
      case If(_, _, _) => raised := VisitIf(s);
      case For(_, _, _, _) => raised := VisitFor(s);
      case Break => VisitJump(s); raised := None;
      case Continue => VisitJump(s); raised := None;
      case Return(_) => raised := VisitReturn(s);
      case Invoke(_) => raised := VisitInvoke(s);
    }

    /** `visitBlockStatement`: a scope of its own, its declarations, then its statements. */
    method VisitBlock(s: Stmt) returns (raised: Option<Diag>)
      requires s.Block?
      modifies this`errors, this`scopes, this`loopDepth
      ensures old(errors) <= errors
      ensures raised.None? ==> scopes == old(scopes) && loopDepth == old(loopDepth)
      decreases s, 0
    {
      EnterScope();
      var n := |old(scopes)|;
      var i := 0;
      while i < |s.decls|
        invariant 0 <= i <= |s.decls|
        invariant |scopes| == n + 1 && scopes[..n] == old(scopes)
        invariant loopDepth == old(loopDepth) && old(errors) <= errors
      {
        VarDeclKeepsOuter(ExprEnv(), s.decls[i], s.decls[i].vars);
        raised := VisitVarDecl(s.decls[i]);
        if raised.Some? {
          return;
        }
        i := i + 1;
      }
      i := 0;
      while i < |s.stmts|
        invariant 0 <= i <= |s.stmts|
        invariant |scopes| == n + 1 && scopes[..n] == old(scopes)
        invariant loopDepth == old(loopDepth) && old(errors) <= errors
      {
        raised := VisitStmt(s.stmts[i]);
        if raised.Some? {
          return;
        }
        i := i + 1;
      }
      ExitScope();
      raised := None;
    }

    /** `visitAssignmentStatement`: the right-hand side first, then the target. */
    method VisitAssign(s: Stmt) returns (raised: Option<Diag>)
      requires s.Assign?
      modifies this`errors
      ensures errors == old(errors) + AssignOutcome(ExprEnv(), currentMethod, s).log
      ensures Ends(AssignOutcome(ExprEnv(), currentMethod, s), raised)
    {
      var rt, r := VisitExpr(s.rhs);
      if r.Some? {
        return r;
      }
      raised := VisitTarget(s, rt);
      Assoc(old(errors), TypeOf(ExprEnv(), s.rhs).log, TargetOutcome(ExprEnv(), currentMethod, s, rt).log);
    }

    /** The target of an assignment whose right-hand side has type `rt`. */
    method VisitTarget(s: Stmt, rt: Type) returns (raised: Option<Diag>)
      requires s.Assign?
      modifies this`errors
      ensures errors == old(errors) + TargetOutcome(ExprEnv(), currentMethod, s, rt).log
      ensures Ends(TargetOutcome(ExprEnv(), currentMethod, s, rt), raised)
    {
      if s.lhs.IdLhs? {
        VisitIdTarget(s, rt);
        return None;
      }
      raised := VisitPostfixTarget(s, rt);
    }

    /** A plain name as target. */
    method VisitIdTarget(s: Stmt, rt: Type)
      requires s.Assign? && s.lhs.IdLhs?
      modifies this`errors
      ensures errors == old(errors) + IdTargetLog(ExprEnv(), currentMethod, s, rt)
    {
      var x := s.lhs.name;
      var sym := Lookup(x);
      if sym.Some? {
        if sym.value.isFinal {
          Emit(CannotAssignToConstant(s));
        }
        if !Compatible(classTable, sym.value.ty, rt) {
          Emit(TypeMismatchInStatement(StmtNode(s)));
        }
        return;
      }
      if currentClass.None? {
        Emit(UndeclaredIdentifier(x));
        return;
      }
      var a := LookupInClassAttrs(currentClass.value, x);
      if a.None? {
        Emit(UndeclaredIdentifier(x));
        return;
      }
      if a.value.isFinal && currentMethod != currentClass {
        Emit(CannotAssignToConstant(s));
      }
      if !Compatible(classTable, a.value.ty, rt) {
        Emit(TypeMismatchInStatement(StmtNode(s)));
      }
    }

    /** A postfix expression as target. */
    method VisitPostfixTarget(s: Stmt, rt: Type) returns (raised: Option<Diag>)
      requires s.Assign? && s.lhs.PostfixLhs?
      modifies this`errors
      ensures errors == old(errors) + PostfixTargetOutcome(ExprEnv(), s, rt).log
      ensures Ends(PostfixTargetOutcome(ExprEnv(), s, rt), raised)
    {
      var lt, r := VisitExpr(s.lhs.target);
      if r.Some? {
        return r;
      }
      if !Compatible(classTable, lt, rt) {
        Emit(TypeMismatchInStatement(StmtNode(s)));
      }
      return None;
    }

    /** `visitIfStatement`: each branch in a scope of its own, once the condition is a boolean. */
    method VisitIf(s: Stmt) returns (raised: Option<Diag>)
      requires s.If?
      modifies this`errors, this`scopes, this`loopDepth
      ensures old(errors) + IfCondition(old(ExprEnv()), s).log <= errors
      ensures IfCondition(old(ExprEnv()), s).Raised? ==> raised == Some(IfCondition(old(ExprEnv()), s).diag)
      ensures IfCondition(old(ExprEnv()), s) == Done(false, IfCondition(old(ExprEnv()), s).log) ==>
        raised.None? && errors == old(errors) + IfCondition(old(ExprEnv()), s).log
      ensures raised.None? ==> scopes == old(scopes) && loopDepth == old(loopDepth)
      decreases s, 0
    {
      var t, r := VisitExpr(s.cond);
      if r.Some? {
        return r;
      }
      if t == ErrorT {
        return None;
      }
      if !IsBool(t) {
        Emit(TypeMismatchInStatement(StmtNode(s)));
        return None;
      }
      EnterScope();
      raised := VisitStmt(s.thenS);
      if raised.Some? {
        return;
      }
      ExitScope();
      if s.elseS.Some? {
        EnterScope();
        raised := VisitStmt(s.elseS.value);
        if raised.Some? {
          return;
        }
        ExitScope();
      }
    }

    /**
     * `visitForStatement`: one loop level deeper and a scope of its own,
     * holding the loop variable when no enclosing scope has it; then the
     * bounds, then the body.
     */
    method VisitFor(s: Stmt) returns (raised: Option<Diag>)
      requires s.For?
      modifies this`errors, this`scopes, this`loopDepth
      ensures var sc := old(scopes) + [map[]];
        var env1 := Expressions.Env(old(classTable), LoopVarScopes(sc, s.loopVar), old(currentClass));
        var b := BoundsOutcome(env1, s);
        && old(errors) + LoopVarLog(sc, s.loopVar, s) + b.log <= errors
        && (b.Raises? ==> raised == Some(b.diag) && errors == old(errors) + LoopVarLog(sc, s.loopVar, s) + b.log)
      ensures raised.None? ==> scopes == old(scopes) && loopDepth == old(loopDepth)
      decreases s, 0
    {
      loopDepth := loopDepth + 1;
      EnterScope();
      VisitLoopVar(s);
      raised := VisitBounds(s);
      if raised.Some? {
        return;
      }
      raised := VisitStmt(s.body);
      if raised.Some? {
        return;
      }
      ExitScope();
      loopDepth := loopDepth - 1;
    }

    /** The loop variable: an existing one must be an int, a missing one is declared as one. */
    method VisitLoopVar(s: Stmt)
      requires s.For? && |scopes| > 0 && scopes[|scopes| - 1] == map[]
      modifies this`errors, this`scopes
      ensures scopes == LoopVarScopes(old(scopes), s.loopVar)
      ensures |scopes| == |old(scopes)| && scopes[..|scopes| - 1] == old(scopes)[..|scopes| - 1]
      ensures errors == old(errors) + LoopVarLog(old(scopes), s.loopVar, s)
    {
      LoopVarRule(scopes, s.loopVar, s);
      var sym := Lookup(s.loopVar);
      if sym.None? {
        var r0 := DeclareLocal(s.loopVar, Prim(IntK), false);
      } else if !IsInt(sym.value.ty) {
        Emit(TypeMismatchInStatement(StmtNode(s)));
      }
    }

    /** The two bounds, typed in order; both must be ints. */
    method VisitBounds(s: Stmt) returns (raised: Option<Diag>)
      requires s.For?
      modifies this`errors
      ensures errors == old(errors) + BoundsOutcome(ExprEnv(), s).log
      ensures Ends(BoundsOutcome(ExprEnv(), s), raised)
    {
      var st, r1 := VisitExpr(s.start);
      if r1.Some? {
        return r1;
      }
      raised := VisitStop(s, st);
      Assoc(old(errors), TypeOf(ExprEnv(), s.start).log, StopOutcome(ExprEnv(), s, st).log);
    }

    /** The upper bound of a `for`, once the lower one has type `st`. */
    method VisitStop(s: Stmt, st: Type) returns (raised: Option<Diag>)
      requires s.For?
      modifies this`errors
      ensures errors == old(errors) + StopOutcome(ExprEnv(), s, st).log
      ensures Ends(StopOutcome(ExprEnv(), s, st), raised)
    {
      var et, r := VisitExpr(s.stop);
      if r.Some? {
        return r;
      }
      if !IsInt(st) || !IsInt(et) {
        Emit(TypeMismatchInStatement(StmtNode(s)));
      }
      return None;
    }

    /** `visitBreakStatement` and `visitContinueStatement`: only a loop may hold them. */
    method VisitJump(s: Stmt)
      modifies this`errors
      ensures errors == old(errors) + JumpLog(loopDepth, s)
    {
      if loopDepth == 0 {
        Emit(MustInLoop(s));
      }
    }

    /** `visitReturnStatement`, with a bare `return` accepted in a `void` method. */
    method VisitReturn(s: Stmt) returns (raised: Option<Diag>)
      requires s.Return?
      modifies this`errors
      ensures errors == old(errors) + ReturnOutcome(ExprEnv(), currentReturn, s).log
      ensures Ends(ReturnOutcome(ExprEnv(), currentReturn, s), raised)
    {
      if s.value.None? {
        if currentReturn.Some? && !IsVoidNamed(currentReturn.value) {
          Emit(TypeMismatchInStatement(StmtNode(s)));
        }
        return None;
      }
      var t, r := VisitExpr(s.value.value);
      if r.Some? {
        return r;
      }
      if currentReturn.None? || t == ErrorT {
        return None;
      }
      if s.value.value == NilLit {
        if !(IsClass(currentReturn.value) || IsArray(currentReturn.value)) {
          Emit(TypeMismatchInStatement(StmtNode(s)));
        }
        return None;
      }
      if !Compatible(classTable, currentReturn.value, t) {
        Emit(TypeMismatchInStatement(StmtNode(s)));
      }
      return None;
    }

    /** `visitMethodInvocationStatement`. */
    method VisitInvoke(s: Stmt) returns (raised: Option<Diag>)
      requires s.Invoke?
      modifies this`errors
      ensures errors == old(errors) + InvokeOutcome(ExprEnv(), s).log
      ensures Ends(InvokeOutcome(ExprEnv(), s), raised)
    {
      var t, r := VisitExpr(s.call);
      if r.Some? {
        return r;
      }
      if t != ErrorT && !IsVoidNamed(t) {
        Emit(TypeMismatchInStatement(StmtNode(s)));
      }
      return None;
    }

    // -------------------------------------------------------------------
    // Declarations
    // -------------------------------------------------------------------

    /** `visitVariableDecl` in the block whose scope is innermost. */
    method VisitVarDecl(d: VarDecl) returns (raised: Option<Diag>)
      requires |scopes| > 0
      modifies this`errors, this`scopes
      ensures scopes == VarDeclRun(old(ExprEnv()), d, d.vars).scopes
      ensures errors == old(errors) + VarDeclRun(old(ExprEnv()), d, d.vars).out.log
      ensures Ends(VarDeclRun(old(ExprEnv()), d, d.vars).out, raised)
    {
      // the loop's accumulator is the whole diagnostic list
      VarDeclFromRun(ExprEnv(), d, 0, errors);
      assert d.vars[0..] == d.vars;
      ghost var target := VarDeclFrom(ExprEnv(), d, 0, errors);
      var i := 0;
      while i < |d.vars|
        invariant 0 <= i <= |d.vars|
        invariant |scopes| > 0
        invariant VarDeclFrom(ExprEnv(), d, i, errors) == target
      {
        raised := DeclareVar(d, d.vars[i]);
        if raised.Some? {
          return;
        }
        i := i + 1;
      }
      raised := None;
    }

    /** One variable of a declaration: declared, then its initialiser checked. */
    method DeclareVar(d: VarDecl, v: VarInit) returns (raised: Option<Diag>)
      requires |scopes| > 0
      modifies this`errors, this`scopes
      ensures scopes == VarStep(old(ExprEnv()), d, v).scopes
      ensures errors == old(errors) + VarStep(old(ExprEnv()), d, v).out.log
      ensures Ends(VarStep(old(ExprEnv()), d, v).out, raised)
    {
      raised := DeclareLocal(v.name, d.ty, d.isFinal);
      if raised.Some? || v.init.None? {
        return;
      }
      raised := VisitVarInit(d, v.init.value);
    }

    /** `visitAttributeDecl`: each initialiser typed and checked against the declared type. */
    method VisitAttrDecl(a: AttrDecl) returns (raised: Option<Diag>)
      modifies this`errors
      ensures errors == old(errors) + AttrDeclOutcome(ExprEnv(), a, a.attrs).log
      ensures Ends(AttrDeclOutcome(ExprEnv(), a, a.attrs), raised)
    {
      // the loop's accumulator is the whole diagnostic list
      AttrDeclFromOutcome(ExprEnv(), a, 0, errors);
      assert a.attrs[0..] == a.attrs;
      ghost var target := AttrDeclFrom(ExprEnv(), a, 0, errors);
      var i := 0;
      while i < |a.attrs|
        invariant 0 <= i <= |a.attrs|
        invariant AttrDeclFrom(ExprEnv(), a, i, errors) == target
      {
        if a.attrs[i].init.Some? {
          raised := VisitAttrInit(a, a.attrs[i].init.value);
          if raised.Some? {
            return;
          }
        }
        i := i + 1;
      }
      raised := None;
    }

    /** One variable's initialiser: every violation is raised. */
    method VisitVarInit(d: VarDecl, e: Expr) returns (raised: Option<Diag>)
      modifies this`errors
      ensures errors == old(errors) + InitOutcome(ExprEnv(), d, e).log
      ensures Ends(InitOutcome(ExprEnv(), d, e), raised)
    {
      var t, r := VisitExpr(e);
      if r.Some? {
        return r;
      }
      if d.isFinal && NonConstant(e) {
        return Some(IllegalConstantExpression(e));
      }
      if !Compatible(classTable, d.ty, t) {
        return Some(if d.isFinal then TypeMismatchInConstant(VarDeclNode(d)) else TypeMismatchInStatement(VarDeclNode(d)));
      }
      return None;
    }

    /** One attribute's initialiser: every violation is emitted. */
    method VisitAttrInit(a: AttrDecl, e: Expr) returns (raised: Option<Diag>)
      modifies this`errors
      ensures errors == old(errors) + AttrInitOutcome(ExprEnv(), a, e).log
      ensures Ends(AttrInitOutcome(ExprEnv(), a, e), raised)
    {
      var t, r := VisitExpr(e);
      if r.Some? {
        return r;
      }
      if a.isFinal {
        if NonConstant(e) {
          Emit(IllegalConstantExpression(e));
        }
        if t != ErrorT && !Compatible(classTable, a.ty, t) {
          Emit(TypeMismatchInConstant(AttrDeclNode(a)));
        }
      } else if t != ErrorT && !Compatible(classTable, a.ty, t) {
        Emit(TypeMismatchInStatement(AttrDeclNode(a)));
      }
      return None;
    }

    // -------------------------------------------------------------------
    // Members, classes, the program
    // -------------------------------------------------------------------

    /** `visitMethodDecl`: the parameters in a scope of their own, then the body, whose returns are checked against the declared type when there is one. */
    method VisitMethodDecl(m: MethodDecl) returns (raised: Option<Diag>)
      modifies this`errors, this`scopes, this`loopDepth, this`currentMethod, this`currentReturn
      ensures old(errors) + ParamsFrom(map[], m.params).log <= errors
      ensures raised.None? ==> scopes == old(scopes) && loopDepth == old(loopDepth)
      ensures raised.None? ==> currentMethod.None? && currentReturn.None?
    {
      currentMethod := Some(m.name);
      currentReturn := if m.ret == NoType then None else Some(m.ret);
      EnterScope();
      DeclareParams(m.params);
      raised := VisitStmt(m.body);
      if raised.Some? {
        return;
      }
      ExitScope();
      currentMethod := None;
      currentReturn := None;
    }

    /** `visitConstructorDecl` in class `cname`: like a method returning an object of the class. */
    method VisitCtor(k: CtorDecl, cname: string) returns (raised: Option<Diag>)
      modifies this`errors, this`scopes, this`loopDepth, this`currentMethod, this`currentReturn
      ensures old(errors) + ParamsFrom(map[], k.params).log <= errors
      ensures raised.None? ==> scopes == old(scopes) && loopDepth == old(loopDepth)
      ensures raised.None? ==> currentMethod.None? && currentReturn.None?
    {
      currentMethod := Some(k.name);
      currentReturn := Some(ClassT(cname));
      EnterScope();
      DeclareParams(k.params);
      raised := VisitStmt(k.body);
      if raised.Some? {
        return;
      }
      ExitScope();
      currentMethod := None;
      currentReturn := None;
    }

    /** `visitDestructorDecl`: no return type is checked inside. */
    method VisitDtor(dt: DtorDecl) returns (raised: Option<Diag>)
      modifies this`errors, this`scopes, this`loopDepth, this`currentMethod, this`currentReturn
      ensures old(errors) <= errors
      ensures raised.None? ==> scopes == old(scopes) && loopDepth == old(loopDepth)
      ensures raised.None? ==> currentMethod.None? && currentReturn.None?
    {
      currentMethod := Some(dt.name);
      currentReturn := None;
      EnterScope();
      raised := VisitStmt(dt.body);
      if raised.Some? {
        return;
      }
      ExitScope();
      currentMethod := None;
      currentReturn := None;
    }

    /** A member of class `cname`, sent to its visitor. */
    method VisitMember(cname: string, m: Member) returns (raised: Option<Diag>)
      modifies this`errors, this`scopes, this`loopDepth, this`currentMethod, this`currentReturn
      ensures old(errors) <= errors
      ensures raised.None? ==> scopes == old(scopes) && loopDepth == old(loopDepth)
    {
      match m
      case AttrMember(a) => raised := VisitAttrDecl(a);
      case MethodMember(md) => raised := VisitMethodDecl(md);
      case CtorMember(k) => raised := VisitCtor(k, cname);
      case DtorMember(dt) => raised := VisitDtor(dt);
    }

    /** `visitClassDecl`: the members in a scope where `this` is a final object of the class. */
    method VisitClassDecl(c: ClassDecl) returns (raised: Option<Diag>)
      modifies this`errors, this`scopes, this`loopDepth, this`currentClass, this`currentMethod, this`currentReturn
      ensures old(errors) <= errors
      ensures raised.None? ==> scopes == old(scopes) && loopDepth == old(loopDepth) && currentClass.None?
    {
      currentClass := Some(c.name);
      EnterScope();
      Bind("this", Symbol(ClassT(c.name), true));
      var n := |old(scopes)|;
      var i := 0;
      while i < |c.members|
        invariant 0 <= i <= |c.members|
        invariant |scopes| == n + 1 && scopes[..n] == old(scopes)
        invariant loopDepth == old(loopDepth) && old(errors) <= errors && currentClass == Some(c.name)
      {
        raised := VisitMember(c.name, c.members[i]);
        if raised.Some? {
          return;
        }
        i := i + 1;
      }
      ExitScope();
      currentClass := None;
      raised := None;
    }

    /**
     * `visitProgram`: on an empty table the table is built here and `IO`
     * added when no class has that name; then the classes are visited in a
     * global scope that binds `io` to a final `IO` object.
     */
    method VisitProgram(p: Program) returns (raised: Option<Diag>)
      modifies this
      ensures old(errors) <= errors
      ensures |old(classTable)| == 0 && Build(p.classes).Fail? ==> raised == Some(Build(p.classes).diag)
      ensures |old(classTable)| == 0 && Build(p.classes).Ok? ==>
        classTable == WithIO(Build(p.classes).value.table) && hasMain == Build(p.classes).value.hasMain
      ensures |old(classTable)| > 0 ==> classTable == old(classTable) && hasMain == old(hasMain)
      ensures raised.None? ==> scopes == old(scopes) && loopDepth == old(loopDepth)
    {
      if |classTable| == 0 {
        raised := BuildClassTable(p.classes);
        if raised.Some? {
          return;
        }
        if "IO" !in classTable {
          classTable := classTable["IO" := IOClass()];
        }
      }
      ghost var table := classTable;
      ghost var main := hasMain;
      EnterScope();
      Bind("io", Symbol(ClassT("IO"), true));
      var n := |old(scopes)|;
      var i := 0;
      while i < |p.classes|
        invariant 0 <= i <= |p.classes|
        invariant |scopes| == n + 1 && scopes[..n] == old(scopes)
        invariant loopDepth == old(loopDepth) && old(errors) <= errors
        invariant classTable == table && hasMain == main
      {
        raised := VisitClassDecl(p.classes[i]);
        if raised.Some? {
          return;
        }
        i := i + 1;
      }
      ExitScope();
      raised := None;
    }

    /**
     * `check`: no program is a missing entry point; otherwise the table is
     * built, the program visited, and a missing `static void main()`
     * reported last. `visited` is what the visit of the program emitted.
     */
    method Check(p: Option<Program>) returns (errs: seq<Diag>, raised: Option<Diag>, ghost visited: seq<Diag>)
      modifies this
      ensures errs == errors
      ensures p.None? ==> raised.None? && errors == old(errors) + [NoEntryPoint]
      ensures p.Some? && Build(p.value.classes).Fail? ==> raised == Some(Build(p.value.classes).diag) && errors == old(errors)
      ensures p.Some? && Build(p.value.classes).Ok? ==>
        classTable == Injected(Build(p.value.classes).value.table) && hasMain == Build(p.value.classes).value.hasMain
      ensures p.Some? && Build(p.value.classes).Ok? && raised.None? ==>
        errors == old(errors) + visited + (if hasMain then [] else [NoEntryPoint])
    {
      visited := [];
      if p.None? {
        Emit(NoEntryPoint);
        return errors, None, visited;
      }
      raised := BuildClassTable(p.value.classes);
      if raised.Some? {
        return errors, raised, visited;
      }
      ghost var built := Build(p.value.classes).value;
      assert |classTable| == 0 ==> Build(p.value.classes) == Ok(Built(classTable, hasMain));
      raised := VisitProgram(p.value);
      if raised.Some? {
        return errors, raised, visited;
      }
      visited := errors[|old(errors)|..];
      assert errors == old(errors) + visited;
      if !hasMain {
        Emit(NoEntryPoint);
      }
      errs := errors;
    }
  }

  /** The classes the first pass registers are the declared ones. */
  lemma BuildKeys(cs: seq<ClassDecl>)
    requires Build(cs).Ok?
    ensures Build(cs).value.table.Keys == Elems(ClassNames(cs))
  {
    BuildUnfold(cs);
    AddClassesKeys(Built(RegisterFrom(map[], cs).value, false), cs);
  }

  /**
   * `IO` joins the table exactly when the program declares no class; the
   * table the first pass builds holds exactly the declared classes (see
   * `BuildKeys`).
   */
  lemma IOInjectedOnlyWithoutClasses(cs: seq<ClassDecl>, t: Table)
    requires t.Keys == Elems(ClassNames(cs))
    ensures Injected(t) == if |cs| == 0 then map["IO" := IOClass()] else t
  {
    DeclaredTableNonEmpty(cs, t);
    if |cs| == 0 {
      InjectedCases(t);
    } else {
      InjectedCases(t);
    }
  }

  /** The table is empty exactly when no class is declared. */
  lemma DeclaredTableNonEmpty(cs: seq<ClassDecl>, t: Table)
    requires t.Keys == Elems(ClassNames(cs))
    ensures |t| == 0 <==> |cs| == 0
  {
    ElemsEmpty(ClassNames(cs));
    assert |t| == |t.Keys|;
  }

  lemma InjectedCases(t: Table)
    ensures |t| == 0 ==> Injected(t) == map["IO" := IOClass()]
    ensures |t| > 0 ==> Injected(t) == t
  {
  }

  /**
   * A call through the global `io` object. Without an `IO` class in the
   * table it is an undeclared method; with the built-in one it reaches a
   * static method through an instance, which is an illegal member access.
   */
  lemma IOCallThroughInstance(env: Env, f: string, args: seq<Expr>)
    requires LookupIn(env.scopes, "io") == Some(Symbol(ClassT("IO"), true))
    requires TypeOfList(env, args).Done?
    ensures var e := Postfix(Ident("io"), [CallOp(f, args)]);
      "IO" !in env.table ==>
        TypeOf(env, e) == Done(ErrorT, TypeOfList(env, args).log + [UndeclaredMethod(f)])
    ensures var e := Postfix(Ident("io"), [CallOp(f, args)]);
      "IO" in env.table && env.table["IO"] == IOClass() && f in IOClass().methods ==>
        TypeOf(env, e) == Done(ErrorT, TypeOfList(env, args).log + [IllegalMemberAccess(e)])
  {
    var e := Postfix(Ident("io"), [CallOp(f, args)]);
    var l := TypeOfList(env, args).log;
    assert TypeOf(env, Ident("io")) == Done(ClassT("IO"), []);
    var step := PostfixStep(env, e, ClassT("IO"), CallOp(f, args));
    if "IO" !in env.table {
      assert step == Done(None, l + [UndeclaredMethod(f)]);
    }
    if "IO" in env.table && env.table["IO"] == IOClass() && f in IOClass().methods {
      assert FindMethod(env.table, "IO", f) == Some(IOClass().methods[f]);
      assert step == Done(None, l + [IllegalMemberAccess(e)]);
    }
    assert TypeOf(env, e) == After([], PostfixFrom(env, e, ClassT("IO"), [CallOp(f, args)]));
    assert [] + step.log == step.log;
  }

  lemma AfterAfter<T>(a: seq<Diag>, b: seq<Diag>, r: Eval<T>)
    ensures After(a, After(b, r)) == After(a + b, r)
  {
    assert a + (b + r.log) == (a + b) + r.log;
  }


}
