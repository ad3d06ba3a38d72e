/**
 * The abstract syntax the checker walks. The node classes themselves live
 * in the repository's `utils.nodes`, which is not part of this model; these
 * datatypes carry exactly the fields the checker reads.
 */
module Syntax {
  import opened Wrappers
  import opened Types

  datatype BinOp = Add | Sub | Mul | Div | IntDiv | Mod | Lt | Gt | Le | Ge | Eq | Ne | And | Or | Concat

  datatype UnOp = Plus | Minus | Not

  /**
   * Expressions. `Postfix` is the chain `primary.m.a[i].f(x)` the parser
   * produces; `MemberAccess`, `MethodCall` and `ArrayAccess` are the older
   * free-standing forms that the checker also has visitors for.
   */
  datatype Expr =
    | IntLit(i: int)
    | FloatLit
    | BoolLit(b: bool)
    | StringLit(s: string)
    | NilLit
    | Ident(name: string)
    | This
    | Paren(inner: Expr)
    | ArrayLit(elems: seq<Expr>)
    | Binary(op: BinOp, left: Expr, right: Expr)
    | Unary(uop: UnOp, operand: Expr)
    | New(cls: string, args: seq<Expr>)
    | Postfix(primary: Expr, ops: seq<PostfixOp>)
    | MemberAccess(obj: Expr, member: string)
    | MethodCall(obj: Expr, callee: string, args: seq<Expr>)
    | ArrayAccess(arr: Expr, index: Expr)

  datatype PostfixOp =
    | MemberOp(member: string)
    | IndexOp(index: Expr)
    | CallOp(callee: string, args: seq<Expr>)

  datatype Param = Param(name: string, ty: Type)

  /** One declared name with its optional initialiser (`Variable`, `Attribute`). */
  datatype VarInit = VarInit(name: string, init: Option<Expr>)

  datatype VarDecl = VarDecl(isFinal: bool, ty: Type, vars: seq<VarInit>)

  datatype Lhs = IdLhs(name: string) | PostfixLhs(target: Expr)

  datatype Stmt =
    | Block(decls: seq<VarDecl>, stmts: seq<Stmt>)
    | Assign(lhs: Lhs, rhs: Expr)
    | If(cond: Expr, thenS: Stmt, elseS: Option<Stmt>)
    | For(loopVar: string, start: Expr, stop: Expr, body: Stmt)
    | Break
    | Continue
    | Return(value: Option<Expr>)
    | Invoke(call: Expr)

  datatype AttrDecl = AttrDecl(isStatic: bool, isFinal: bool, ty: Type, attrs: seq<VarInit>)

  datatype MethodDecl = MethodDecl(isStatic: bool, ret: Type, name: string, params: seq<Param>, body: Stmt)

  datatype CtorDecl = CtorDecl(name: string, params: seq<Param>, body: Stmt)

  datatype DtorDecl = DtorDecl(name: string, body: Stmt)

  datatype Member =
    | AttrMember(attr: AttrDecl)
    | MethodMember(mdecl: MethodDecl)
    | CtorMember(ctor: CtorDecl)
    | DtorMember(dtor: DtorDecl)

  datatype ClassDecl = ClassDecl(name: string, parent: Option<string>, members: seq<Member>)

  datatype Program = Program(classes: seq<ClassDecl>)
}

/** The violations the checker raises or emits (`static_error`). */
module Diagnostics {
  import opened Syntax

  /**
   * The labels of `Redeclared` that the checker produces. The checker never
   * produces `Constant`, `Constructor` or `Destructor`: a final local
   * redeclared is labelled `Variable`, a second constructor or destructor
   * `Method`.
   */
  datatype DeclKind = ClassKind | AttributeKind | MethodKind | VariableKind | ParameterKind

  /** The node a statement-level diagnostic carries. */
  datatype Node = ExprNode(e: Expr) | StmtNode(s: Stmt) | VarDeclNode(d: VarDecl) | AttrDeclNode(a: AttrDecl)

  datatype Diag =
    | Redeclared(kind: DeclKind, name: string)
    | UndeclaredIdentifier(name: string)
    | UndeclaredClass(name: string)
    | UndeclaredAttribute(name: string)
    | UndeclaredMethod(name: string)
    | CannotAssignToConstant(stmt: Stmt)
    | TypeMismatchInStatement(node: Node)
    | TypeMismatchInExpression(expr: Expr)
    | TypeMismatchInConstant(node: Node)
    | MustInLoop(stmt: Stmt)
    | IllegalConstantExpression(expr: Expr)
    | IllegalArrayLiteral(expr: Expr)
    | IllegalMemberAccess(expr: Expr)
    | NoEntryPoint

  /** A computation that either yields a value or raises a violation. */
  datatype Result<T> = Ok(value: T) | Fail(diag: Diag)
}
