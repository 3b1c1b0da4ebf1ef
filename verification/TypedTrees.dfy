/** The part of the syntax tree that trait methods and derive plans are made of. */
module TypedTrees {
  import opened Wrappers
  import opened TypeRefs

  datatype Pattern =
    | Wildcard
    | BindName(name: string)
    | VariantPattern(variant: string, bindings: seq<Pattern>)
    | IsType(ty: TypeRef)

  datatype Param = Param(name: string, ty: Option<TypeRef>, default: Option<Expr>)
  datatype TypeParam = TypeParam(name: string, boundArgs: seq<TypeRef>)
  datatype ClosureBody = Arrow(expr: Expr) | Block(stmts: seq<Stmt>)
  datatype MatchArm = MatchArm(pattern: Pattern, guard: Option<Expr>, body: ClosureBody)

  datatype Expr =
    | Int(value: int)
    | Ident(name: string)
    | Member(receiver: Expr, member: string)
    | Binary(lhs: Expr, rhs: Expr)
    | Await(expr: Expr)
    | As(expr: Expr, ty: TypeRef)
    | Call(callee: Expr, args: seq<Expr>)
    | TypedCall(name: string, typeArgs: seq<TypeRef>, args: seq<Expr>)
    | TypedModuleCall(receiver: Expr, ty: TypeRef, args: seq<Expr>)
    | Closure(params: seq<Param>, ret: Option<TypeRef>, body: ClosureBody)
    | Match(scrutinee: Expr, arms: seq<MatchArm>)

  datatype Stmt =
    | ExprStmt(expr: Expr)
    | Binding(name: string, annotation: Option<TypeRef>, value: Expr)
    | Return(result: Option<Expr>)
    | If(cond: Expr, thenBody: seq<Stmt>, elseBody: seq<Stmt>)
    | For(variable: string, iterable: Expr, body: seq<Stmt>)
    | FnStmt(decl: FnDecl)

  datatype FnDecl = FnDecl(name: string, typeParams: seq<TypeParam>, params: seq<Param>, ret: Option<TypeRef>,
    isAsync: bool, body: seq<Stmt>)
  datatype TraitMethod = TraitMethod(sig: FnDecl, hasDefault: bool)
  datatype TraitDecl = TraitDecl(name: string, typeParams: seq<TypeParam>, methods: seq<TraitMethod>)
}
