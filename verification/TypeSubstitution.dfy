/** A generic trait's type parameters replaced through its methods' signatures and default bodies. */
module TypeSubstitution {
  import opened Wrappers
  import opened TypeRefs
  import opened TypedTrees

  type Subst = map<string, TypeRef>

  // ----- One type reference -----

  /** A bare parameter becomes its argument; everything else is rebuilt from its parts. */
  function SubstRef(t: TypeRef, m: Subst): TypeRef {
    match t
    case Named(n, args, span) => if args == [] && n in m then m[n] else Named(n, SubstRefs(args, m), span)
    case DynTrait(_, _) => t
    case AssocProjection(_, _) => t
    case Optional(inner, span) => Optional(SubstRef(inner, m), span)
    case Union(members, span) => Union(SubstRefs(members, m), span)
    case Tuple(elements, span) => Tuple(SubstRefs(elements, m), span)
    case Fn(params, ret, span) => Fn(SubstRefs(params, m), SubstRef(ret, m), span)
  }

  function SubstRefs(ts: seq<TypeRef>, m: Subst): (r: seq<TypeRef>)
    ensures |r| == |ts|
  {
    if ts == [] then [] else [SubstRef(ts[0], m)] + SubstRefs(ts[1..], m)
  }

  /** First `first`, then `second`, in one pass. */
  function Compose(first: Subst, second: Subst): Subst {
    second + map n | n in first :: SubstRef(first[n], second)
  }

  lemma {:induction false} RefComposes(t: TypeRef, f: Subst, g: Subst)
    ensures SubstRef(SubstRef(t, f), g) == SubstRef(t, Compose(f, g))
    decreases t, 1
  {
    match t
    case Named(n, args, _) => if !(args == [] && n in f) { RefsCompose(args, f, g); }
    case Optional(inner, _) => RefComposes(inner, f, g);
    case Union(members, _) => RefsCompose(members, f, g);
    case Tuple(elements, _) => RefsCompose(elements, f, g);
    case Fn(params, ret, _) => RefsCompose(params, f, g); RefComposes(ret, f, g);
    case _ =>
  }

  lemma {:induction false} RefsCompose(ts: seq<TypeRef>, f: Subst, g: Subst)
    ensures SubstRefs(SubstRefs(ts, f), g) == SubstRefs(ts, Compose(f, g))
    decreases ts, 1
  {
    if ts != [] {
      var r := SubstRefs(ts, f);
      assert r[0] == SubstRef(ts[0], f) && r[1..] == SubstRefs(ts[1..], f);
      RefComposes(ts[0], f, g);
      RefsCompose(ts[1..], f, g);
    }
  }

  /** With nothing to replace, a type is rebuilt as it was. */
  lemma {:induction false} NothingReplaced(t: TypeRef)
    ensures SubstRef(t, map[]) == t
    decreases t, 1
  {
    match t
    case Named(_, args, _) => NothingReplacedAll(args);
    case Optional(inner, _) => NothingReplaced(inner);
    case Union(members, _) => NothingReplacedAll(members);
    case Tuple(elements, _) => NothingReplacedAll(elements);
    case Fn(params, ret, _) => NothingReplacedAll(params); NothingReplaced(ret);
    case _ =>
  }

  lemma {:induction false} NothingReplacedAll(ts: seq<TypeRef>)
    ensures SubstRefs(ts, map[]) == ts
    decreases ts, 1
  {
    if ts != [] { NothingReplaced(ts[0]); NothingReplacedAll(ts[1..]); }
  }

  // ----- Bare uses -----

  /** Whether `k` is used bare (with no arguments of its own) in `t`. */
  predicate BareIn(t: TypeRef, k: string) {
    match t
    case Named(n, args, _) => (args == [] && n == k) || BareInAny(args, k)
    case DynTrait(_, _) => false
    case AssocProjection(_, _) => false
    case Optional(inner, _) => BareIn(inner, k)
    case Union(members, _) => BareInAny(members, k)
    case Tuple(elements, _) => BareInAny(elements, k)
    case Fn(params, ret, _) => BareInAny(params, k) || BareIn(ret, k)
  }

  predicate BareInAny(ts: seq<TypeRef>, k: string) {
    ts != [] && (BareIn(ts[0], k) || BareInAny(ts[1..], k))
  }

  /** `k` comes out of replacing `n` when `n` is replaced by something that uses `k`. */
  ghost predicate Brings(m: Subst, n: string, k: string) {
    n in m && BareIn(m[n], k)
  }

  /** **What a substitution leaves.** A name is used bare afterwards exactly when it was and is not
      replaced, or when a name that was used bare is replaced by something that uses it. */
  lemma {:induction false} BareAfter(t: TypeRef, m: Subst, k: string)
    ensures BareIn(SubstRef(t, m), k) <==> (k !in m && BareIn(t, k)) || exists n :: Brings(m, n, k) && BareIn(t, n)
    decreases t, 1
  {
    match t
    case Named(n, args, _) =>
      BareAfterAny(args, m, k);
      if args == [] && n in m && BareIn(m[n], k) { assert Brings(m, n, k) && BareIn(t, n); }
    case Optional(inner, _) => BareAfter(inner, m, k);
    case Union(members, _) => BareAfterAny(members, m, k);
    case Tuple(elements, _) => BareAfterAny(elements, m, k);
    case Fn(params, ret, _) => BareAfterAny(params, m, k); BareAfter(ret, m, k);
    case _ =>
  }

  lemma {:induction false} BareAfterAny(ts: seq<TypeRef>, m: Subst, k: string)
    ensures BareInAny(SubstRefs(ts, m), k) <==>
      (k !in m && BareInAny(ts, k)) || exists n :: Brings(m, n, k) && BareInAny(ts, n)
    decreases ts, 1
  {
    if ts != [] {
      var r := SubstRefs(ts, m);
      assert r[0] == SubstRef(ts[0], m) && r[1..] == SubstRefs(ts[1..], m);
      BareAfter(ts[0], m, k);
      BareAfterAny(ts[1..], m, k);
    }
  }

  // ----- Through expressions and statements -----

  function SubstOptRef(t: Option<TypeRef>, m: Subst): Option<TypeRef> {
    match t case None => None case Some(r) => Some(SubstRef(r, m))
  }

  function SubstOpt(e: Option<Expr>, m: Subst): Option<Expr> {
    match e case None => None case Some(x) => Some(SubstExpr(x, m))
  }

  function SubstParams(ps: seq<Param>, m: Subst): seq<Param> {
    if ps == [] then []
    else [Param(ps[0].name, SubstOptRef(ps[0].ty, m), SubstOpt(ps[0].default, m))] + SubstParams(ps[1..], m)
  }

  function SubstExprs(es: seq<Expr>, m: Subst): seq<Expr> {
    if es == [] then [] else [SubstExpr(es[0], m)] + SubstExprs(es[1..], m)
  }

  function SubstBody(b: ClosureBody, m: Subst): ClosureBody {
    match b
    case Arrow(e) => Arrow(SubstExpr(e, m))
    case Block(stmts) => Block(SubstStmts(stmts, m))
  }

  /** An arm's guard and body; its pattern is left as it is. */
  function SubstArm(a: MatchArm, m: Subst): MatchArm {
    MatchArm(a.pattern, SubstOpt(a.guard, m), SubstBody(a.body, m))
  }

  function SubstArms(arms: seq<MatchArm>, m: Subst): seq<MatchArm> {
    if arms == [] then [] else [SubstArm(arms[0], m)] + SubstArms(arms[1..], m)
  }

  function SubstExpr(e: Expr, m: Subst): Expr {
    match e
    case Int(_) => e
    case Ident(_) => e
    case Member(r, name) => Member(SubstExpr(r, m), name)
    case Binary(l, r) => Binary(SubstExpr(l, m), SubstExpr(r, m))
    case Await(x) => Await(SubstExpr(x, m))
    case As(x, ty) => As(SubstExpr(x, m), SubstRef(ty, m))
    case Call(callee, args) => Call(SubstExpr(callee, m), SubstExprs(args, m))
    case TypedCall(name, typeArgs, args) => TypedCall(name, SubstRefs(typeArgs, m), SubstExprs(args, m))
    case TypedModuleCall(r, ty, args) => TypedModuleCall(r, SubstRef(ty, m), SubstExprs(args, m))
    case Closure(params, ret, body) => Closure(SubstParams(params, m), SubstOptRef(ret, m), SubstBody(body, m))
    case Match(s, arms) => Match(SubstExpr(s, m), SubstArms(arms, m))
  }

  function SubstStmts(ss: seq<Stmt>, m: Subst): seq<Stmt> {
    if ss == [] then [] else [SubstStmt(ss[0], m)] + SubstStmts(ss[1..], m)
  }

  /** A nested declaration is left as it is. */
  function SubstStmt(s: Stmt, m: Subst): Stmt {
    match s
    case ExprStmt(e) => ExprStmt(SubstExpr(e, m))
    case Binding(name, ty, value) => Binding(name, SubstOptRef(ty, m), SubstExpr(value, m))
    case Return(v) => Return(SubstOpt(v, m))
    case If(c, t, e) => If(SubstExpr(c, m), SubstStmts(t, m), SubstStmts(e, m))
    case For(x, it, body) => For(x, SubstExpr(it, m), SubstStmts(body, m))
    case FnStmt(_) => s
  }

  /** A method's signature and body. */
  function SubstituteTypeParams(d: FnDecl, m: Subst): FnDecl {
    FnDecl(d.name, d.typeParams, SubstParams(d.params, m), SubstOptRef(d.ret, m), d.isAsync, SubstStmts(d.body, m))
  }

  // ----- Every type a method writes, and whether the walk reaches it -----

  datatype Use = Use(ty: TypeRef, walked: bool)

  function Walked(ts: seq<TypeRef>): (us: seq<Use>)
    ensures |us| == |ts| && forall i :: 0 <= i < |ts| ==> us[i] == Use(ts[i], true)
  {
    seq(|ts|, i requires 0 <= i < |ts| => Use(ts[i], true))
  }

  function Unwalked(us: seq<Use>): (r: seq<Use>)
    ensures |r| == |us| && forall i :: 0 <= i < |us| ==> r[i] == Use(us[i].ty, false)
  {
    seq(|us|, i requires 0 <= i < |us| => Use(us[i].ty, false))
  }

  function RefUse(t: Option<TypeRef>): seq<Use> {
    match t case None => [] case Some(r) => [Use(r, true)]
  }

  function OptUses(e: Option<Expr>): seq<Use> {
    match e case None => [] case Some(x) => Uses(x)
  }

  function ParamUses(ps: seq<Param>): seq<Use> {
    if ps == [] then [] else RefUse(ps[0].ty) + OptUses(ps[0].default) + ParamUses(ps[1..])
  }

  function ExprsUses(es: seq<Expr>): seq<Use> {
    if es == [] then [] else Uses(es[0]) + ExprsUses(es[1..])
  }

  function PatternUses(p: Pattern): seq<Use> {
    match p
    case Wildcard => []
    case BindName(_) => []
    case VariantPattern(_, bindings) => PatternsUses(bindings)
    case IsType(ty) => [Use(ty, false)]
  }

  function PatternsUses(ps: seq<Pattern>): seq<Use> {
    if ps == [] then [] else PatternUses(ps[0]) + PatternsUses(ps[1..])
  }

  function BodyUses(b: ClosureBody): seq<Use> {
    match b
    case Arrow(e) => Uses(e)
    case Block(stmts) => StmtsUses(stmts)
  }

  function ArmUses(a: MatchArm): seq<Use> {
    Unwalked(PatternUses(a.pattern)) + OptUses(a.guard) + BodyUses(a.body)
  }

  function ArmsUses(arms: seq<MatchArm>): seq<Use> {
    if arms == [] then [] else ArmUses(arms[0]) + ArmsUses(arms[1..])
  }

  function Uses(e: Expr): seq<Use> {
    match e
    case Int(_) => []
    case Ident(_) => []
    case Member(r, _) => Uses(r)
    case Binary(l, r) => Uses(l) + Uses(r)
    case Await(x) => Uses(x)
    case As(x, ty) => Uses(x) + [Use(ty, true)]
    case Call(callee, args) => Uses(callee) + ExprsUses(args)
    case TypedCall(_, typeArgs, args) => Walked(typeArgs) + ExprsUses(args)
    case TypedModuleCall(r, ty, args) => Unwalked(Uses(r)) + [Use(ty, true)] + ExprsUses(args)
    case Closure(params, ret, body) => ParamUses(params) + RefUse(ret) + BodyUses(body)
    case Match(s, arms) => Uses(s) + ArmsUses(arms)
  }

  function StmtsUses(ss: seq<Stmt>): seq<Use> {
    if ss == [] then [] else StmtUses(ss[0]) + StmtsUses(ss[1..])
  }

  function StmtUses(s: Stmt): seq<Use> {
    match s
    case ExprStmt(e) => Uses(e)
    case Binding(_, ty, value) => RefUse(ty) + Uses(value)
    case Return(v) => OptUses(v)
    case If(c, t, e) => Uses(c) + StmtsUses(t) + StmtsUses(e)
    case For(_, it, body) => Uses(it) + StmtsUses(body)
    case FnStmt(d) => Unwalked(BoundUses(d.typeParams) + ParamUses(d.params) + RefUse(d.ret) + StmtsUses(d.body))
  }

  /** Types written in the bounds of a method's own type parameters. */
  function BoundUses(ps: seq<TypeParam>): seq<Use> {
    if ps == [] then [] else Unwalked(Walked(ps[0].boundArgs)) + BoundUses(ps[1..])
  }

  function FnUses(d: FnDecl): seq<Use> {
    BoundUses(d.typeParams) + ParamUses(d.params) + RefUse(d.ret) + StmtsUses(d.body)
  }
}
