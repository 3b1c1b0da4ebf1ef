/** What instantiating a trait gives a method: each parameter its own argument, and the rest of it unchanged. */
module Instantiation {
  import opened Wrappers
  import opened TypeRefs
  import opened TypedTrees
  import opened TypeSubstitution
  import opened SubstitutionLaws

  // ----- With nothing to replace, a method is rebuilt as it was -----

  lemma {:induction false} OptUnreplaced(e: Option<Expr>)
    ensures SubstOpt(e, map[]) == e
    decreases e, 1
  {
    if e.Some? { ExprUnreplaced(e.value); }
  }

  lemma OptRefUnreplaced(t: Option<TypeRef>)
    ensures SubstOptRef(t, map[]) == t
  {
    if t.Some? { NothingReplaced(t.value); }
  }

  lemma {:induction false} ParamsUnreplaced(ps: seq<Param>)
    ensures SubstParams(ps, map[]) == ps
    decreases ps, 1
  {
    if ps != [] {
      OptRefUnreplaced(ps[0].ty);
      OptUnreplaced(ps[0].default);
      ParamsUnreplaced(ps[1..]);
    }
  }

  lemma {:induction false} ExprsUnreplaced(es: seq<Expr>)
    ensures SubstExprs(es, map[]) == es
    decreases es, 1
  {
    if es != [] { ExprUnreplaced(es[0]); ExprsUnreplaced(es[1..]); }
  }

  lemma {:induction false} BodyUnreplaced(b: ClosureBody)
    ensures SubstBody(b, map[]) == b
    decreases b, 1
  {
    match b
    case Arrow(e) => ExprUnreplaced(e);
    case Block(stmts) => StmtsUnreplaced(stmts);
  }

  lemma {:induction false} ArmUnreplaced(a: MatchArm)
    ensures SubstArm(a, map[]) == a
    decreases a, 1
  {
    OptUnreplaced(a.guard);
    BodyUnreplaced(a.body);
  }

  lemma {:induction false} ArmsUnreplaced(arms: seq<MatchArm>)
    ensures SubstArms(arms, map[]) == arms
    decreases arms, 1
  {
    if arms != [] { ArmUnreplaced(arms[0]); ArmsUnreplaced(arms[1..]); }
  }

  lemma {:induction false} ExprUnreplaced(e: Expr)
    ensures SubstExpr(e, map[]) == e
    decreases e, 1
  {
    match e
    case Int(_) =>
    case Ident(_) =>
    case Member(r, _) => ExprUnreplaced(r);
    case Binary(l, r) => ExprUnreplaced(l); ExprUnreplaced(r);
    case Await(x) => ExprUnreplaced(x);
    case As(x, ty) => ExprUnreplaced(x); NothingReplaced(ty);
    case Call(callee, args) => ExprUnreplaced(callee); ExprsUnreplaced(args);
    case TypedCall(_, typeArgs, args) => NothingReplacedAll(typeArgs); ExprsUnreplaced(args);
    case TypedModuleCall(_, ty, args) => NothingReplaced(ty); ExprsUnreplaced(args);
    case Closure(params, ret, body) => ParamsUnreplaced(params); OptRefUnreplaced(ret); BodyUnreplaced(body);
    case Match(s, arms) => ExprUnreplaced(s); ArmsUnreplaced(arms);
  }

  lemma {:induction false} StmtsUnreplaced(ss: seq<Stmt>)
    ensures SubstStmts(ss, map[]) == ss
    decreases ss, 1
  {
    if ss != [] { StmtUnreplaced(ss[0]); StmtsUnreplaced(ss[1..]); }
  }

  lemma {:induction false} StmtUnreplaced(s: Stmt)
    ensures SubstStmt(s, map[]) == s
    decreases s, 1
  {
    match s
    case ExprStmt(e) => ExprUnreplaced(e);
    case Binding(_, ty, value) => OptRefUnreplaced(ty); ExprUnreplaced(value);
    case Return(v) => OptUnreplaced(v);
    case If(c, t, e) => ExprUnreplaced(c); StmtsUnreplaced(t); StmtsUnreplaced(e);
    case For(_, it, body) => ExprUnreplaced(it); StmtsUnreplaced(body);
    case FnStmt(_) =>
  }

  /** No name is replaced by itself. */
  ghost predicate NoneByItself(m: Subst) {
    forall k :: k in m ==> !(m[k].Named? && m[k].name == k)
  }

  /** **When a method comes out as it went in**: exactly when the walk meets none of the replaced names bare. */
  lemma UntouchedIs(d: FnDecl, m: Subst)
    requires NoneByItself(m)
    ensures SubstituteTypeParams(d, map[]) == d
    ensures SubstituteTypeParams(d, m) == d <==>
            forall u, k :: u in FnUses(d) && u.walked && k in m ==> !BareIn(u.ty, k)
  {
    ParamsUnreplaced(d.params);
    OptRefUnreplaced(d.ret);
    StmtsUnreplaced(d.body);
    SettledByUses(d, m, map[]);
    assert m - m.Keys == map[];
    forall u | u in FnUses(d) && u.walked
      ensures SubstRef(u.ty, m) == SubstRef(u.ty, map[]) <==> forall k :: k in m ==> !BareIn(u.ty, k)
    {
      ShadowedRef(u.ty, m, m.Keys);
    }
  }

  // ----- Which argument a parameter gets -----

  /** The `i`-th parameter is the last of its name. */
  ghost predicate LastOfName(params: seq<TypeParam>, i: nat)
    requires i < |params|
  {
    forall j :: i < j < |params| ==> params[j].name != params[i].name
  }

  /** **A parameter stands for the argument in its place**; of two with one name, the later one counts. */
  lemma {:induction false} ParamMapAt(params: seq<TypeParam>, args: seq<TypeRef>, i: nat)
    requires |params| == |args| && i < |params| && LastOfName(params, i)
    ensures params[i].name in ParamMap(params, args) && ParamMap(params, args)[params[i].name] == args[i]
  {
    var last := |params| - 1;
    if i < last {
      assert params[last].name != params[i].name;
      forall j | i < j < last ensures params[..last][j].name != params[i].name {
        assert params[..last][j] == params[j];
      }
      ParamMapAt(params[..last], args[..last], i);
    }
  }

  /** **Where the walk goes, a bare parameter becomes its argument**: in the instantiated trait, the type in that
      place of that method is the argument in the parameter's place. */
  lemma ParameterBecomesArgument(tr: TraitDecl, args: seq<TypeRef>, i: nat, j: nat, p: nat, span: Span)
    requires |args| == |tr.typeParams| && p < |args| && LastOfName(tr.typeParams, p) && i < |tr.methods|
    requires j < |FnUses(tr.methods[i].sig)|
    requires FnUses(tr.methods[i].sig)[j] == Use(Named(tr.typeParams[p].name, [], span), true)
    ensures InstantiateTrait(tr, args).Ok? && InstantiateTrait(tr, args).value.Some?
    ensures var c := InstantiateTrait(tr, args).value.value;
            && |c.methods| == |tr.methods| && |FnUses(c.methods[i].sig)| == |FnUses(tr.methods[i].sig)|
            && FnUses(c.methods[i].sig)[j] == Use(args[p], true)
  {
    var m := ParamMap(tr.typeParams, args);
    ParamMapAt(tr.typeParams, args, p);
    MethodUses(tr.methods[i].sig, m);
  }

  /** `@derive(Cache<string, int>)` for a trait with parameters `k` and `v`: a method `fn get(x: k): v` takes the
      first argument and answers the second. */
  lemma TwoParameters(tr: TraitDecl, k: string, v: string, a: TypeRef, b: TypeRef, x: string, span: Span)
    requires k != v && tr.typeParams == [TypeParam(k, []), TypeParam(v, [])]
    requires tr.methods == [TraitMethod(FnDecl("get", [], [Param(x, Some(Named(k, [], span)), None)],
      Some(Named(v, [], span)), false, []), false)]
    ensures InstantiateTrait(tr, [a, b]) == Ok(Some(TraitDecl(tr.name, [],
      [TraitMethod(FnDecl("get", [], [Param(x, Some(a), None)], Some(b), false, []), false)])))
  {
    var m := ParamMap(tr.typeParams, [a, b]);
    ParamMapAt(tr.typeParams, [a, b], 0);
    ParamMapAt(tr.typeParams, [a, b], 1);
    var d := tr.methods[0].sig;
    var done := FnDecl("get", [], [Param(x, Some(a), None)], Some(b), false, []);
    assert d.params[1..] == [] && [a, b][0] == a && [a, b][1] == b;
    assert SubstParams(d.params, m) == [Param(x, Some(a), None)] + SubstParams([], m);
    assert SubstituteTypeParams(d, m) == done;
    assert SubstMethods(tr.methods, m) == [TraitMethod(done, false)];
  }
}
