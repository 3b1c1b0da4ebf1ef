/** What substitution does to every type a method writes: it composes, and it finishes where it reaches. */
module SubstitutionLaws {
  import opened Wrappers
  import opened TypeRefs
  import opened TypedTrees
  import opened TypeSubstitution

  // ----- Composition -----

  lemma {:induction false} OptRefComposes(t: Option<TypeRef>, f: Subst, g: Subst)
    ensures SubstOptRef(SubstOptRef(t, f), g) == SubstOptRef(t, Compose(f, g))
  {
    if t.Some? { RefComposes(t.value, f, g); }
  }

  lemma {:induction false} OptComposes(e: Option<Expr>, f: Subst, g: Subst)
    ensures SubstOpt(SubstOpt(e, f), g) == SubstOpt(e, Compose(f, g))
    decreases e, 1
  {
    if e.Some? { ExprComposes(e.value, f, g); }
  }

  lemma {:induction false} ParamsCompose(ps: seq<Param>, f: Subst, g: Subst)
    ensures SubstParams(SubstParams(ps, f), g) == SubstParams(ps, Compose(f, g))
    decreases ps, 1
  {
    if ps != [] {
      OptRefComposes(ps[0].ty, f, g);
      OptComposes(ps[0].default, f, g);
      ParamsCompose(ps[1..], f, g);
    }
  }

  lemma {:induction false} ExprsCompose(es: seq<Expr>, f: Subst, g: Subst)
    ensures SubstExprs(SubstExprs(es, f), g) == SubstExprs(es, Compose(f, g))
    decreases es, 1
  {
    if es != [] { ExprComposes(es[0], f, g); ExprsCompose(es[1..], f, g); }
  }

  lemma {:induction false} BodyComposes(b: ClosureBody, f: Subst, g: Subst)
    ensures SubstBody(SubstBody(b, f), g) == SubstBody(b, Compose(f, g))
    decreases b, 1
  {
    match b
    case Arrow(e) => ExprComposes(e, f, g);
    case Block(stmts) => StmtsCompose(stmts, f, g);
  }

  lemma {:induction false} ArmComposes(a: MatchArm, f: Subst, g: Subst)
    ensures SubstArm(SubstArm(a, f), g) == SubstArm(a, Compose(f, g))
    decreases a, 1
  {
    OptComposes(a.guard, f, g);
    BodyComposes(a.body, f, g);
  }

  lemma {:induction false} ArmsCompose(arms: seq<MatchArm>, f: Subst, g: Subst)
    ensures SubstArms(SubstArms(arms, f), g) == SubstArms(arms, Compose(f, g))
    decreases arms, 1
  {
    if arms != [] { ArmComposes(arms[0], f, g); ArmsCompose(arms[1..], f, g); }
  }

  lemma {:induction false} ExprComposes(e: Expr, f: Subst, g: Subst)
    ensures SubstExpr(SubstExpr(e, f), g) == SubstExpr(e, Compose(f, g))
    decreases e, 1
  {
    match e
    case Int(_) =>
    case Ident(_) =>
    case Member(r, _) => ExprComposes(r, f, g);
    case Binary(l, r) => ExprComposes(l, f, g); ExprComposes(r, f, g);
    case Await(x) => ExprComposes(x, f, g);
    case Call(callee, args) => ExprComposes(callee, f, g); ExprsCompose(args, f, g);
    case Match(s, arms) => ExprComposes(s, f, g); ArmsCompose(arms, f, g);
    case _ => TypedExprComposes(e, f, g);
  }

  /** The expressions that write a type of their own. */
  lemma {:induction false} TypedExprComposes(e: Expr, f: Subst, g: Subst)
    requires e.As? || e.TypedCall? || e.TypedModuleCall? || e.Closure?
    ensures SubstExpr(SubstExpr(e, f), g) == SubstExpr(e, Compose(f, g))
    decreases e, 0, 1
  {
    match e
    case As(x, ty) => ExprComposes(x, f, g); RefComposes(ty, f, g);
    case Closure(params, ret, body) => ParamsCompose(params, f, g); OptRefComposes(ret, f, g); BodyComposes(body, f, g);
    case _ => TypedCallComposes(e, f, g);
  }

  lemma {:induction false} TypedCallComposes(e: Expr, f: Subst, g: Subst)
    requires e.TypedCall? || e.TypedModuleCall?
    ensures SubstExpr(SubstExpr(e, f), g) == SubstExpr(e, Compose(f, g))
    decreases e, 0, 0
  {
    ExprsCompose(e.args, f, g);
    if e.TypedCall? { RefsCompose(e.typeArgs, f, g); } else { RefComposes(e.ty, f, g); }
  }

  lemma {:induction false} StmtsCompose(ss: seq<Stmt>, f: Subst, g: Subst)
    ensures SubstStmts(SubstStmts(ss, f), g) == SubstStmts(ss, Compose(f, g))
    decreases ss, 1
  {
    if ss != [] { StmtComposes(ss[0], f, g); StmtsCompose(ss[1..], f, g); }
  }

  lemma {:induction false} StmtComposes(s: Stmt, f: Subst, g: Subst)
    ensures SubstStmt(SubstStmt(s, f), g) == SubstStmt(s, Compose(f, g))
    decreases s, 1
  {
    match s
    case ExprStmt(e) => ExprComposes(e, f, g);
    case Binding(_, ty, value) => OptRefComposes(ty, f, g); ExprComposes(value, f, g);
    case Return(v) => OptComposes(v, f, g);
    case If(c, t, e) => ExprComposes(c, f, g); StmtsCompose(t, f, g); StmtsCompose(e, f, g);
    case For(_, it, body) => ExprComposes(it, f, g); StmtsCompose(body, f, g);
    case FnStmt(_) =>
  }

  /** **Substitution composes.** Two passes over a method are one pass with the combined map. */
  lemma SubstitutionComposes(d: FnDecl, f: Subst, g: Subst)
    ensures SubstituteTypeParams(SubstituteTypeParams(d, f), g) == SubstituteTypeParams(d, Compose(f, g))
  {
    ParamsCompose(d.params, f, g);
    OptRefComposes(d.ret, f, g);
    StmtsCompose(d.body, f, g);
  }

  // ----- Use by use -----

  /** What a substitution makes of the types written: those the walk reaches are replaced, in place. */
  function SubstUses(us: seq<Use>, m: Subst): (r: seq<Use>)
    ensures |r| == |us|
    ensures forall i :: 0 <= i < |us| ==> r[i] == if us[i].walked then Use(SubstRef(us[i].ty, m), true) else us[i]
  {
    seq(|us|, i requires 0 <= i < |us| => if us[i].walked then Use(SubstRef(us[i].ty, m), true) else us[i])
  }

  lemma SubstUsesJoin(a: seq<Use>, b: seq<Use>, m: Subst)
    ensures SubstUses(a + b, m) == SubstUses(a, m) + SubstUses(b, m)
  {
  }

  lemma SubstUsesJoin3(a: seq<Use>, b: seq<Use>, c: seq<Use>, m: Subst)
    ensures SubstUses(a + b + c, m) == SubstUses(a, m) + SubstUses(b, m) + SubstUses(c, m)
  {
  }

  lemma SubstUnwalked(us: seq<Use>, m: Subst)
    ensures SubstUses(Unwalked(us), m) == Unwalked(us)
  {
  }

  lemma {:induction false} WalkedSubst(ts: seq<TypeRef>, m: Subst)
    ensures Walked(SubstRefs(ts, m)) == SubstUses(Walked(ts), m)
  {
    if ts != [] {
      WalkedSubst(ts[1..], m);
      assert Walked(ts) == [Use(ts[0], true)] + Walked(ts[1..]);
      assert Walked(SubstRefs(ts, m)) == [Use(SubstRef(ts[0], m), true)] + Walked(SubstRefs(ts[1..], m));
    }
  }

  lemma RefUseSubst(t: Option<TypeRef>, m: Subst)
    ensures RefUse(SubstOptRef(t, m)) == SubstUses(RefUse(t), m)
  {
  }

  lemma {:induction false} OptUsesSubst(e: Option<Expr>, m: Subst)
    ensures OptUses(SubstOpt(e, m)) == SubstUses(OptUses(e), m)
    decreases e, 1
  {
    if e.Some? { UsesSubst(e.value, m); }
  }

  lemma {:induction false} ParamUsesSubst(ps: seq<Param>, m: Subst)
    ensures ParamUses(SubstParams(ps, m)) == SubstUses(ParamUses(ps), m)
    decreases ps, 1
  {
    if ps != [] {
      RefUseSubst(ps[0].ty, m);
      OptUsesSubst(ps[0].default, m);
      ParamUsesSubst(ps[1..], m);
      SubstUsesJoin3(RefUse(ps[0].ty), OptUses(ps[0].default), ParamUses(ps[1..]), m);
    }
  }

  lemma {:induction false} ExprsUsesSubst(es: seq<Expr>, m: Subst)
    ensures ExprsUses(SubstExprs(es, m)) == SubstUses(ExprsUses(es), m)
    decreases es, 1
  {
    if es != [] {
      UsesSubst(es[0], m);
      ExprsUsesSubst(es[1..], m);
      SubstUsesJoin(Uses(es[0]), ExprsUses(es[1..]), m);
    }
  }

  lemma {:induction false} BodyUsesSubst(b: ClosureBody, m: Subst)
    ensures BodyUses(SubstBody(b, m)) == SubstUses(BodyUses(b), m)
    decreases b, 1
  {
    match b
    case Arrow(e) => UsesSubst(e, m);
    case Block(stmts) => StmtsUsesSubst(stmts, m);
  }

  lemma {:induction false} ArmUsesSubst(a: MatchArm, m: Subst)
    ensures ArmUses(SubstArm(a, m)) == SubstUses(ArmUses(a), m)
    decreases a, 1
  {
    SubstUnwalked(PatternUses(a.pattern), m);
    OptUsesSubst(a.guard, m);
    BodyUsesSubst(a.body, m);
    SubstUsesJoin3(Unwalked(PatternUses(a.pattern)), OptUses(a.guard), BodyUses(a.body), m);
  }

  lemma {:induction false} ArmsUsesSubst(arms: seq<MatchArm>, m: Subst)
    ensures ArmsUses(SubstArms(arms, m)) == SubstUses(ArmsUses(arms), m)
    decreases arms, 1
  {
    if arms != [] {
      ArmUsesSubst(arms[0], m);
      ArmsUsesSubst(arms[1..], m);
      SubstUsesJoin(ArmUses(arms[0]), ArmsUses(arms[1..]), m);
    }
  }

  lemma {:induction false} UsesSubst(e: Expr, m: Subst)
    ensures Uses(SubstExpr(e, m)) == SubstUses(Uses(e), m)
    decreases e, 1
  {
    match e
    case Int(_) =>
    case Ident(_) =>
    case Member(r, _) => UsesSubst(r, m);
    case Binary(l, r) =>
      UsesSubst(l, m);
      UsesSubst(r, m);
      SubstUsesJoin(Uses(l), Uses(r), m);
    case Await(x) => UsesSubst(x, m);
    case Call(callee, args) =>
      UsesSubst(callee, m);
      ExprsUsesSubst(args, m);
      SubstUsesJoin(Uses(callee), ExprsUses(args), m);
    case Match(s, arms) =>
      UsesSubst(s, m);
      ArmsUsesSubst(arms, m);
      SubstUsesJoin(Uses(s), ArmsUses(arms), m);
    case _ => TypedUsesSubst(e, m);
  }

  lemma {:induction false} TypedUsesSubst(e: Expr, m: Subst)
    requires e.As? || e.TypedCall? || e.TypedModuleCall? || e.Closure?
    ensures Uses(SubstExpr(e, m)) == SubstUses(Uses(e), m)
    decreases e, 0
  {
    match e
    case As(x, ty) =>
      UsesSubst(x, m);
      SubstUsesJoin(Uses(x), [Use(ty, true)], m);
    case TypedCall(_, typeArgs, args) =>
      WalkedSubst(typeArgs, m);
      ExprsUsesSubst(args, m);
      SubstUsesJoin(Walked(typeArgs), ExprsUses(args), m);
    case TypedModuleCall(r, ty, args) =>
      SubstUnwalked(Uses(r), m);
      ExprsUsesSubst(args, m);
      SubstUsesJoin3(Unwalked(Uses(r)), [Use(ty, true)], ExprsUses(args), m);
    case Closure(params, ret, body) =>
      ParamUsesSubst(params, m);
      RefUseSubst(ret, m);
      BodyUsesSubst(body, m);
      SubstUsesJoin3(ParamUses(params), RefUse(ret), BodyUses(body), m);
  }

  lemma {:induction false} StmtsUsesSubst(ss: seq<Stmt>, m: Subst)
    ensures StmtsUses(SubstStmts(ss, m)) == SubstUses(StmtsUses(ss), m)
    decreases ss, 1
  {
    if ss != [] {
      StmtUsesSubst(ss[0], m);
      StmtsUsesSubst(ss[1..], m);
      SubstUsesJoin(StmtUses(ss[0]), StmtsUses(ss[1..]), m);
    }
  }

  lemma {:induction false} StmtUsesSubst(s: Stmt, m: Subst)
    ensures StmtUses(SubstStmt(s, m)) == SubstUses(StmtUses(s), m)
    decreases s, 1
  {
    match s
    case ExprStmt(e) => UsesSubst(e, m);
    case Binding(_, ty, value) =>
      RefUseSubst(ty, m);
      UsesSubst(value, m);
      SubstUsesJoin(RefUse(ty), Uses(value), m);
    case Return(v) => OptUsesSubst(v, m);
    case If(c, t, e) =>
      UsesSubst(c, m);
      StmtsUsesSubst(t, m);
      StmtsUsesSubst(e, m);
      SubstUsesJoin3(Uses(c), StmtsUses(t), StmtsUses(e), m);
    case For(_, it, body) =>
      UsesSubst(it, m);
      StmtsUsesSubst(body, m);
      SubstUsesJoin(Uses(it), StmtsUses(body), m);
    case FnStmt(d) => SubstUnwalked(BoundUses(d.typeParams) + ParamUses(d.params) + RefUse(d.ret)
      + StmtsUses(d.body), m);
  }

  lemma {:induction false} BoundUsesSubst(ps: seq<TypeParam>, m: Subst)
    ensures SubstUses(BoundUses(ps), m) == BoundUses(ps)
  {
    if ps != [] {
      SubstUnwalked(Walked(ps[0].boundArgs), m);
      BoundUsesSubst(ps[1..], m);
      SubstUsesJoin(Unwalked(Walked(ps[0].boundArgs)), BoundUses(ps[1..]), m);
    }
  }

  /** **Every type written, one by one.** Substituting through a method replaces each type the walk
      reaches where it stands, and touches no other type. */
  lemma MethodUses(d: FnDecl, m: Subst)
    ensures FnUses(SubstituteTypeParams(d, m)) == SubstUses(FnUses(d), m)
  {
    BoundUsesSubst(d.typeParams, m);
    ParamUsesSubst(d.params, m);
    RefUseSubst(d.ret, m);
    StmtsUsesSubst(d.body, m);
    SubstUsesJoin3(BoundUses(d.typeParams), ParamUses(d.params), RefUse(d.ret), m);
    SubstUsesJoin(BoundUses(d.typeParams) + ParamUses(d.params) + RefUse(d.ret), StmtsUses(d.body), m);
  }

  // ----- Instantiating a trait -----

  datatype ArityError = TakesNoArguments | WrongCount(want: nat, got: nat)

  /** Parameters zipped with arguments; of two parameters with one name, the later counts. */
  function ParamMap(params: seq<TypeParam>, args: seq<TypeRef>): (m: Subst)
    requires |params| == |args|
    ensures forall k :: k in m <==> exists i :: 0 <= i < |params| && params[i].name == k
    ensures forall k :: k in m ==> m[k] in args
  {
    if params == [] then map[]
    else
      var last := |params| - 1;
      ParamMap(params[..last], args[..last])[params[last].name := args[last]]
  }

  function SubstMethods(ms: seq<TraitMethod>, m: Subst): (r: seq<TraitMethod>)
    ensures |r| == |ms|
    ensures forall i :: 0 <= i < |ms| ==> r[i] == TraitMethod(SubstituteTypeParams(ms[i].sig, m), ms[i].hasDefault)
  {
    seq(|ms|, i requires 0 <= i < |ms| => TraitMethod(SubstituteTypeParams(ms[i].sig, m), ms[i].hasDefault))
  }

  /** A generic trait at concrete arguments; nothing when there is nothing to instantiate. */
  function InstantiateTrait(tr: TraitDecl, args: seq<TypeRef>): Result<Option<TraitDecl>, ArityError> {
    if tr.typeParams == [] then (if args == [] then Ok(None) else Err(TakesNoArguments))
    else if |args| != |tr.typeParams| then Err(WrongCount(|tr.typeParams|, |args|))
    else Ok(Some(TraitDecl(tr.name, [], SubstMethods(tr.methods, ParamMap(tr.typeParams, args)))))
  }

  /** Whether a type among the uses (only those the walk misses, if asked) uses `k` bare. */
  ghost predicate UsesBare(us: seq<Use>, k: string, missedOnly: bool) {
    exists i :: 0 <= i < |us| && BareIn(us[i].ty, k) && (missedOnly ==> !us[i].walked)
  }

  ghost predicate IsParam(tr: TraitDecl, k: string) {
    exists i :: 0 <= i < |tr.typeParams| && tr.typeParams[i].name == k
  }

  /** The arguments use no parameter of the trait bare. */
  ghost predicate ArgsApart(tr: TraitDecl, args: seq<TypeRef>) {
    forall i, k :: 0 <= i < |args| && IsParam(tr, k) ==> !BareIn(args[i], k)
  }

  /** **What instantiation leaves of a parameter.** When the arguments use none of them, a parameter is
      still used bare in a method exactly where the walk does not go. */
  lemma InstantiationReaches(tr: TraitDecl, args: seq<TypeRef>, i: nat, k: string)
    requires i < |tr.methods| && IsParam(tr, k) && |args| == |tr.typeParams| && ArgsApart(tr, args)
    ensures InstantiateTrait(tr, args).Ok? && InstantiateTrait(tr, args).value.Some?
    ensures var c := InstantiateTrait(tr, args).value.value;
            && |c.methods| == |tr.methods|
            && (UsesBare(FnUses(c.methods[i].sig), k, false) <==> UsesBare(FnUses(tr.methods[i].sig), k, true))
  {
    var m := ParamMap(tr.typeParams, args);
    var us := FnUses(tr.methods[i].sig);
    MethodUses(tr.methods[i].sig, m);
    var after := SubstUses(us, m);
    forall j: nat | j < |us| && us[j].walked ensures !BareIn(after[j].ty, k) {
      BareAfter(us[j].ty, m, k);
      forall n | n in m ensures !Brings(m, n, k) { assert m[n] in args; }
    }
    if UsesBare(us, k, true) {
      var j :| 0 <= j < |us| && BareIn(us[j].ty, k) && !us[j].walked;
      assert BareIn(after[j].ty, k);
    }
  }

  /** The arity rules, and what a trait that is not generic instantiates to. */
  lemma InstantiationArity(tr: TraitDecl, args: seq<TypeRef>)
    ensures InstantiateTrait(tr, args).Ok? <==> |args| == |tr.typeParams|
    ensures InstantiateTrait(tr, args).Ok? ==> (InstantiateTrait(tr, args).value.None? <==> tr.typeParams == [])
  {
  }

  /** A type test in an arm's pattern keeps the parameter: `match x { is K => 0 }`. */
  lemma PatternKeepsParam()
    ensures var d := FnDecl("get", [], [], None, false,
      [ExprStmt(Match(Ident("x"), [MatchArm(IsType(Named("K", [], 0)), None, Arrow(Int(0)))]))]);
            var m: Subst := map["K" := Named("int", [], 0)];
            SubstituteTypeParams(d, m) == d && UsesBare(FnUses(d), "K", false)
  {
    var arm := MatchArm(IsType(Named("K", [], 0)), None, Arrow(Int(0)));
    var s := ExprStmt(Match(Ident("x"), [arm]));
    var d := FnDecl("get", [], [], None, false, [s]);
    var m: Subst := map["K" := Named("int", [], 0)];
    assert SubstArm(arm, m) == arm;
    assert SubstArms([arm], m) == [arm] + SubstArms([], m);
    assert SubstArms([arm], m) == [arm] && SubstExpr(Ident("x"), m) == Ident("x");
    assert SubstExpr(s.expr, m) == s.expr;
    assert SubstStmts([s], m) == [s] + SubstStmts([], m);
    assert ArmUses(arm) == [Use(Named("K", [], 0), false)];
    assert ArmsUses([arm]) == ArmUses(arm) + ArmsUses([]);
    assert StmtsUses([s]) == StmtUses(s) + StmtsUses([]);
    assert StmtUses(s) == Uses(s.expr) == Uses(Ident("x")) + ArmsUses([arm]);
    assert FnUses(d) == [] + [] + [] + StmtsUses([s]);
    assert FnUses(d)[0] == Use(Named("K", [], 0), false) && BareIn(Named("K", [], 0), "K");
  }

  // ----- A method's own type parameters -----

  function OwnNames(d: FnDecl): set<string> {
    set i | 0 <= i < |d.typeParams| :: d.typeParams[i].name
  }

  /** Replacing the trait's parameters and leaving the method's own alone gives the same type exactly
      when no name of its own that would be replaced is used bare. */
  lemma {:induction false} ShadowedRef(t: TypeRef, m: Subst, own: set<string>)
    requires forall k :: k in own && k in m ==> !(m[k].Named? && m[k].name == k)
    ensures SubstRef(t, m) == SubstRef(t, m - own) <==> forall k :: k in own && k in m ==> !BareIn(t, k)
    decreases t, 1
  {
    match t
    case Named(n, args, _) =>
      ShadowedRefs(args, m, own);
      if args == [] && n in own && n in m { assert BareIn(t, n); }
    case Optional(inner, _) => ShadowedRef(inner, m, own);
    case Union(members, _) => ShadowedRefs(members, m, own);
    case Tuple(elements, _) => ShadowedRefs(elements, m, own);
    case Fn(params, ret, _) => ShadowedRefs(params, m, own); ShadowedRef(ret, m, own);
    case _ =>
  }

  lemma {:induction false} ShadowedRefs(ts: seq<TypeRef>, m: Subst, own: set<string>)
    requires forall k :: k in own && k in m ==> !(m[k].Named? && m[k].name == k)
    ensures SubstRefs(ts, m) == SubstRefs(ts, m - own) <==> forall k :: k in own && k in m ==> !BareInAny(ts, k)
    decreases ts, 1
  {
    if ts != [] {
      var a, b := SubstRefs(ts, m), SubstRefs(ts, m - own);
      assert a[0] == SubstRef(ts[0], m) && a[1..] == SubstRefs(ts[1..], m);
      assert b[0] == SubstRef(ts[0], m - own) && b[1..] == SubstRefs(ts[1..], m - own);
      ShadowedRef(ts[0], m, own);
      ShadowedRefs(ts[1..], m, own);
    }
  }

  /** Two substitutions agree on the types the walk reaches. */
  ghost predicate AgreeOn(us: seq<Use>, f: Subst, g: Subst) {
    forall u :: u in us && u.walked ==> SubstRef(u.ty, f) == SubstRef(u.ty, g)
  }

  lemma {:induction false} SameRefs(ts: seq<TypeRef>, f: Subst, g: Subst)
    requires AgreeOn(Walked(ts), f, g)
    ensures SubstRefs(ts, f) == SubstRefs(ts, g)
  {
    if ts != [] {
      var us := Walked(ts);
      assert us[0] in us && us[0] == Use(ts[0], true);
      forall u | u in Walked(ts[1..]) ensures u in us {
        var i :| 0 <= i < |ts| - 1 && u == Walked(ts[1..])[i];
        assert us[i + 1] == u;
      }
      SameRefs(ts[1..], f, g);
    }
  }

  lemma SameOptRef(t: Option<TypeRef>, f: Subst, g: Subst)
    requires AgreeOn(RefUse(t), f, g)
    ensures SubstOptRef(t, f) == SubstOptRef(t, g)
  {
    if t.Some? { assert Use(t.value, true) in RefUse(t); }
  }

  lemma {:induction false} SameOpt(e: Option<Expr>, f: Subst, g: Subst)
    requires AgreeOn(OptUses(e), f, g)
    ensures SubstOpt(e, f) == SubstOpt(e, g)
    decreases e, 1
  {
    if e.Some? { SameExpr(e.value, f, g); }
  }

  lemma {:induction false} SameParams(ps: seq<Param>, f: Subst, g: Subst)
    requires AgreeOn(ParamUses(ps), f, g)
    ensures SubstParams(ps, f) == SubstParams(ps, g)
    decreases ps, 1
  {
    if ps != [] {
      SameOptRef(ps[0].ty, f, g);
      SameOpt(ps[0].default, f, g);
      SameParams(ps[1..], f, g);
    }
  }

  lemma {:induction false} SameExprs(es: seq<Expr>, f: Subst, g: Subst)
    requires AgreeOn(ExprsUses(es), f, g)
    ensures SubstExprs(es, f) == SubstExprs(es, g)
    decreases es, 1
  {
    if es != [] { SameExpr(es[0], f, g); SameExprs(es[1..], f, g); }
  }

  lemma {:induction false} SameBody(b: ClosureBody, f: Subst, g: Subst)
    requires AgreeOn(BodyUses(b), f, g)
    ensures SubstBody(b, f) == SubstBody(b, g)
    decreases b, 1
  {
    match b
    case Arrow(e) => SameExpr(e, f, g);
    case Block(stmts) => SameStmts(stmts, f, g);
  }

  lemma {:induction false} SameArm(a: MatchArm, f: Subst, g: Subst)
    requires AgreeOn(ArmUses(a), f, g)
    ensures SubstArm(a, f) == SubstArm(a, g)
    decreases a, 1
  {
    SameOpt(a.guard, f, g);
    SameBody(a.body, f, g);
  }

  lemma {:induction false} SameArms(arms: seq<MatchArm>, f: Subst, g: Subst)
    requires AgreeOn(ArmsUses(arms), f, g)
    ensures SubstArms(arms, f) == SubstArms(arms, g)
    decreases arms, 1
  {
    if arms != [] { SameArm(arms[0], f, g); SameArms(arms[1..], f, g); }
  }

  lemma {:induction false} SameExpr(e: Expr, f: Subst, g: Subst)
    requires AgreeOn(Uses(e), f, g)
    ensures SubstExpr(e, f) == SubstExpr(e, g)
    decreases e, 1
  {
    match e
    case Int(_) =>
    case Ident(_) =>
    case Member(r, _) => SameExpr(r, f, g);
    case Binary(l, r) => SameExpr(l, f, g); SameExpr(r, f, g);
    case Await(x) => SameExpr(x, f, g);
    case As(x, ty) => assert Use(ty, true) in Uses(e); SameExpr(x, f, g);
    case Call(callee, args) => SameExpr(callee, f, g); SameExprs(args, f, g);
    case TypedCall(_, typeArgs, args) => SameRefs(typeArgs, f, g); SameExprs(args, f, g);
    case TypedModuleCall(_, ty, args) => assert Use(ty, true) in Uses(e); SameExprs(args, f, g);
    case Closure(params, ret, body) => SameParams(params, f, g); SameOptRef(ret, f, g); SameBody(body, f, g);
    case Match(s, arms) => SameExpr(s, f, g); SameArms(arms, f, g);
  }

  lemma {:induction false} SameStmts(ss: seq<Stmt>, f: Subst, g: Subst)
    requires AgreeOn(StmtsUses(ss), f, g)
    ensures SubstStmts(ss, f) == SubstStmts(ss, g)
    decreases ss, 1
  {
    if ss != [] { SameStmt(ss[0], f, g); SameStmts(ss[1..], f, g); }
  }

  lemma {:induction false} SameStmt(s: Stmt, f: Subst, g: Subst)
    requires AgreeOn(StmtUses(s), f, g)
    ensures SubstStmt(s, f) == SubstStmt(s, g)
    decreases s, 1
  {
    match s
    case ExprStmt(e) => SameExpr(e, f, g);
    case Binding(_, ty, value) => SameOptRef(ty, f, g); SameExpr(value, f, g);
    case Return(v) => SameOpt(v, f, g);
    case If(c, t, e) => SameExpr(c, f, g); SameStmts(t, f, g); SameStmts(e, f, g);
    case For(_, it, body) => SameExpr(it, f, g); SameStmts(body, f, g);
    case FnStmt(_) =>
  }

  /** A substitution is settled by what it does to the types the walk reaches, and settles it. */
  lemma SettledByUses(d: FnDecl, f: Subst, g: Subst)
    ensures SubstituteTypeParams(d, f) == SubstituteTypeParams(d, g) <==> AgreeOn(FnUses(d), f, g)
  {
    if AgreeOn(FnUses(d), f, g) {
      SameParams(d.params, f, g);
      SameOptRef(d.ret, f, g);
      SameStmts(d.body, f, g);
    }
    MethodUses(d, f);
    MethodUses(d, g);
    if SubstituteTypeParams(d, f) == SubstituteTypeParams(d, g) {
      var us := FnUses(d);
      forall u | u in us && u.walked ensures SubstRef(u.ty, f) == SubstRef(u.ty, g) {
        var i :| 0 <= i < |us| && us[i] == u;
        assert SubstUses(us, f)[i] == SubstUses(us, g)[i];
      }
    }
  }

  /** **A method's own type parameters are not spared.** The walk replaces a trait parameter even where
      the method redeclares its name; it agrees with a walk that respects the redeclaration exactly
      when the method never uses such a name bare where the walk goes. */
  lemma OwnParametersReplaced(d: FnDecl, m: Subst)
    requires forall k :: k in OwnNames(d) && k in m ==> !(m[k].Named? && m[k].name == k)
    ensures SubstituteTypeParams(d, m) == SubstituteTypeParams(d, m - OwnNames(d)) <==>
            forall u, k :: u in FnUses(d) && u.walked && k in OwnNames(d) && k in m ==> !BareIn(u.ty, k)
  {
    SettledByUses(d, m, m - OwnNames(d));
    forall u | u in FnUses(d) && u.walked
      ensures SubstRef(u.ty, m) == SubstRef(u.ty, m - OwnNames(d)) <==>
        forall k :: k in OwnNames(d) && k in m ==> !BareIn(u.ty, k)
    {
      ShadowedRef(u.ty, m, OwnNames(d));
    }
  }

  /** A method `fn m<k>(x: k)` of a trait with a parameter `k` of its own: instantiating the trait turns
      the method's `k` into the trait's argument. */
  lemma OwnParameterLost(name: string, x: string, k: string, arg: TypeRef, span: Span)
    requires !(arg.Named? && arg.name == k)
    ensures var d := FnDecl(name, [TypeParam(k, [])], [Param(x, Some(Named(k, [], span)), None)], None, false, []);
            && SubstituteTypeParams(d, map[k := arg]).params == [Param(x, Some(arg), None)]
            && SubstituteTypeParams(d, map[k := arg] - OwnNames(d)) == d
  {
    var p := Param(x, Some(Named(k, [], span)), None);
    var d := FnDecl(name, [TypeParam(k, [])], [p], None, false, []);
    var m: Subst := map[k := arg];
    assert d.typeParams[0].name in OwnNames(d);
    assert [p][1..] == [];
    assert SubstParams([p], m) == [Param(x, Some(arg), None)] + SubstParams([], m);
    assert SubstParams([p], m - OwnNames(d)) == [p] + SubstParams([], m - OwnNames(d));
  }
}
