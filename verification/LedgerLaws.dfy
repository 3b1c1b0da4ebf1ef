/** What the ledger holds: every declaration with a body that statement lists reach, once for each span. */
module LedgerLaws {
  import opened BodyLedger

  // ----- Which declarations own a body -----

  ghost predicate OwnsMethod(kind: BodyKind, owner: string, ms: seq<FnDecl>, x: BodySite) {
    exists i :: 0 <= i < |ms| && x == BodySite(kind, owner, ms[i].name, ms[i].nameSpan)
  }

  /** `x` is declared by `s` itself. */
  ghost predicate Owns(s: Stmt, x: BodySite) {
    match s
    case Fn(d) => x == BodySite(Function, "", d.name, d.nameSpan)
    case Class(name, span, _, methods, impls, destructor) =>
      OwnsMethod(Method, name, methods, x) || OwnsInImpl(name, impls, x)
      || (destructor.Block? && x == BodySite(Destructor, name, "destruct", span))
    case Struct(name, _, methods, impls) => OwnsMethod(Method, name, methods, x) || OwnsInImpl(name, impls, x)
    case Enum(name, _, methods, impls) => OwnsMethod(Method, name, methods, x) || OwnsInImpl(name, impls, x)
    case Impl(target, methods) => OwnsMethod(StandaloneImplMethod, target, methods, x)
    case Trait(name, ms) =>
      exists i :: 0 <= i < |ms| && ms[i].hasDefault
        && x == BodySite(TraitDefault, name, ms[i].sig.name, ms[i].sig.nameSpan)
    case _ => false
  }

  ghost predicate OwnsInImpl(owner: string, impls: seq<ImplBlock>, x: BodySite) {
    exists j :: 0 <= j < |impls| && OwnsMethod(Method, owner, impls[j].methods, x)
  }

  ghost predicate BodyOf(ms: seq<FnDecl>, l: seq<Stmt>) {
    exists i :: 0 <= i < |ms| && l == ms[i].body
  }

  ghost predicate BodyInImpl(impls: seq<ImplBlock>, l: seq<Stmt>) {
    exists j :: 0 <= j < |impls| && BodyOf(impls[j].methods, l)
  }

  /** `l` is a statement list of `s` itself. */
  ghost predicate Within(s: Stmt, l: seq<Stmt>) {
    match s
    case Fn(d) => l == d.body
    case Class(_, _, _, methods, impls, destructor) =>
      BodyOf(methods, l) || BodyInImpl(impls, l) || (destructor.Block? && l == destructor.stmts)
    case Struct(_, _, methods, impls) => BodyOf(methods, l) || BodyInImpl(impls, l)
    case Enum(_, _, methods, impls) => BodyOf(methods, l) || BodyInImpl(impls, l)
    case Impl(_, methods) => BodyOf(methods, l)
    case Trait(_, ms) => exists i :: 0 <= i < |ms| && ms[i].hasDefault && l == ms[i].sig.body
    case If(_, t, e) => l == t || (e.Block? && l == e.stmts)
    case Loop(_, body) => l == body
    case TierBlock(_) => false
    case Plain(_) => false
  }

  /** `t` is at most `n` statement lists deep in `ss`. */
  ghost predicate Reach(ss: seq<Stmt>, t: Stmt, n: nat)
    decreases n
  {
    n > 0 && (t in ss || exists s, l :: s in ss && Within(s, l) && Reach(l, t, n - 1))
  }

  /** Some statement that `ss` reaches declares `x`. */
  ghost predicate Declares(ss: seq<Stmt>, x: BodySite) {
    exists t, n: nat :: Reach(ss, t, n) && Owns(t, x)
  }

  // ----- The walk finds exactly those -----

  ghost predicate InBody(ms: seq<FnDecl>, x: BodySite) {
    exists i :: 0 <= i < |ms| && x in Sites(ms[i].body)
  }

  lemma {:induction false} MethodSitesAre(kind: BodyKind, owner: string, ms: seq<FnDecl>, x: BodySite)
    ensures x in MethodSites(kind, owner, ms) <==> OwnsMethod(kind, owner, ms, x) || InBody(ms, x)
  {
    if ms != [] {
      MethodSitesAre(kind, owner, ms[1..], x);
      if OwnsMethod(kind, owner, ms[1..], x) {
        var i :| 0 <= i < |ms| - 1 && x == BodySite(kind, owner, ms[1..][i].name, ms[1..][i].nameSpan);
        assert ms[i + 1] == ms[1..][i];
      }
      if InBody(ms[1..], x) {
        var i :| 0 <= i < |ms| - 1 && x in Sites(ms[1..][i].body);
        assert x in Sites(ms[i + 1].body);
      }
      if OwnsMethod(kind, owner, ms, x) && x != BodySite(kind, owner, ms[0].name, ms[0].nameSpan) {
        var i :| 0 <= i < |ms| && x == BodySite(kind, owner, ms[i].name, ms[i].nameSpan);
        assert ms[1..][i - 1] == ms[i];
      }
      if InBody(ms, x) && x !in Sites(ms[0].body) {
        var i :| 0 <= i < |ms| && x in Sites(ms[i].body);
        assert ms[1..][i - 1] == ms[i];
      }
    }
  }

  lemma {:induction false} ImplSitesAre(owner: string, impls: seq<ImplBlock>, x: BodySite)
    ensures x in ImplSites(owner, impls) <==>
      exists j :: 0 <= j < |impls| && x in MethodSites(Method, owner, impls[j].methods)
  {
    if impls != [] {
      var rest := impls[1..];
      ImplSitesAre(owner, rest, x);
      if j :| 0 <= j < |rest| && x in MethodSites(Method, owner, rest[j].methods) { assert impls[j + 1] == rest[j]; }
      if j :| 0 <= j < |impls| && x in MethodSites(Method, owner, impls[j].methods) {
        if j > 0 { assert rest[j - 1] == impls[j]; }
      }
    }
  }

  lemma {:induction false} DefaultSitesAre(owner: string, ms: seq<TraitMethod>, x: BodySite)
    ensures x in DefaultSites(owner, ms) <==> exists i :: 0 <= i < |ms| && x in DefaultSite(owner, ms[i])
  {
    if ms != [] {
      var rest := ms[1..];
      DefaultSitesAre(owner, rest, x);
      if i :| 0 <= i < |rest| && x in DefaultSite(owner, rest[i]) { assert ms[i + 1] == rest[i]; }
      if i :| 0 <= i < |ms| && x in DefaultSite(owner, ms[i]) {
        if i > 0 { assert rest[i - 1] == ms[i]; }
      }
    }
  }

  lemma {:induction false} SitesAre(ss: seq<Stmt>, x: BodySite)
    ensures x in Sites(ss) <==> exists s :: s in ss && x in StmtSites(s)
  {
    if ss != [] {
      SitesAre(ss[1..], x);
      if s :| s in ss && x in StmtSites(s) { assert s == ss[0] || s in ss[1..]; }
      if s :| s in ss[1..] && x in StmtSites(s) { assert s in ss; }
      if x in StmtSites(ss[0]) { assert ss[0] in ss; }
    }
  }

  /** A site found in a type's methods, inherent or in an impl block. */
  lemma TypeSitesAre(owner: string, methods: seq<FnDecl>, impls: seq<ImplBlock>, x: BodySite)
    ensures x in MethodSites(Method, owner, methods) + ImplSites(owner, impls) <==>
            OwnsMethod(Method, owner, methods, x) || OwnsInImpl(owner, impls, x)
            || exists l :: (BodyOf(methods, l) || BodyInImpl(impls, l)) && x in Sites(l)
  {
    MethodSitesAre(Method, owner, methods, x);
    ImplSitesAre(owner, impls, x);
    if InBody(methods, x) {
      var i :| 0 <= i < |methods| && x in Sites(methods[i].body);
      assert BodyOf(methods, methods[i].body);
    }
    forall j | 0 <= j < |impls|
      ensures x in MethodSites(Method, owner, impls[j].methods) <==>
        OwnsMethod(Method, owner, impls[j].methods, x) || InBody(impls[j].methods, x)
    {
      MethodSitesAre(Method, owner, impls[j].methods, x);
    }
    if j :| 0 <= j < |impls| && InBody(impls[j].methods, x) {
      var i :| 0 <= i < |impls[j].methods| && x in Sites(impls[j].methods[i].body);
      assert BodyOf(impls[j].methods, impls[j].methods[i].body);
      assert BodyInImpl(impls, impls[j].methods[i].body);
    }
    if l :| BodyOf(methods, l) && x in Sites(l) { assert InBody(methods, x); }
    if l :| BodyInImpl(impls, l) && x in Sites(l) {
      var j :| 0 <= j < |impls| && BodyOf(impls[j].methods, l);
      assert InBody(impls[j].methods, x);
    }
  }

  /** What the walk pushes for a statement: what it declares, and what its statement lists hold. */
  lemma StmtSitesAre(s: Stmt, x: BodySite)
    ensures x in StmtSites(s) <==> Owns(s, x) || exists l :: Within(s, l) && x in Sites(l)
  {
    match s
    case Fn(d) => assert Within(s, d.body);
    case Class(name, span, _, methods, impls, destructor) =>
      TypeSitesAre(name, methods, impls, x);
      if destructor.Block? { assert Within(s, destructor.stmts); }
    case Struct(name, _, methods, impls) => TypeSitesAre(name, methods, impls, x);
    case Enum(name, _, methods, impls) => TypeSitesAre(name, methods, impls, x);
    case Impl(target, methods) =>
      MethodSitesAre(StandaloneImplMethod, target, methods, x);
      if InBody(methods, x) {
        var i :| 0 <= i < |methods| && x in Sites(methods[i].body);
        assert Within(s, methods[i].body);
      }
      if l :| Within(s, l) && x in Sites(l) { assert BodyOf(methods, l) && InBody(methods, x); }
    case Trait(name, ms) =>
      DefaultSitesAre(name, ms, x);
      if i :| 0 <= i < |ms| && x in DefaultSite(name, ms[i]) {
        if x in Sites(ms[i].sig.body) { assert Within(s, ms[i].sig.body); }
      }
      if l :| Within(s, l) && x in Sites(l) {
        var i :| 0 <= i < |ms| && ms[i].hasDefault && l == ms[i].sig.body;
        assert x in DefaultSite(name, ms[i]);
      }
      if Owns(s, x) {
        var i :| 0 <= i < |ms| && ms[i].hasDefault
          && x == BodySite(TraitDefault, name, ms[i].sig.name, ms[i].sig.nameSpan);
        assert x in DefaultSite(name, ms[i]);
      }
    case If(_, t, e) =>
      assert Within(s, t);
      if e.Block? { assert Within(s, e.stmts); }
    case Loop(_, body) => assert Within(s, body);
    case TierBlock(_) =>
    case Plain(_) =>
  }

  lemma {:induction false} ReachedIsListed(ss: seq<Stmt>, t: Stmt, n: nat, x: BodySite)
    requires Reach(ss, t, n) && Owns(t, x)
    ensures x in Sites(ss)
    decreases n
  {
    SitesAre(ss, x);
    if t in ss {
      StmtSitesAre(t, x);
    } else {
      var s, l :| s in ss && Within(s, l) && Reach(l, t, n - 1);
      ReachedIsListed(l, t, n - 1, x);
      StmtSitesAre(s, x);
    }
  }

  lemma {:induction false} ReachedInMethods(ms: seq<FnDecl>, x: BodySite) returns (l: seq<Stmt>, t: Stmt, n: nat)
    requires InBody(ms, x)
    ensures BodyOf(ms, l) && Reach(l, t, n) && Owns(t, x)
    decreases ms
  {
    var i :| 0 <= i < |ms| && x in Sites(ms[i].body);
    l := ms[i].body;
    t, n := ListedIsReached(l, x);
  }

  lemma {:induction false} ReachedInImpls(
    impls: seq<ImplBlock>, l0: seq<Stmt>, x: BodySite) returns (l: seq<Stmt>, t: Stmt, n: nat)
    requires BodyInImpl(impls, l0) && x in Sites(l0)
    ensures BodyInImpl(impls, l) && Reach(l, t, n) && Owns(t, x)
    decreases impls
  {
    var j :| 0 <= j < |impls| && BodyOf(impls[j].methods, l0);
    assert InBody(impls[j].methods, x);
    l, t, n := ReachedInMethods(impls[j].methods, x);
  }

  lemma {:induction false} ReachedInDefault(m: TraitMethod, x: BodySite) returns (t: Stmt, n: nat)
    requires x in Sites(m.sig.body)
    ensures Reach(m.sig.body, t, n) && Owns(t, x)
    decreases m
  {
    t, n := ListedIsReached(m.sig.body, x);
  }

  lemma {:induction false} ReachedInType(s: Stmt, l0: seq<Stmt>, x: BodySite) returns (l: seq<Stmt>, t: Stmt, n: nat)
    requires s.Class? || s.Struct? || s.Enum?
    requires (BodyOf(s.methods, l0) || BodyInImpl(s.impls, l0)) && x in Sites(l0)
    ensures (BodyOf(s.methods, l) || BodyInImpl(s.impls, l)) && Reach(l, t, n) && Owns(t, x)
    decreases s, 0
  {
    if BodyOf(s.methods, l0) {
      assert InBody(s.methods, x);
      l, t, n := ReachedInMethods(s.methods, x);
    } else {
      l, t, n := ReachedInImpls(s.impls, l0, x);
    }
  }

  lemma {:induction false} ListedInStmt(s: Stmt, x: BodySite) returns (l: seq<Stmt>, t: Stmt, n: nat)
    requires x in StmtSites(s) && !Owns(s, x)
    ensures Within(s, l) && Reach(l, t, n) && Owns(t, x)
    decreases s, 1
  {
    StmtSitesAre(s, x);
    l :| Within(s, l) && x in Sites(l);
    match s
    case Fn(d) => t, n := ListedIsReached(d.body, x);
    case Class(_, _, _, methods, impls, destructor) =>
      if BodyOf(methods, l) || BodyInImpl(impls, l) {
        l, t, n := ReachedInType(s, l, x);
      } else {
        t, n := ListedIsReached(destructor.stmts, x);
      }
    case Struct(_, _, _, _) => l, t, n := ReachedInType(s, l, x);
    case Enum(_, _, _, _) => l, t, n := ReachedInType(s, l, x);
    case Impl(_, methods) =>
      assert InBody(methods, x);
      l, t, n := ReachedInMethods(methods, x);
    case Trait(_, ms) =>
      var i :| 0 <= i < |ms| && ms[i].hasDefault && l == ms[i].sig.body;
      t, n := ReachedInDefault(ms[i], x);
    case If(_, yes, e) =>
      if l == yes { t, n := ListedIsReached(yes, x); } else { t, n := ListedIsReached(e.stmts, x); }
    case Loop(_, body) => t, n := ListedIsReached(body, x);
  }

  lemma {:induction false} ListedIsReached(ss: seq<Stmt>, x: BodySite) returns (t: Stmt, n: nat)
    requires x in Sites(ss)
    ensures Reach(ss, t, n) && Owns(t, x)
    decreases ss
  {
    SitesAre(ss, x);
    var s :| s in ss && x in StmtSites(s);
    var i :| 0 <= i < |ss| && ss[i] == s;
    if Owns(ss[i], x) {
      t, n := s, 1;
    } else {
      var l;
      l, t, n := ListedInStmt(ss[i], x);
      n := n + 1;
    }
  }

  /** **The walk lists exactly what statement lists reach.** */
  lemma WalkIsComplete(ss: seq<Stmt>, x: BodySite)
    ensures x in Sites(ss) <==> Declares(ss, x)
  {
    if x in Sites(ss) { var t, n := ListedIsReached(ss, x); }
    if Declares(ss, x) {
      var t, n: nat :| Reach(ss, t, n) && Owns(t, x);
      ReachedIsListed(ss, t, n, x);
    }
  }

  // ----- Declarations inside expressions -----

  ghost predicate BlockList(bs: seq<Block>, l: seq<Stmt>) {
    exists i :: 0 <= i < |bs| && bs[i].Block? && l == bs[i].stmts
  }

  ghost predicate InDefaults(ms: seq<FnDecl>, l: seq<Stmt>) {
    exists i :: 0 <= i < |ms| && BlockList(ms[i].defaults, l)
  }

  ghost predicate InImplDefaults(impls: seq<ImplBlock>, l: seq<Stmt>) {
    exists j :: 0 <= j < |impls| && InDefaults(impls[j].methods, l)
  }

  /** `l` is a statement list inside an expression that `s` itself holds. */
  ghost predicate InExpression(s: Stmt, l: seq<Stmt>) {
    match s
    case Fn(d) => BlockList(d.defaults, l)
    case Class(_, _, fieldBlocks, methods, impls, _) =>
      BlockList(fieldBlocks, l) || InDefaults(methods, l) || InImplDefaults(impls, l)
    case Struct(_, fieldBlocks, methods, impls) =>
      BlockList(fieldBlocks, l) || InDefaults(methods, l) || InImplDefaults(impls, l)
    case Enum(_, fieldBlocks, methods, impls) =>
      BlockList(fieldBlocks, l) || InDefaults(methods, l) || InImplDefaults(impls, l)
    case Impl(_, methods) => InDefaults(methods, l)
    case Trait(_, ms) => exists i :: 0 <= i < |ms| && BlockList(ms[i].sig.defaults, l)
    case If(blocks, _, _) => BlockList(blocks, l)
    case Loop(blocks, _) => BlockList(blocks, l)
    case TierBlock(_) => false
    case Plain(blocks) => BlockList(blocks, l)
  }

  ghost predicate WithinAny(s: Stmt, l: seq<Stmt>) {
    Within(s, l) || InExpression(s, l)
  }

  /** Reach through every statement list, those inside expressions too. */
  ghost predicate ReachAny(ss: seq<Stmt>, t: Stmt, n: nat)
    decreases n
  {
    n > 0 && (t in ss || exists s, l :: s in ss && WithinAny(s, l) && ReachAny(l, t, n - 1))
  }

  /** `x` is declared somewhere in `ss`. */
  ghost predicate DeclaresAny(ss: seq<Stmt>, x: BodySite) {
    exists t, n: nat :: ReachAny(ss, t, n) && Owns(t, x)
  }

  /** `x` is declared below a block inside an expression of a statement that statement lists reach. */
  ghost predicate BelowExpression(ss: seq<Stmt>, x: BodySite) {
    exists s, n: nat, l :: Reach(ss, s, n) && InExpression(s, l) && DeclaresAny(l, x)
  }

  lemma {:induction false} ReachIsAny(ss: seq<Stmt>, t: Stmt, n: nat)
    requires Reach(ss, t, n)
    ensures ReachAny(ss, t, n)
    decreases n
  {
    if t !in ss {
      var s, l :| s in ss && Within(s, l) && Reach(l, t, n - 1);
      ReachIsAny(l, t, n - 1);
      assert WithinAny(s, l);
    }
  }

  /** From a statement reached, on through one of its lists. */
  lemma {:induction false} ReachOn(ss: seq<Stmt>, s: Stmt, n: nat, l: seq<Stmt>, t: Stmt, m: nat)
    requires Reach(ss, s, n) && WithinAny(s, l) && ReachAny(l, t, m)
    ensures ReachAny(ss, t, n + m)
    decreases n
  {
    if s in ss {
      ReachHigher(l, t, m, n + m - 1);
    } else {
      var s', l' :| s' in ss && Within(s', l') && Reach(l', s, n - 1);
      ReachOn(l', s, n - 1, l, t, m);
      assert WithinAny(s', l');
    }
  }

  lemma {:induction false} ReachHigher(ss: seq<Stmt>, t: Stmt, n: nat, m: nat)
    requires ReachAny(ss, t, n) && n <= m
    ensures ReachAny(ss, t, m)
    decreases n
  {
    if t !in ss {
      var s, l :| s in ss && WithinAny(s, l) && ReachAny(l, t, n - 1);
      ReachHigher(l, t, n - 1, m - 1);
    }
  }

  lemma {:induction false} AnyIsEither(ss: seq<Stmt>, t: Stmt, n: nat, x: BodySite)
    requires ReachAny(ss, t, n) && Owns(t, x)
    ensures Declares(ss, x) || BelowExpression(ss, x)
    decreases n
  {
    if t in ss {
      assert Reach(ss, t, 1);
    } else {
      var s, l :| s in ss && WithinAny(s, l) && ReachAny(l, t, n - 1);
      if Within(s, l) {
        AnyIsEither(l, t, n - 1, x);
        LiftEither(ss, s, l, x);
      } else {
        assert Reach(ss, s, 1) && DeclaresAny(l, x);
      }
    }
  }

  lemma LiftEither(ss: seq<Stmt>, s: Stmt, l: seq<Stmt>, x: BodySite)
    requires s in ss && Within(s, l)
    ensures Declares(l, x) ==> Declares(ss, x)
    ensures BelowExpression(l, x) ==> BelowExpression(ss, x)
  {
    if Declares(l, x) {
      var t, n: nat :| Reach(l, t, n) && Owns(t, x);
      assert Reach(ss, t, n + 1);
    }
    if BelowExpression(l, x) {
      var t, n: nat, l' :| Reach(l, t, n) && InExpression(t, l') && DeclaresAny(l', x);
      assert Reach(ss, t, n + 1);
    }
  }

  /** A declaration is reached through statement lists alone, or lies below a block in an expression. */
  lemma AllDeclarations(ss: seq<Stmt>, x: BodySite)
    ensures DeclaresAny(ss, x) <==> Declares(ss, x) || BelowExpression(ss, x)
  {
    if DeclaresAny(ss, x) {
      var t, n: nat :| ReachAny(ss, t, n) && Owns(t, x);
      AnyIsEither(ss, t, n, x);
    }
    if Declares(ss, x) {
      var t, n: nat :| Reach(ss, t, n) && Owns(t, x);
      ReachIsAny(ss, t, n);
    }
    if BelowExpression(ss, x) {
      var s, n: nat, l :| Reach(ss, s, n) && InExpression(s, l) && DeclaresAny(l, x);
      var t, m: nat :| ReachAny(l, t, m) && Owns(t, x);
      ReachOn(ss, s, n, l, t, m);
    }
  }

  /** **When the walk lists every declaration.** Exactly when what lies below a block in an expression is
      reached some other way as well. */
  lemma WalkMissesNothingIf(ss: seq<Stmt>)
    ensures (forall x :: DeclaresAny(ss, x) ==> x in Sites(ss)) <==>
            (forall x :: BelowExpression(ss, x) ==> Declares(ss, x))
  {
    forall x ensures DeclaresAny(ss, x) <==> Declares(ss, x) || BelowExpression(ss, x) { AllDeclarations(ss, x); }
    forall x ensures x in Sites(ss) <==> Declares(ss, x) { WalkIsComplete(ss, x); }
  }

  /** A function declared in a block inside any expression statement, and nowhere else, is missed. */
  lemma BlocksInExpressionsMissed(d: FnDecl, before: seq<Stmt>, after: seq<Stmt>)
    ensures var x, ss := BodySite(Function, "", d.name, d.nameSpan), before + [Plain([Block([Fn(d)])])] + after;
            DeclaresAny(ss, x) && (x in Sites(ss) <==> Declares(before + after, x))
  {
    var x, s := BodySite(Function, "", d.name, d.nameSpan), Plain([Block([Fn(d)])]);
    var ss := before + [s] + after;
    assert s in ss && s.blocks[0] == Block([Fn(d)]) && BlockList(s.blocks, [Fn(d)]);
    assert Fn(d) in [Fn(d)] && ReachAny([Fn(d)], Fn(d), 1);
    assert WithinAny(s, [Fn(d)]) && ReachAny(ss, Fn(d), 2);
    SitesAre(ss, x);
    SitesAre(before + after, x);
    WalkIsComplete(before + after, x);
    forall t ensures t in ss && x in StmtSites(t) <==> t in before + after && x in StmtSites(t) { }
  }

  lemma OneStatement(s: Stmt)
    ensures Sites([s]) == StmtSites(s)
  {
    assert [s][1..] == [];
  }
}
