/** A trait's argument that names a type parameter the method declares for itself. */
module TypeCapture {
  import opened Wrappers
  import opened TypeRefs
  import opened TypedTrees
  import opened TypeSubstitution
  import opened SubstitutionLaws

  /** Two maps over the same names do the same to a type exactly when they agree on the names it uses bare. */
  lemma {:induction false} SameOnBare(t: TypeRef, f: Subst, g: Subst)
    requires f.Keys == g.Keys
    ensures SubstRef(t, f) == SubstRef(t, g) <==> forall n :: n in f && BareIn(t, n) ==> f[n] == g[n]
    decreases t, 1
  {
    match t
    case Named(n, args, _) =>
      SameOnBareAll(args, f, g);
      if args == [] && n in f { assert BareIn(t, n); }
    case Optional(inner, _) => SameOnBare(inner, f, g);
    case Union(members, _) => SameOnBareAll(members, f, g);
    case Tuple(elements, _) => SameOnBareAll(elements, f, g);
    case Fn(params, ret, _) => SameOnBareAll(params, f, g); SameOnBare(ret, f, g);
    case _ =>
  }

  lemma {:induction false} SameOnBareAll(ts: seq<TypeRef>, f: Subst, g: Subst)
    requires f.Keys == g.Keys
    ensures SubstRefs(ts, f) == SubstRefs(ts, g) <==> forall n :: n in f && BareInAny(ts, n) ==> f[n] == g[n]
    decreases ts, 1
  {
    if ts != [] {
      var a, b := SubstRefs(ts, f), SubstRefs(ts, g);
      assert a[0] == SubstRef(ts[0], f) && a[1..] == SubstRefs(ts[1..], f);
      assert b[0] == SubstRef(ts[0], g) && b[1..] == SubstRefs(ts[1..], g);
      SameOnBare(ts[0], f, g);
      SameOnBareAll(ts[1..], f, g);
    }
  }

  /** New names for a method's own parameters, used nowhere else. */
  ghost predicate Renames(d: FnDecl, m: Subst, renaming: Subst) {
    && renaming.Keys == OwnNames(d) && renaming.Keys !! m.Keys
    && forall k :: k in renaming ==>
         renaming[k].Named? && renaming[k].args == [] && renaming[k].name !in renaming && renaming[k].name !in m
  }

  /** Renaming changes a type exactly when it uses a renamed name bare. */
  lemma RenamedWhen(t: TypeRef, renaming: Subst)
    requires forall k :: k in renaming ==> renaming[k].Named? && renaming[k].name !in renaming
    ensures SubstRef(t, renaming) == t <==> forall k :: k in renaming ==> !BareIn(t, k)
  {
    ShadowedRef(t, renaming, renaming.Keys);
    assert renaming - renaming.Keys == map[];
    NothingReplaced(t);
  }

  /** A name of the trait's, used bare in the method, stands for an argument that uses one of the method's
      own parameters. */
  ghost predicate Captures(d: FnDecl, m: Subst, u: Use, n: string, k: string) {
    u in FnUses(d) && u.walked && n in m && BareIn(u.ty, n) && k in OwnNames(d) && BareIn(m[n], k)
  }

  /** **When no argument is captured.** Renaming a method's own parameters and then substituting is
      substituting and then renaming exactly when, where the walk goes, no argument that names one of them
      is put in. */
  lemma CaptureIs(d: FnDecl, m: Subst, renaming: Subst)
    requires Renames(d, m, renaming)
    ensures SubstituteTypeParams(SubstituteTypeParams(d, renaming), m) ==
              SubstituteTypeParams(SubstituteTypeParams(d, m), renaming) <==>
            forall u, n, k :: !Captures(d, m, u, n, k)
  {
    var f, g := Compose(renaming, m), Compose(m, renaming);
    SubstitutionComposes(d, renaming, m);
    SubstitutionComposes(d, m, renaming);
    SettledByUses(d, f, g);
    assert f.Keys == g.Keys == m.Keys + renaming.Keys;
    forall k | k in renaming ensures f[k] == g[k] { assert f[k] == SubstRef(renaming[k], m) == renaming[k]; }
    forall n | n in m ensures f[n] == g[n] <==> forall k :: k in renaming ==> !BareIn(m[n], k) {
      RenamedWhen(m[n], renaming);
      assert f[n] == m[n] && g[n] == SubstRef(m[n], renaming);
    }
    forall u | u in FnUses(d) && u.walked
      ensures SubstRef(u.ty, f) == SubstRef(u.ty, g) <==> forall n, k :: !Captures(d, m, u, n, k)
    {
      SameOnBare(u.ty, f, g);
      if SubstRef(u.ty, f) == SubstRef(u.ty, g) {
        forall n, k ensures !Captures(d, m, u, n, k) {
          if n in m && BareIn(u.ty, n) { assert n in f && f[n] == g[n]; }
        }
      }
      if forall n, k :: !Captures(d, m, u, n, k) {
        forall n | n in f && BareIn(u.ty, n) ensures f[n] == g[n] {
          if n in m {
            forall k | k in renaming ensures !BareIn(m[n], k) { assert !Captures(d, m, u, n, k); }
          }
        }
      }
    }
  }

  /** `fn m<v>(x: k)` in a trait with a parameter `k`, instantiated at a type that is itself called `v`:
      the argument becomes the method's own parameter. */
  lemma ArgumentCaptured(name: string, x: string, k: string, v: string, span: Span)
    requires k != v
    ensures var d := FnDecl(name, [TypeParam(v, [])], [Param(x, Some(Named(k, [], span)), None)], None, false, []);
            && SubstituteTypeParams(d, map[k := Named(v, [], span)]).params ==
              [Param(x, Some(Named(v, [], span)), None)]
            && Captures(d, map[k := Named(v, [], span)], Use(Named(k, [], span), true), k, v)
  {
    var p := Param(x, Some(Named(k, [], span)), None);
    var d := FnDecl(name, [TypeParam(v, [])], [p], None, false, []);
    var m: Subst := map[k := Named(v, [], span)];
    assert d.typeParams[0].name in OwnNames(d);
    assert [p][1..] == [];
    assert SubstParams([p], m) == [Param(x, Some(Named(v, [], span)), None)] + SubstParams([], m);
    assert ParamUses([p]) == [Use(Named(k, [], span), true)] + [] + ParamUses([]);
    assert Use(Named(k, [], span), true) in ParamUses([p]);
  }
}
