/** Projecting a surface type onto its descriptor, and matching a narrowing target against a tag. */
module Narrowing {
  import opened Wrappers
  import opened TypeRefs
  import R = TypeReprs

  type TypeRepr = R.TypeRepr

  datatype Kind = KStruct | KClass | KEnum

  /** How a projection classifies a declared name: not at all, or by looking it up. */
  datatype Resolver = Agnostic | Registry(kinds: map<string, Kind>)

  function Nominal(name: string, args: seq<TypeRepr>, resolver: Resolver): TypeRepr {
    match resolver
    case Agnostic => R.Named(name, args)
    case Registry(kinds) =>
      if name !in kinds then R.Named(name, args)
      else
        match kinds[name]
        case KStruct => R.Struct(name, args)
        case KClass => R.Class(name, args)
        case KEnum => R.Enum(name, args)
  }

  /** The descriptor of a built-in constructor over its projected arguments, a missing one being the
      dynamic top. A fixed width survives only below the top. */
  function BuiltinRepr(b: Builtin, args: seq<TypeRepr>, top: bool): Option<TypeRepr> {
    var arg0 := if |args| > 0 then args[0] else R.Dyn;
    var arg1 := if |args| > 1 then args[1] else R.Dyn;
    match b
    case BInt => Some(R.Int)
    case BIntN(signed, bits) => Some(if top then R.Int else R.IntN(signed, bits))
    case BFloat => Some(R.Float)
    case BF64 => Some(if top then R.Float else R.F64)
    case BF32 => Some(R.F32)
    case BBool => Some(R.Bool)
    case BStr => Some(R.Str)
    case BBytes => Some(R.Bytes)
    case BUnit => Some(R.Unit)
    case BNever => Some(R.Never)
    case BDyn => Some(R.Dyn)
    case BList => Some(R.ListOf(arg0))
    case BSet => Some(R.SetOf(arg0))
    case BMap => Some(R.MapOf(arg0, arg1))
    case BOption => Some(R.OptionOf(arg0))
    case BResult => Some(R.ResultOf(arg0, arg1))
    case BNumber => None
    case BKindEnum => None
    case BKindStruct => None
    case BKindClass => None
  }

  function NamedRepr(
    builtin: Option<Builtin>, name: string, args: seq<TypeRepr>, resolver: Resolver, top: bool): TypeRepr {
    match builtin
    case None => Nominal(name, args, resolver)
    case Some(b) =>
      match BuiltinRepr(b, args, top)
      case Some(repr) => repr
      case None => Nominal(name, args, resolver)
  }

  function TypeRefRepr(ty: TypeRef, resolver: Resolver, top: bool): TypeRepr {
    match ty
    case Union(members, _) => R.Union(seq(|members|,
      i requires 0 <= i < |members| => TypeRefRepr(members[i], resolver, false)))
    case Optional(inner, _) => R.OptionOf(TypeRefRepr(inner, resolver, false))
    case DynTrait(name, _) => R.DynTrait(name)
    case Tuple(_, _) => R.Dyn
    case AssocProjection(_, _) => R.Dyn
    case Fn(params, ret, _) =>
      R.Fn(seq(|params|, i requires 0 <= i < |params| => TypeRefRepr(params[i], resolver, false)),
        TypeRefRepr(ret, resolver, false))
    case Named(name, args, _) =>
      NamedRepr(BuiltinNamed(name), name,
        seq(|args|, i requires 0 <= i < |args| => TypeRefRepr(args[i], resolver, false)), resolver, top)
  }

  // ----- Matching -----

  /** Whether a target's type argument accepts a tag's: `Dyn` on either side accepts, and unions accept
      through a member. */
  predicate ArgMatches(e: TypeRepr, a: TypeRepr)
    decreases e, a, 1
  {
    if e.Dyn? || a.Dyn? then true
    else if e.Union? then exists i | 0 <= i < |e.members| :: ArgMatches(e.members[i], a)
    else if a.Union? then exists j | 0 <= j < |a.members| :: ArgMatches(e, a.members[j])
    else HeadsMatch(e, a)
  }

  /** The arms below `Dyn` and unions: constructor against constructor, and declared types by name. */
  predicate HeadsMatch(e: TypeRepr, a: TypeRepr)
    decreases e, a, 0
  {
    match e
    case ListOf(x) => a.ListOf? && ArgMatches(x, a.elem)
    case SetOf(x) => a.SetOf? && ArgMatches(x, a.elem)
    case OptionOf(x) => a.OptionOf? && ArgMatches(x, a.elem)
    case MapOf(k, v) => a.MapOf? && ArgMatches(k, a.key) && ArgMatches(v, a.value)
    case ResultOf(o, x) => a.ResultOf? && ArgMatches(o, a.ok) && ArgMatches(x, a.err)
    case Enum(n, args) => NominalMatch(e, n, args, a)
    case Struct(n, args) => NominalMatch(e, n, args, a)
    case Class(n, args) => NominalMatch(e, n, args, a)
    case Named(n, args) => NominalMatch(e, n, args, a)
    case Fn(_, _) => false
    case Never => false
    case _ => e == a
  }

  predicate NominalMatch(e: TypeRepr, name: string, args: seq<TypeRepr>, a: TypeRepr)
    requires forall i :: 0 <= i < |args| ==> args[i] < e
    decreases e, a, -1
  {
    R.NominalName(a) == Some(name) && |args| == |a.args| && forall i | 0 <= i < |args| :: ArgMatches(args[i], a.args[i])
  }

  predicate NarrowArgsMatch(target: seq<TypeRepr>, actual: TypeRepr) {
    var args := R.TypeArgs(actual);
    |target| == |args| && forall i | 0 <= i < |target| :: ArgMatches(target[i], args[i])
  }

  /** Heads that can match: the same constructor, or declared types of one name; never a function and
      never `never`. */
  predicate Compatible(e: TypeRepr, a: TypeRepr)
    ensures Compatible(e, a) ==> |R.Parts(e)| == |R.Parts(a)|
  {
    R.HeadFixesPartsIf(e, a);
    !e.Fn? && !e.Never? && R.KindFree(R.HeadOf(e)) == R.KindFree(R.HeadOf(a))
  }

  /** Away from `Dyn` and unions, two descriptors match exactly when their heads can and their parts
      do, position by position. */
  lemma HeadMatches(e: TypeRepr, a: TypeRepr)
    requires !e.Dyn? && !a.Dyn? && !e.Union? && !a.Union?
    ensures ArgMatches(e, a) <==>
            Compatible(e, a) && forall i :: 0 <= i < |R.Parts(e)| ==> ArgMatches(R.Parts(e)[i], R.Parts(a)[i])
  {
    if R.NominalName(e).Some? {
      NominalMatches(e, a);
    } else if e.ListOf? || e.SetOf? || e.OptionOf? || e.MapOf? || e.ResultOf? {
      ContainerMatches(e, a);
    } else {
      LeafMatches(e, a);
    }
  }

  lemma LeafMatches(e: TypeRepr, a: TypeRepr)
    requires R.NominalName(e).None? && !(e.ListOf? || e.SetOf? || e.OptionOf? || e.MapOf? || e.ResultOf?)
    requires !e.Dyn? && !a.Dyn? && !e.Union? && !a.Union?
    ensures !e.Fn? ==> R.Parts(e) == []
    ensures ArgMatches(e, a) <==> Compatible(e, a)
  {
    assert ArgMatches(e, a) <==> HeadsMatch(e, a);
    if !e.Fn? && !e.Never? {
      assert HeadsMatch(e, a) <==> e == a;
      LeafHead(e, a);
    }
  }

  lemma LeafHead(e: TypeRepr, a: TypeRepr)
    requires R.HeadOf(e).Leaf?
    ensures R.KindFree(R.HeadOf(e)) == R.KindFree(R.HeadOf(a)) <==> e == a
  {
  }

  lemma CompatibleIsSymmetric(e: TypeRepr, a: TypeRepr)
    ensures Compatible(e, a) <==> Compatible(a, e)
  {
  }

  lemma NominalIsByName(e: TypeRepr, a: TypeRepr)
    requires R.NominalName(e).Some? && !a.Dyn? && !a.Union?
    ensures ArgMatches(e, a) <==>
            R.NominalName(e) == R.NominalName(a) && |e.args| == |a.args| && forall i :: 0 <= i < |e.args| ==>
              ArgMatches(e.args[i], a.args[i])
  {
    NominalHead(e, a);
  }

  lemma NominalHead(e: TypeRepr, a: TypeRepr)
    requires R.NominalName(e).Some? && !a.Dyn? && !a.Union?
    ensures ArgMatches(e, a) <==> NominalMatch(e, e.name, e.args, a)
  {
  }

  lemma NominalCompatible(e: TypeRepr, a: TypeRepr)
    requires R.NominalName(e).Some?
    ensures Compatible(e, a) <==> R.NominalName(e) == R.NominalName(a) && |e.args| == |a.args|
    ensures R.Parts(e) == e.args && (R.NominalName(a).Some? ==> R.Parts(a) == a.args)
  {
  }

  lemma NominalMatches(e: TypeRepr, a: TypeRepr)
    requires R.NominalName(e).Some? && !a.Dyn? && !a.Union?
    ensures ArgMatches(e, a) <==>
            Compatible(e, a) && forall i :: 0 <= i < |R.Parts(e)| ==> ArgMatches(R.Parts(e)[i], R.Parts(a)[i])
  {
    NominalIsByName(e, a);
    NominalCompatible(e, a);
  }

  lemma ContainerMatches(e: TypeRepr, a: TypeRepr)
    requires e.ListOf? || e.SetOf? || e.OptionOf? || e.MapOf? || e.ResultOf?
    requires !a.Dyn? && !a.Union?
    ensures ArgMatches(e, a) <==>
            Compatible(e, a) && forall i :: 0 <= i < |R.Parts(e)| ==> ArgMatches(R.Parts(e)[i], R.Parts(a)[i])
  {
    var es, parts := R.Parts(e), R.Parts(a);
    if Compatible(e, a) {
      if |es| == 2 {
        assert (forall i :: 0 <= i < |es| ==> ArgMatches(es[i], parts[i])) <==>
          ArgMatches(es[0], parts[0]) && ArgMatches(es[1], parts[1]);
      } else {
        assert (forall i :: 0 <= i < |es| ==> ArgMatches(es[i], parts[i])) <==> ArgMatches(es[0], parts[0]);
      }
    }
  }

  // ----- Symmetry -----

  /** Every union inside `t` has a member. */
  ghost predicate InhabitedUnions(t: TypeRepr) {
    (t.Union? ==> t.members != []) && forall i :: 0 <= i < |R.Parts(t)| ==> InhabitedUnions(R.Parts(t)[i])
  }

  /** A union on the tag's side accepts through a member, even against a union. */
  lemma {:induction false} UnionOnTheRight(e: TypeRepr, u: TypeRepr)
    requires u.Union? && InhabitedUnions(e) && InhabitedUnions(u)
    ensures ArgMatches(e, u) <==> exists j :: 0 <= j < |u.members| && ArgMatches(e, u.members[j])
    decreases e
  {
    assert R.Parts(u) == u.members;
    if e.Dyn? {
      assert ArgMatches(e, u.members[0]);
    } else if e.Union? {
      assert R.Parts(e) == e.members;
      forall i | 0 <= i < |e.members| { UnionOnTheRight(e.members[i], u); }
      if i :| 0 <= i < |e.members| && ArgMatches(e.members[i], u) {
        var j :| 0 <= j < |u.members| && ArgMatches(e.members[i], u.members[j]);
        assert ArgMatches(e, u.members[j]);
      }
      if j :| 0 <= j < |u.members| && ArgMatches(e, u.members[j]) {
        if u.members[j].Dyn? {
          assert ArgMatches(e.members[0], u.members[j]);
          assert ArgMatches(e.members[0], u);
        } else {
          var i :| 0 <= i < |e.members| && ArgMatches(e.members[i], u.members[j]);
          assert ArgMatches(e.members[i], u);
        }
      }
    }
  }

  /** **Matching is symmetric** on descriptors whose unions have members. */
  lemma {:induction false} MatchingIsSymmetric(e: TypeRepr, a: TypeRepr)
    requires InhabitedUnions(e) && InhabitedUnions(a)
    ensures ArgMatches(e, a) <==> ArgMatches(a, e)
    decreases e, a, 1
  {
    if e.Dyn? || a.Dyn? {
    } else if e.Union? {
      assert R.Parts(e) == e.members;
      forall i | 0 <= i < |e.members| { MatchingIsSymmetric(e.members[i], a); }
      UnionOnTheRight(a, e);
    } else if a.Union? {
      assert R.Parts(a) == a.members;
      forall j | 0 <= j < |a.members| { MatchingIsSymmetric(e, a.members[j]); }
    } else {
      SymmetricHeads(e, a);
    }
  }

  lemma {:induction false} SymmetricHeads(e: TypeRepr, a: TypeRepr)
    requires InhabitedUnions(e) && InhabitedUnions(a)
    requires !e.Dyn? && !a.Dyn? && !e.Union? && !a.Union?
    ensures ArgMatches(e, a) <==> ArgMatches(a, e)
    decreases e, a, 0
  {
    HeadMatches(e, a);
    HeadMatches(a, e);
    CompatibleIsSymmetric(e, a);
    if Compatible(e, a) {
      forall i | 0 <= i < |R.Parts(e)|
        ensures ArgMatches(R.Parts(e)[i], R.Parts(a)[i]) <==> ArgMatches(R.Parts(a)[i], R.Parts(e)[i])
      {
        MatchingIsSymmetric(R.Parts(e)[i], R.Parts(a)[i]);
      }
    }
  }

  /** An empty union breaks it: it rejects a union that holds `Dyn`, which accepts it. */
  lemma EmptyUnionIsAsymmetric()
    ensures ArgMatches(R.Union([R.Dyn]), R.Union([])) && !ArgMatches(R.Union([]), R.Union([R.Dyn]))
  {
    assert ArgMatches([R.Dyn][0], R.Union([]));
  }

  // ----- Forgetting part of a tag -----

  /** `b` is `a` with some parts replaced by `Dyn`. */
  ghost predicate Blurs(a: TypeRepr, b: TypeRepr)
    decreases a
  {
    R.HeadFixesPartsIf(a, b);
    b.Dyn? || (R.HeadOf(a) == R.HeadOf(b) && forall i :: 0 <= i < |R.Parts(a)| ==> Blurs(R.Parts(a)[i], R.Parts(b)[i]))
  }

  /** **Knowing less never rejects.** A match survives the replacement of any parts of the tag by the
      dynamic top. */
  lemma {:induction false} BlurKeepsMatch(e: TypeRepr, a: TypeRepr, b: TypeRepr)
    requires ArgMatches(e, a) && Blurs(a, b)
    ensures ArgMatches(e, b)
    decreases e, a, 1
  {
    if e.Dyn? || b.Dyn? || a.Dyn? {
    } else if e.Union? {
      var i :| 0 <= i < |e.members| && ArgMatches(e.members[i], a);
      BlurKeepsMatch(e.members[i], a, b);
    } else if a.Union? {
      var j :| 0 <= j < |a.members| && ArgMatches(e, a.members[j]);
      assert Blurs(R.Parts(a)[j], R.Parts(b)[j]);
      BlurKeepsMatch(e, a.members[j], b.members[j]);
    } else {
      BlurKeepsHead(e, a, b);
    }
  }

  lemma {:induction false} BlurKeepsHead(e: TypeRepr, a: TypeRepr, b: TypeRepr)
    requires ArgMatches(e, a) && Blurs(a, b)
    requires !e.Dyn? && !a.Dyn? && !b.Dyn? && !e.Union? && !a.Union?
    ensures ArgMatches(e, b)
    decreases e, a, 0
  {
    HeadMatches(e, a);
    BlurKeepsHeadOf(a, b);
    HeadMatches(e, b);
    forall i | 0 <= i < |R.Parts(e)| ensures ArgMatches(R.Parts(e)[i], R.Parts(b)[i]) {
      BlurKeepsMatch(R.Parts(e)[i], R.Parts(a)[i], R.Parts(b)[i]);
    }
  }

  lemma BlurKeepsHeadOf(a: TypeRepr, b: TypeRepr)
    requires Blurs(a, b) && !b.Dyn?
    ensures R.HeadOf(a) == R.HeadOf(b) && |R.Parts(a)| == |R.Parts(b)| && (b.Union? ==> a.Union?)
    ensures forall i :: 0 <= i < |R.Parts(a)| ==> Blurs(R.Parts(a)[i], R.Parts(b)[i])
  {
    R.HeadFixesPartsIf(a, b);
  }

  // ----- A type accepts its own tag -----

  /** `a` and `b` differ at most in the kind recorded for declared types. */
  ghost predicate SameButKind(a: TypeRepr, b: TypeRepr)
    decreases a
  {
    R.HeadFixesPartsIf(a, b);
    && R.KindFree(R.HeadOf(a)) == R.KindFree(R.HeadOf(b))
    && forall i :: 0 <= i < |R.Parts(a)| ==> SameButKind(R.Parts(a)[i], R.Parts(b)[i])
  }

  function Project(tys: seq<TypeRef>, resolver: Resolver): (ps: seq<TypeRepr>)
    ensures |ps| == |tys| && forall i :: 0 <= i < |tys| ==> ps[i] == TypeRefRepr(tys[i], resolver, false)
  {
    seq(|tys|, i requires 0 <= i < |tys| => TypeRefRepr(tys[i], resolver, false))
  }

  lemma BuiltinDiffersInKind(builtin: Builtin, a: seq<TypeRepr>, b: seq<TypeRepr>, top: bool)
    requires |a| == |b| && forall i :: 0 <= i < |a| ==> SameButKind(a[i], b[i])
    requires BuiltinRepr(builtin, a, top).Some? && BuiltinRepr(builtin, b, top).Some? && SameButKind(R.Dyn, R.Dyn)
    ensures SameButKind(BuiltinRepr(builtin, a, top).value, BuiltinRepr(builtin, b, top).value)
  {
    var x, y := BuiltinRepr(builtin, a, top).value, BuiltinRepr(builtin, b, top).value;
    forall i | 0 <= i < |R.Parts(x)| ensures SameButKind(R.Parts(x)[i], R.Parts(y)[i]) {
      assert R.Parts(x)[i] == if i < |a| then a[i] else R.Dyn;
      assert R.Parts(y)[i] == if i < |b| then b[i] else R.Dyn;
    }
  }

  lemma NamedDiffersInKind(
    builtin: Option<Builtin>, name: string, a: seq<TypeRepr>, b: seq<TypeRepr>, kinds: map<string, Kind>, top: bool)
    requires |a| == |b| && forall i :: 0 <= i < |a| ==> SameButKind(a[i], b[i])
    ensures SameButKind(NamedRepr(builtin, name, a, Agnostic, top), NamedRepr(builtin, name, b, Registry(kinds), top))
  {
    var x, y := NamedRepr(builtin, name, a, Agnostic, top), NamedRepr(builtin, name, b, Registry(kinds), top);
    if builtin.None? || BuiltinRepr(builtin.value, a, top).None? {
      assert R.Parts(x) == a && R.Parts(y) == b;
    } else {
      assert SameButKind(R.Dyn, R.Dyn);
      BuiltinDiffersInKind(builtin.value, a, b, top);
    }
  }

  /** The two projections of one surface type differ only in the kinds of declared types. */
  lemma {:induction false} ProjectionsDifferInKind(ty: TypeRef, kinds: map<string, Kind>, top: bool)
    ensures SameButKind(TypeRefRepr(ty, Agnostic, top), TypeRefRepr(ty, Registry(kinds), top))
  {
    var x, y := TypeRefRepr(ty, Agnostic, top), TypeRefRepr(ty, Registry(kinds), top);
    match ty
    case Union(members, _) =>
      forall i | 0 <= i < |members| { ProjectionsDifferInKind(members[i], kinds, false); }
    case Optional(inner, _) => ProjectionsDifferInKind(inner, kinds, false);
    case Fn(params, ret, _) =>
      forall i | 0 <= i < |params| { ProjectionsDifferInKind(params[i], kinds, false); }
      ProjectionsDifferInKind(ret, kinds, false);
    case Named(name, args, _) =>
      forall i | 0 <= i < |args| { ProjectionsDifferInKind(args[i], kinds, false); }
      NamedDiffersInKind(BuiltinNamed(name), name, Project(args, Agnostic), Project(args, Registry(kinds)), kinds, top);
      assert x == NamedRepr(BuiltinNamed(name), name, Project(args, Agnostic), Agnostic, top);
      assert y == NamedRepr(BuiltinNamed(name), name, Project(args, Registry(kinds)), Registry(kinds), top);
    case _ =>
  }

  /** No part of `t` is a function or `never`. */
  ghost predicate FnFree(t: TypeRepr) {
    !t.Fn? && !t.Never? && forall i :: 0 <= i < |R.Parts(t)| ==> FnFree(R.Parts(t)[i])
  }

  lemma {:induction false} KindDifferenceMatches(e: TypeRepr, a: TypeRepr)
    requires SameButKind(e, a) && FnFree(e) && InhabitedUnions(e)
    ensures ArgMatches(e, a)
    decreases e
  {
    forall i | 0 <= i < |R.Parts(e)| ensures ArgMatches(R.Parts(e)[i], R.Parts(a)[i]) {
      KindDifferenceMatches(R.Parts(e)[i], R.Parts(a)[i]);
    }
    if e.Union? {
      assert R.Parts(e) == e.members && R.Parts(a) == a.members;
      assert ArgMatches(R.Parts(e)[0], R.Parts(a)[0]);
      ThroughMember(e.members[0], a, 0);
    } else if !e.Dyn? {
      HeadMatches(e, a);
    }
  }

  /** What accepts a member accepts the union. */
  lemma {:induction false} ThroughMember(e: TypeRepr, u: TypeRepr, j: nat)
    requires u.Union? && j < |u.members| && ArgMatches(e, u.members[j]) && InhabitedUnions(e)
    ensures ArgMatches(e, u)
    decreases e
  {
    if e.Union? {
      assert R.Parts(e) == e.members;
      var i := if u.members[j].Dyn? then 0
        else var i :| 0 <= i < |e.members| && ArgMatches(e.members[i], u.members[j]); i;
      assert InhabitedUnions(R.Parts(e)[i]);
      ThroughMember(e.members[i], u, j);
    }
  }

  /** What it takes for a descriptor to match itself: a union needs two members that match, which may be
      one; anything else but `Dyn` needs a head that is no function and not `never`, and parts that match
      themselves. */
  ghost predicate MatchesItself(t: TypeRepr) {
    if t.Dyn? then true
    else if t.Union? then
      exists i, j :: 0 <= i < |t.members| && 0 <= j < |t.members| && ArgMatches(t.members[i], t.members[j])
    else !t.Fn? && !t.Never? && forall i :: 0 <= i < |R.Parts(t)| ==> MatchesItself(R.Parts(t)[i])
  }

  /** **When a descriptor matches itself**, unions and all. */
  lemma {:induction false} SelfMatchIs(t: TypeRepr)
    requires InhabitedUnions(t)
    ensures ArgMatches(t, t) <==> MatchesItself(t)
  {
    if t.Union? {
      assert R.Parts(t) == t.members;
      forall i | 0 <= i < |t.members|
        ensures ArgMatches(t.members[i], t) <==>
          exists j :: 0 <= j < |t.members| && ArgMatches(t.members[i], t.members[j])
      {
        assert InhabitedUnions(R.Parts(t)[i]);
        UnionOnTheRight(t.members[i], t);
      }
    } else if !t.Dyn? {
      HeadMatches(t, t);
      forall i | 0 <= i < |R.Parts(t)|
        ensures ArgMatches(R.Parts(t)[i], R.Parts(t)[i]) <==> MatchesItself(R.Parts(t)[i])
      {
        SelfMatchIs(R.Parts(t)[i]);
      }
    }
  }

  lemma TagArgs(builtin: Option<Builtin>, name: string, args: seq<TypeRepr>, resolver: Resolver, top: bool)
    ensures var tag := R.TypeArgs(NamedRepr(builtin, name, args, resolver, top));
            if builtin.None? || BuiltinRepr(builtin.value, args, top).None? then tag == args
            else |tag| == Arity(builtin.value) && forall i :: 0 <= i < |tag| && i < |args| ==> tag[i] == args[i]
  {
  }

  /** **A type accepts its own tag.** Narrowing to `name<args>` accepts a value tagged with that very
      type, kinds resolved on the tag's side only, exactly when as many arguments are written as the
      head carries; given that no argument has a function or `never` part or an empty union. */
  lemma NarrowingAcceptsOwnTag(name: string, args: seq<TypeRef>, span: Span, kinds: map<string, Kind>, top: bool)
    requires forall i :: 0 <= i < |args| ==>
               FnFree(TypeRefRepr(args[i], Agnostic, false)) && InhabitedUnions(TypeRefRepr(args[i], Agnostic, false))
    ensures NarrowArgsMatch(Project(args, Agnostic),
      TypeRefRepr(TypeRef.Named(name, args, span), Registry(kinds), top)) <==>
              match BuiltinNamed(name)
              case None => true
              case Some(b) => BuiltinRepr(b, Project(args, Registry(kinds)), top).None? || |args| == Arity(b)
  {
    var target, actual := Project(args, Agnostic), Project(args, Registry(kinds));
    forall i | 0 <= i < |args| ensures ArgMatches(target[i], actual[i]) {
      ProjectionsDifferInKind(args[i], kinds, false);
      KindDifferenceMatches(target[i], actual[i]);
    }
    var builtin := BuiltinNamed(name);
    assert TypeRefRepr(TypeRef.Named(name, args, span), Registry(kinds), top) ==
      NamedRepr(builtin, name, actual, Registry(kinds), top);
    TagArgs(builtin, name, actual, Registry(kinds), top);
    OwnTagArity(builtin, name, target, actual, kinds, top);
  }

  lemma OwnTagArity(
    builtin: Option<Builtin>, name: string, target: seq<TypeRepr>, actual: seq<TypeRepr>, kinds: map<string, Kind>,
    top: bool)
    requires |target| == |actual| && forall i :: 0 <= i < |target| ==> ArgMatches(target[i], actual[i])
    ensures NarrowArgsMatch(target, NamedRepr(builtin, name, actual, Registry(kinds), top)) <==>
              match builtin
              case None => true
              case Some(b) => BuiltinRepr(b, actual, top).None? || |target| == Arity(b)
  {
    TagArgs(builtin, name, actual, Registry(kinds), top);
  }
}
