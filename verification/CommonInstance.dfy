/** What the wildcard match means: some value's type fits both sides; and so, when narrowing rejects. */
module CommonInstance {
  import opened Wrappers
  import R = TypeReprs
  import opened Narrowing

  // ----- The types a descriptor stands for -----

  /** A descriptor with nothing left open: no `Dyn`, no union, and no function or `never`. */
  ghost predicate Settled(t: TypeRepr) {
    !t.Dyn? && !t.Union? && !t.Fn? && !t.Never? && forall i :: 0 <= i < |R.Parts(t)| ==> Settled(R.Parts(t)[i])
  }

  /** `g` is one of the types `t` stands for: `Dyn` stands for every settled type, a union for what its members
      stand for, and anything else for the types of its own head, whatever their kind, with parts it stands for. */
  ghost predicate Instance(t: TypeRepr, g: TypeRepr)
    decreases t
  {
    if t.Dyn? then Settled(g)
    else if t.Union? then exists i :: 0 <= i < |t.members| && Instance(t.members[i], g)
    else (Compatible(t, g) && !g.Dyn? && !g.Union?
      && forall i :: 0 <= i < |R.Parts(t)| ==> Instance(R.Parts(t)[i], R.Parts(g)[i]))
  }

  /** Some type is an instance of both. */
  ghost predicate Overlap(e: TypeRepr, a: TypeRepr) {
    exists g :: Instance(e, g) && Instance(a, g)
  }

  // ----- Building an instance -----

  /** The descriptor with `t`'s head and the given parts. */
  function WithParts(t: TypeRepr, ps: seq<TypeRepr>): TypeRepr
    requires |ps| == |R.Parts(t)|
  {
    match t
    case ListOf(_) => R.ListOf(ps[0])
    case SetOf(_) => R.SetOf(ps[0])
    case OptionOf(_) => R.OptionOf(ps[0])
    case MapOf(_, _) => R.MapOf(ps[0], ps[1])
    case ResultOf(_, _) => R.ResultOf(ps[0], ps[1])
    case Enum(n, _) => R.Enum(n, ps)
    case Struct(n, _) => R.Struct(n, ps)
    case Class(n, _) => R.Class(n, ps)
    case Named(n, _) => R.Named(n, ps)
    case Fn(_, _) => R.Fn(ps[..|ps| - 1], ps[|ps| - 1])
    case Union(_) => R.Union(ps)
    case _ => t
  }

  lemma HeadKept(t: TypeRepr, ps: seq<TypeRepr>)
    requires |ps| == |R.Parts(t)|
    ensures R.HeadOf(WithParts(t, ps)) == R.HeadOf(t) && R.Parts(WithParts(t, ps)) == ps
  {
  }

  lemma {:induction false} InstanceIsSettled(t: TypeRepr, g: TypeRepr)
    requires Instance(t, g)
    ensures Settled(g)
    decreases t
  {
    if t.Dyn? {
    } else if t.Union? {
      var i :| 0 <= i < |t.members| && Instance(t.members[i], g);
      InstanceIsSettled(t.members[i], g);
    } else {
      forall i | 0 <= i < |R.Parts(g)| ensures Settled(R.Parts(g)[i]) {
        InstanceIsSettled(R.Parts(t)[i], R.Parts(g)[i]);
      }
      CompatibleIsSymmetric(t, g);
    }
  }

  /** A descriptor whose unions have members, with no function or `never` in it, stands for something. */
  lemma {:induction false} SomeInstance(t: TypeRepr) returns (g: TypeRepr)
    requires InhabitedUnions(t) && FnFree(t)
    ensures Instance(t, g)
  {
    if t.Dyn? {
      g := R.Int;
    } else if t.Union? {
      assert R.Parts(t)[0] == t.members[0];
      g := SomeInstance(t.members[0]);
    } else {
      var ps := SomeInstances(t, |R.Parts(t)|);
      HeadKept(t, ps);
      g := WithParts(t, ps);
    }
  }

  lemma {:induction false} SomeInstances(t: TypeRepr, n: nat) returns (ps: seq<TypeRepr>)
    requires InhabitedUnions(t) && FnFree(t) && n <= |R.Parts(t)|
    ensures |ps| == n && forall i :: 0 <= i < n ==> Instance(R.Parts(t)[i], ps[i])
    decreases t, n
  {
    ps := [];
    if n > 0 {
      ps := SomeInstances(t, n - 1);
      var g := SomeInstance(R.Parts(t)[n - 1]);
      ps := ps + [g];
    }
  }

  // ----- Matching is having a common instance -----

  lemma {:induction false} OverlapMatches(e: TypeRepr, a: TypeRepr, g: TypeRepr)
    requires Instance(e, g) && Instance(a, g)
    ensures ArgMatches(e, a)
    decreases e, a
  {
    if e.Dyn? || a.Dyn? {
    } else if e.Union? {
      var i :| 0 <= i < |e.members| && Instance(e.members[i], g);
      OverlapMatches(e.members[i], a, g);
    } else if a.Union? {
      var j :| 0 <= j < |a.members| && Instance(a.members[j], g);
      OverlapMatches(e, a.members[j], g);
    } else {
      forall i | 0 <= i < |R.Parts(e)| ensures ArgMatches(R.Parts(e)[i], R.Parts(a)[i]) {
        OverlapMatches(R.Parts(e)[i], R.Parts(a)[i], R.Parts(g)[i]);
      }
      HeadMatches(e, a);
    }
  }

  lemma {:induction false} MatchOverlaps(e: TypeRepr, a: TypeRepr) returns (g: TypeRepr)
    requires InhabitedUnions(e) && InhabitedUnions(a) && FnFree(e) && FnFree(a)
    requires ArgMatches(e, a)
    ensures Instance(e, g) && Instance(a, g)
    decreases e, a, 1, 0
  {
    if e.Dyn? {
      g := SomeInstance(a);
      InstanceIsSettled(a, g);
    } else if a.Dyn? {
      g := SomeInstance(e);
      InstanceIsSettled(e, g);
    } else if e.Union? {
      var i :| 0 <= i < |e.members| && ArgMatches(e.members[i], a);
      assert R.Parts(e)[i] == e.members[i];
      g := MatchOverlaps(e.members[i], a);
    } else if a.Union? {
      var j :| 0 <= j < |a.members| && ArgMatches(e, a.members[j]);
      assert R.Parts(a)[j] == a.members[j];
      g := MatchOverlaps(e, a.members[j]);
    } else {
      HeadMatches(e, a);
      var ps := PartsOverlap(e, a, |R.Parts(e)|);
      g := WithParts(e, ps);
      SharedInstance(e, a, ps);
    }
  }

  /** Of two heads that can match, the first with parts both stand for. */
  lemma SharedInstance(e: TypeRepr, a: TypeRepr, ps: seq<TypeRepr>)
    requires !e.Dyn? && !a.Dyn? && !e.Union? && !a.Union? && Compatible(e, a) && |ps| == |R.Parts(e)|
    requires forall i :: 0 <= i < |ps| ==> Instance(R.Parts(e)[i], ps[i]) && Instance(R.Parts(a)[i], ps[i])
    ensures Instance(e, WithParts(e, ps)) && Instance(a, WithParts(e, ps))
  {
    HeadKept(e, ps);
    CompatibleIsSymmetric(e, a);
  }

  lemma {:induction false} PartsOverlap(e: TypeRepr, a: TypeRepr, n: nat) returns (ps: seq<TypeRepr>)
    requires InhabitedUnions(e) && InhabitedUnions(a) && FnFree(e) && FnFree(a)
    requires n <= |R.Parts(e)| == |R.Parts(a)|
    requires forall i :: 0 <= i < n ==> ArgMatches(R.Parts(e)[i], R.Parts(a)[i])
    ensures |ps| == n
    ensures forall i :: 0 <= i < n ==> Instance(R.Parts(e)[i], ps[i]) && Instance(R.Parts(a)[i], ps[i])
    decreases e, a, 0, n
  {
    ps := [];
    if n > 0 {
      ps := PartsOverlap(e, a, n - 1);
      var g := MatchOverlaps(R.Parts(e)[n - 1], R.Parts(a)[n - 1]);
      ps := ps + [g];
    }
  }

  /** **What the wildcard match means.** A target's argument accepts a tag's exactly when some type is one of
      those both stand for. */
  lemma MatchingIsOverlap(e: TypeRepr, a: TypeRepr)
    requires InhabitedUnions(e) && InhabitedUnions(a) && FnFree(e) && FnFree(a)
    ensures ArgMatches(e, a) <==> Overlap(e, a)
  {
    if ArgMatches(e, a) { var g := MatchOverlaps(e, a); }
    if Overlap(e, a) { OverlapAccepts(e, a); }
  }

  lemma OverlapAccepts(e: TypeRepr, a: TypeRepr)
    requires Overlap(e, a)
    ensures ArgMatches(e, a)
  {
    var g :| Instance(e, g) && Instance(a, g);
    OverlapMatches(e, a, g);
  }

  // ----- Narrowing -----

  /** **When narrowing rejects.** It accepts exactly when as many arguments are written as the tag has, and each
      written one and the tag's in its place have a type in common. */
  lemma NarrowingIs(target: seq<TypeRepr>, actual: TypeRepr)
    requires forall i :: 0 <= i < |target| ==> InhabitedUnions(target[i]) && FnFree(target[i])
    requires forall i :: 0 <= i < |R.TypeArgs(actual)| ==>
      InhabitedUnions(R.TypeArgs(actual)[i]) && FnFree(R.TypeArgs(actual)[i])
    ensures NarrowArgsMatch(target, actual) <==>
            |target| == |R.TypeArgs(actual)| && forall i :: 0 <= i < |target| ==>
              Overlap(target[i], R.TypeArgs(actual)[i])
  {
    if |target| == |R.TypeArgs(actual)| {
      forall i | 0 <= i < |target|
        ensures ArgMatches(target[i], R.TypeArgs(actual)[i]) <==> Overlap(target[i], R.TypeArgs(actual)[i])
      {
        MatchingIsOverlap(target[i], R.TypeArgs(actual)[i]);
      }
    }
  }

  /** Settled descriptors match exactly when they differ at most in the kinds of declared types. */
  lemma {:induction false} SettledMatch(e: TypeRepr, a: TypeRepr)
    requires Settled(e) && Settled(a)
    ensures ArgMatches(e, a) <==> SameButKind(e, a)
    decreases e
  {
    HeadMatches(e, a);
    SameHeads(e, a);
    if Compatible(e, a) {
      forall i | 0 <= i < |R.Parts(e)|
        ensures ArgMatches(R.Parts(e)[i], R.Parts(a)[i]) <==> SameButKind(R.Parts(e)[i], R.Parts(a)[i])
      {
        SettledMatch(R.Parts(e)[i], R.Parts(a)[i]);
      }
    }
  }

  lemma SameHeads(e: TypeRepr, a: TypeRepr)
    requires !e.Fn? && !e.Never?
    ensures SameButKind(e, a) <==>
            Compatible(e, a) && forall i :: 0 <= i < |R.Parts(e)| ==> SameButKind(R.Parts(e)[i], R.Parts(a)[i])
  {
    R.HeadFixesPartsIf(e, a);
  }

  /** **With nothing left open, narrowing compares.** */
  lemma SettledNarrowing(target: seq<TypeRepr>, actual: TypeRepr)
    requires forall i :: 0 <= i < |target| ==> Settled(target[i])
    requires forall i :: 0 <= i < |R.TypeArgs(actual)| ==> Settled(R.TypeArgs(actual)[i])
    ensures NarrowArgsMatch(target, actual) <==>
            |target| == |R.TypeArgs(actual)| && forall i :: 0 <= i < |target| ==>
              SameButKind(target[i], R.TypeArgs(actual)[i])
  {
    if |target| == |R.TypeArgs(actual)| {
      forall i | 0 <= i < |target|
        ensures ArgMatches(target[i], R.TypeArgs(actual)[i]) <==> SameButKind(target[i], R.TypeArgs(actual)[i])
      {
        SettledMatch(target[i], R.TypeArgs(actual)[i]);
      }
    }
  }

  /** `x is List<int>` on a list of strings, of lists or of bytes: `List<a>` accepts a `List<b>` exactly when `a`
      and `b` differ at most in kind. */
  lemma ListNarrowing(a: TypeRepr, b: TypeRepr)
    requires Settled(a) && Settled(b)
    ensures NarrowArgsMatch([a], R.ListOf(b)) <==> SameButKind(a, b)
    ensures !NarrowArgsMatch([R.Int], R.ListOf(R.Str)) && !NarrowArgsMatch([R.Int], R.ListOf(R.IntN(true, 32)))
  {
    OneArgument(a, b);
    OneArgument(R.Int, R.Str);
    OneArgument(R.Int, R.IntN(true, 32));
    SameHeads(R.Int, R.Str);
    SameHeads(R.Int, R.IntN(true, 32));
  }

  lemma OneArgument(a: TypeRepr, b: TypeRepr)
    requires Settled(a) && Settled(b)
    ensures NarrowArgsMatch([a], R.ListOf(b)) <==> SameButKind(a, b)
  {
    var actual := R.ListOf(b);
    assert R.TypeArgs(actual) == [b] && [a][0] == a;
    SettledNarrowing([a], actual);
  }

  /** **Knowing less of a tag's arguments never makes narrowing reject.** */
  lemma BlurKeepsNarrowing(target: seq<TypeRepr>, actual: TypeRepr, blurred: TypeRepr)
    requires NarrowArgsMatch(target, actual) && Blurs(actual, blurred) && !blurred.Dyn?
    ensures NarrowArgsMatch(target, blurred)
  {
    BlurKeepsHeadOf(actual, blurred);
    BlurredArgs(actual, blurred);
    forall i | 0 <= i < |target| ensures ArgMatches(target[i], R.TypeArgs(blurred)[i]) {
      BlurKeepsMatch(target[i], R.TypeArgs(actual)[i], R.TypeArgs(blurred)[i]);
    }
  }

  lemma BlurredArgs(a: TypeRepr, b: TypeRepr)
    requires R.HeadOf(a) == R.HeadOf(b) && |R.Parts(a)| == |R.Parts(b)|
    requires forall i :: 0 <= i < |R.Parts(a)| ==> Blurs(R.Parts(a)[i], R.Parts(b)[i])
    ensures |R.TypeArgs(a)| == |R.TypeArgs(b)|
    ensures forall i :: 0 <= i < |R.TypeArgs(a)| ==> Blurs(R.TypeArgs(a)[i], R.TypeArgs(b)[i])
  {
    assert R.TypeArgs(a) == R.Parts(a) || R.TypeArgs(a) == [];
    assert R.TypeArgs(b) == R.Parts(b) || R.TypeArgs(b) == [];
  }
}
