/** What one fragment does to one row of a session: which rows stay, and where a redeclared one lands. */
module SessionRows {
  import opened Wrappers
  import opened KeyedMerge
  import opened MergeTables
  import opened MergeConservation
  import opened MergeCold
  import opened MergeInPlace
  import opened MergeSets
  import opened MergeEdits
  import opened Accumulation

  // ----- Targets, read by their characters -----

  /** The fragment has a type, an attribute or a role on `name`. */
  ghost predicate Names(f: Tables, name: string) {
    || (exists i :: 0 <= i < |f.types| && f.types[i].name == name)
    || (exists i :: 0 <= i < |f.manifest| && f.manifest[i].target == name)
    || (exists i :: 0 <= i < |f.roles| && f.roles[i].target == name)
  }

  /** `s` is `front`, or goes on after it with `c`; there is no `c` in `front`. */
  ghost predicate UpTo(s: string, front: string, c: char) {
    c !in front && (s == front || front + [c] <= s)
  }

  /** What the code cuts a target down to is what stands before its first `c`. */
  lemma {:induction false} CutIs(s: string, front: string, c: char)
    ensures UpTo(s, front, c) <==>
            front == match SplitOnce(s, c) { case Some(parts) => parts.0 case None => s }
  {
    var cut := match SplitOnce(s, c) { case Some(parts) => parts.0 case None => s };
    if SplitOnce(s, c).Some? {
      var rest := SplitOnce(s, c).value.1;
      assert s == cut + [c] + rest && cut + [c] <= s;
    }
    if UpTo(s, front, c) {
      OnePrefix(s, front, cut, c);
    }
  }

  /** No string has two such fronts. */
  lemma OnePrefix(s: string, a: string, b: string, c: char)
    requires UpTo(s, a, c) && UpTo(s, b, c)
    ensures a == b
  {
    assert a <= s && b <= s;
    if |a| == |b| {
      assert a == s[..|a|] == b;
    } else if |a| < |b| {
      LongerHolds(s, a, b, c);
    } else {
      LongerHolds(s, b, a, c);
    }
  }

  lemma LongerHolds(s: string, a: string, b: string, c: char)
    requires (s == a || a + [c] <= s) && b <= s && |a| < |b|
    ensures c in b
  {
    assert (a + [c])[|a|] == c;
    assert b[|a|] == s[|a|] == c;
  }

  lemma BaseIs(target: string, base: string)
    ensures UpTo(target, base, '.') <==> base == ParamBase(target)
  {
    CutIs(target, base, '.');
  }

  lemma CallableIs(target: string, callable: string)
    ensures UpTo(target, callable, '#') <==> callable == ManifestGroup(target)
  {
    CutIs(target, callable, '#');
  }

  lemma NamesAre(f: Tables, name: string)
    ensures Names(f, name) <==> name in Redeclared(f)
  {
  }

  // ----- Which rows stay -----

  /** A fragment takes away what it has on a type. */
  lemma TypeRows(t: Tables, f: Tables, r: TypeInfo)
    ensures r in Accumulated(t, f).types <==> r in f.types || (r in t.types && !Names(f, r.name))
  {
    NamesAre(f, r.name);
    MergedRecords(TypePurged(f), TypeKey(), t.types, f.types);
  }

  lemma TagRows(t: Tables, f: Tables, r: RoleTagRecord)
    ensures r in Accumulated(t, f).roleTags <==> r in f.roleTags || (r in t.roleTags && !Names(f, r.attribute))
  {
    NamesAre(f, r.attribute);
    MergedSetRecords(TagPurged(f), TagKey(), t.roleTags, f.roleTags);
  }

  lemma ImplRows(t: Tables, f: Tables, r: TraitImplRecord)
    ensures r in Accumulated(t, f).traitImpls <==> r in f.traitImpls || (r in t.traitImpls && !Names(f, r.typeName))
  {
    NamesAre(f, r.typeName);
    MergedSetRecords(ImplPurged(f), ImplKey(), t.traitImpls, f.traitImpls);
  }

  /** The fragment takes the signature away: something of it stands under the same first segment. */
  ghost predicate TakesSignature(f: Tables, target: string) {
    exists base :: UpTo(target, base, '.') &&
      (Names(f, base) || exists i :: 0 <= i < |f.params| && UpTo(f.params[i].target, base, '.'))
  }

  lemma SignatureTaken(f: Tables, p: ParamRecord)
    ensures TakesSignature(f, p.target) <==> ParamsPurged(f)(p)
  {
    var base := ParamBase(p.target);
    BaseIs(p.target, base);
    NamesAre(f, base);
    forall other ensures UpTo(p.target, other, '.') <==> other == base { BaseIs(p.target, other); }
    forall i | 0 <= i < |f.params|
      ensures UpTo(f.params[i].target, base, '.') <==> ParamBase(f.params[i].target) == base
    {
      BaseIs(f.params[i].target, base);
    }
  }

  lemma SignatureRows(t: Tables, f: Tables, p: ParamRecord)
    ensures p in Accumulated(t, f).params <==> p in f.params || (p in t.params && !TakesSignature(f, p.target))
  {
    SignatureTaken(f, p);
    MergedRecords(ParamsPurged(f), ParamsKey(), t.params, f.params);
  }

  /** The fragment takes the attribute row away: a parameter's with its callable's signature or its type, any
      other only with the very thing it is on. */
  ghost predicate TakesAttribute(f: Tables, target: string) {
    if '#' in target then
      exists callable, base :: UpTo(target, callable, '#') && UpTo(callable, base, '.') &&
        (Names(f, base) || exists i :: 0 <= i < |f.params| && f.params[i].target == callable)
    else Names(f, target)
  }

  lemma AttributeTaken(f: Tables, a: AttributeRecord)
    ensures TakesAttribute(f, a.target) <==> ManifestPurged(f)(a)
  {
    NamesAre(f, a.target);
    if '#' in a.target {
      var callable := ManifestGroup(a.target);
      var base := ParamBase(callable);
      CallableIs(a.target, callable);
      BaseIs(callable, base);
      NamesAre(f, base);
      forall c, b ensures UpTo(a.target, c, '#') && UpTo(c, b, '.') <==> c == callable && b == base {
        CallableIs(a.target, c);
        BaseIs(c, b);
      }
      assert callable in Callables(f) <==> exists i :: 0 <= i < |f.params| && f.params[i].target == callable;
    }
  }

  lemma AttributeRows(t: Tables, f: Tables, a: AttributeRecord)
    ensures a in Accumulated(t, f).manifest <==> a in f.manifest || (a in t.manifest && !TakesAttribute(f, a.target))
  {
    AttributeTaken(f, a);
    MergedRecords(ManifestPurged(f), ManifestKey(), t.manifest, f.manifest);
  }

  // ----- Where a redeclared row lands -----

  lemma {:induction false} KeptAll<T(!new)>(purged: T -> bool, s: seq<T>)
    requires forall r :: r in s ==> !purged(r)
    ensures Kept(purged, s) == s
  {
    if s != [] {
      var init, last := s[..|s| - 1], s[|s| - 1];
      assert s == init + [last] && last in s;
      forall r | r in init ensures !purged(r) { assert r in s; }
      KeptAll(purged, init);
    }
  }

  lemma NotThere<T(!new), K(!new)>(purged: T -> bool, key: T -> K, s: seq<T>, k: K)
    requires forall r :: r in s ==> !purged(r)
    ensures !Superseded(purged, key, s, k)
  {
    forall i | 0 <= i < |s| ensures !purged(s[i]) { assert s[i] in s; }
  }

  /** One record superseded by records of its key: they stand where it stood. */
  lemma OneReplaced<T(!new), K(!new)>(purged: T -> bool, key: T -> K, front: seq<T>, was: T, back: seq<T>, now: seq<T>)
    requires purged(was) && now != [] && (forall r :: r in now ==> key(r) == key(was))
    requires forall r :: r in front + back ==> !purged(r)
    ensures Merged(purged, key, front + [was] + back, now) == front + now + back
  {
    forall r | r in front ensures !purged(r) { assert r in front + back; }
    forall r | r in back ensures !purged(r) { assert r in front + back; }
    KeptAll(purged, front);
    KeptAll(purged, back);
    NotThere(purged, key, front, key(was));
    var none: seq<T> := [];
    assert none + now == now && front + none == front;
    LandsBeforeNext(purged, key, front, was, back, none, now, key(was));
  }

  /** A set-like table does the same with records none of which is there twice or stands in the rest. */
  lemma OneReplacedInSet<T(!new), K(!new)>(
    purged: T -> bool, key: T -> K, front: seq<T>, was: T, back: seq<T>, now: seq<T>)
    requires purged(was) && now != [] && Distinct(now) && (forall r :: r in now ==> key(r) == key(was))
    requires forall r :: r in front + back ==> !purged(r)
    requires forall r :: r in now ==> purged(r)
    ensures MergedSet(purged, key, front + [was] + back, now) == front + now + back
  {
    var base := front + [was] + back;
    OneReplaced(purged, key, front, was, back, now);
    KeptRecords(purged, base);
    OnlyKeys(key, now, PlanOf(Keys(key, now), SlotKeys(purged, key, base, Keys(key, now))).pending);
    SetMergeIsMerge(purged, key, base, now);
  }

  /** **A type edited stays in its place.** */
  lemma TypeEdited(t: Tables, f: Tables, front: seq<TypeInfo>, was: TypeInfo, back: seq<TypeInfo>)
    requires t.types == front + [was] + back && f.types != []
    requires forall r :: r in f.types ==> r.name == was.name
    requires forall r :: r in front + back ==> !Names(f, r.name)
    ensures Accumulated(t, f).types == front + f.types + back
  {
    assert f.types[0] in f.types && f.types[0].name == was.name;
    OneReplaced(TypePurged(f), TypeKey(), front, was, back, f.types);
  }

  /** **A signature edited stays in its place**, and so do the signatures that come with it under the same
      first segment. */
  lemma SignatureEdited(
    t: Tables, f: Tables, base: string, front: seq<ParamRecord>, was: ParamRecord, back: seq<ParamRecord>)
    requires t.params == front + [was] + back && f.params != []
    requires UpTo(was.target, base, '.') && forall p :: p in f.params ==> UpTo(p.target, base, '.')
    requires forall p :: p in front + back ==> !TakesSignature(f, p.target)
    ensures Accumulated(t, f).params == front + f.params + back
  {
    assert UpTo(f.params[0].target, base, '.');
    SignatureTaken(f, was);
    BaseIs(was.target, base);
    forall p | p in f.params ensures ParamsKey()(p) == ParamsKey()(was) { BaseIs(p.target, base); }
    forall p | p in front + back ensures !ParamsPurged(f)(p) { SignatureTaken(f, p); }
    OneReplaced(ParamsPurged(f), ParamsKey(), front, was, back, f.params);
  }

  /** **An attribute row edited stays in its place**, and with it the rows of the same callable: its own, and
      those of its parameters. */
  lemma AttributeEdited(
    t: Tables, f: Tables, callable: string, front: seq<AttributeRecord>, was: AttributeRecord,
      back: seq<AttributeRecord>)
    requires t.manifest == front + [was] + back && f.manifest != []
    requires UpTo(was.target, callable, '#') && forall a :: a in f.manifest ==> UpTo(a.target, callable, '#')
    requires TakesAttribute(f, was.target) && forall a :: a in front + back ==> !TakesAttribute(f, a.target)
    ensures Accumulated(t, f).manifest == front + f.manifest + back
  {
    AttributeTaken(f, was);
    CallableIs(was.target, callable);
    forall a | a in f.manifest ensures ManifestKey()(a) == ManifestKey()(was) { CallableIs(a.target, callable); }
    forall a | a in front + back ensures !ManifestPurged(f)(a) { AttributeTaken(f, a); }
    OneReplaced(ManifestPurged(f), ManifestKey(), front, was, back, f.manifest);
  }

  /** **A tag edited stays in its place.** */
  lemma TagEdited(t: Tables, f: Tables, front: seq<RoleTagRecord>, was: RoleTagRecord, back: seq<RoleTagRecord>)
    requires t.roleTags == front + [was] + back && f.roleTags != [] && Distinct(f.roleTags)
    requires Names(f, was.attribute) && forall r :: r in f.roleTags ==> r.attribute == was.attribute
    requires forall r :: r in front + back ==> !Names(f, r.attribute)
    ensures Accumulated(t, f).roleTags == front + f.roleTags + back
  {
    OneReplacedInSet(TagPurged(f), TagKey(), front, was, back, f.roleTags);
  }

  /** **An implementation edited stays in its place.** */
  lemma ImplEdited(t: Tables, f: Tables, front: seq<TraitImplRecord>, was: TraitImplRecord, back: seq<TraitImplRecord>)
    requires t.traitImpls == front + [was] + back && f.traitImpls != [] && Distinct(f.traitImpls)
    requires Names(f, was.typeName) && forall r :: r in f.traitImpls ==> r.typeName == was.typeName
    requires forall r :: r in front + back ==> !Names(f, r.typeName)
    ensures Accumulated(t, f).traitImpls == front + f.traitImpls + back
  {
    OneReplacedInSet(ImplPurged(f), ImplKey(), front, was, back, f.traitImpls);
  }
}
