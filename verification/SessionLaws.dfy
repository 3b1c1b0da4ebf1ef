/** What the merge theorems say of a whole session, over all its tables at once. */
module SessionLaws {
  import opened Wrappers
  import opened KeyedMerge
  import opened MergeTables
  import opened MergeConservation
  import opened MergeCold
  import opened MergeInPlace
  import opened MergeMarked
  import opened MergeSets
  import opened MergeHeld
  import opened Accumulation

  /** Types and signatures are superseded by whoever supplies them; so is a declaration's own row. */
  lemma OwnTypesAndParams(f: Tables)
    ensures OwnRows(TypePurged(f), f.types) && OwnRows(ParamsPurged(f), f.params)
    ensures forall r :: r in f.manifest && SplitParamTarget(r.target).None? ==> ManifestPurged(f)(r)
  {
  }

  /** The tags a fragment brings, without those it only repeats. */
  function NewTags(t: Tables, f: Tables): seq<RoleTagRecord> {
    Unheld(TagPurged(f), TagKey(), t.roleTags, f.roleTags)
  }

  /** The implementations a fragment brings, without those it only repeats. */
  function NewImpls(t: Tables, f: Tables): seq<TraitImplRecord> {
    Unheld(ImplPurged(f), ImplKey(), t.traitImpls, f.traitImpls)
  }

  /** All five tables merged plainly, the set-like ones without what the fragment repeats. */
  lemma PlainTables(t: Tables, f: Tables)
    requires Distinct(f.roleTags) && Distinct(f.traitImpls)
    ensures var a := Accumulated(t, f);
            && a.roleTags == Merged(TagPurged(f), TagKey(), t.roleTags, NewTags(t, f))
            && a.traitImpls == Merged(ImplPurged(f), ImplKey(), t.traitImpls, NewImpls(t, f))
  {
    SetMergeIsUnheldMerge(TagPurged(f), TagKey(), t.roleTags, f.roleTags);
    SetMergeIsUnheldMerge(ImplPurged(f), ImplKey(), t.traitImpls, f.traitImpls);
  }

  /** Declaration by declaration, the rows of each table stand together. */
  ghost predicate ContiguousTables(t: Tables, f: Tables) {
    && Contiguous(TypeKey(), f.types) && Contiguous(ManifestKey(), f.manifest) && Contiguous(ParamsKey(), f.params)
    && Contiguous(TagKey(), NewTags(t, f)) && Contiguous(ImplKey(), NewImpls(t, f))
  }

  /** Nothing the fragment places survives in the session: its parameter rows come with their callables,
      and no held tag or implementation stands ahead of a redeclared one. */
  ghost predicate NothingPlacedTwice(t: Tables, f: Tables) {
    && NothingHeld(ManifestPurged(f), t.manifest, f.manifest)
    && NothingHeld(TagPurged(f), t.roleTags, NewTags(t, f))
    && NothingHeld(ImplPurged(f), t.traitImpls, NewImpls(t, f))
  }

  /** `cold` is what absorbing `f` promises, table by table, with its role index derived. */
  ghost predicate TablesAsPlanned(t: Tables, f: Tables, cold: Tables) {
    && AsPlanned(TypePurged(f), TypeKey(), t.types, f.types, cold.types)
    && AsPlanned(ManifestPurged(f), ManifestKey(), t.manifest, f.manifest, cold.manifest)
    && AsPlanned(ParamsPurged(f), ParamsKey(), t.params, f.params, cold.params)
    && AsPlanned(TagPurged(f), TagKey(), t.roleTags, NewTags(t, f), cold.roleTags)
    && AsPlanned(ImplPurged(f), ImplKey(), t.traitImpls, NewImpls(t, f), cold.traitImpls)
    && cold.roles == RolesOf(cold.manifest, cold.roleTags)
  }

  /** **A session equals a cold compile** exactly when, in each of the five tables, the cold one has the rows
      that survive, the rows the fragment brings, and every one of those where the merge plans it, and its
      role index is derived from its own manifest and tags. */
  lemma SessionEqualsCold(t: Tables, f: Tables, cold: Tables)
    requires Distinct(f.roleTags) && Distinct(f.traitImpls) && ContiguousTables(t, f) && NothingPlacedTwice(t, f)
    ensures Accumulated(t, f) == cold <==> TablesAsPlanned(t, f, cold)
  {
    OwnTypesAndParams(f);
    PlainTables(t, f);
    MergeEqualsCold(TypePurged(f), TypeKey(), t.types, f.types, cold.types);
    MergeEqualsCold(ManifestPurged(f), ManifestKey(), t.manifest, f.manifest, cold.manifest);
    MergeEqualsCold(ParamsPurged(f), ParamsKey(), t.params, f.params, cold.params);
    MergeEqualsCold(TagPurged(f), TagKey(), t.roleTags, NewTags(t, f), cold.roleTags);
    MergeEqualsCold(ImplPurged(f), ImplKey(), t.traitImpls, NewImpls(t, f), cold.traitImpls);
  }

  /** Everything the session holds is superseded. */
  ghost predicate AllSuperseded(t: Tables, f: Tables) {
    && OwnRows(TypePurged(f), t.types) && OwnRows(ManifestPurged(f), t.manifest)
    && OwnRows(ParamsPurged(f), t.params)
    && OwnRows(TagPurged(f), t.roleTags) && OwnRows(ImplPurged(f), t.traitImpls)
  }

  /** **Redeclaring everything** leaves the fragment, verbatim in every table. */
  lemma SessionRedeclared(t: Tables, f: Tables)
    requires Distinct(f.roleTags) && Distinct(f.traitImpls) && AllSuperseded(t, f)
    requires Contiguous(TypeKey(), f.types) && Contiguous(ManifestKey(), f.manifest)
    requires Contiguous(ParamsKey(), f.params)
    requires Contiguous(TagKey(), f.roleTags) && Contiguous(ImplKey(), f.traitImpls)
    ensures Accumulated(t, f) == f.(roles := RolesOf(f.manifest, f.roleTags))
  {
    NothingRepeated(TagPurged(f), TagKey(), t.roleTags, f.roleTags);
    NothingRepeated(ImplPurged(f), ImplKey(), t.traitImpls, f.traitImpls);
    RedeclareEverything(TypePurged(f), TypeKey(), t.types, f.types);
    RedeclareEverything(ManifestPurged(f), ManifestKey(), t.manifest, f.manifest);
    RedeclareEverything(ParamsPurged(f), ParamsKey(), t.params, f.params);
    RedeclareEverything(TagPurged(f), TagKey(), t.roleTags, f.roleTags);
    RedeclareEverything(ImplPurged(f), ImplKey(), t.traitImpls, f.traitImpls);
  }

  lemma NothingRepeated<T(!new), K(!new)>(purged: T -> bool, key: T -> K, base: seq<T>, fragment: seq<T>)
    requires Distinct(fragment) && OwnRows(purged, base)
    ensures MergedSet(purged, key, base, fragment) == Merged(purged, key, base, fragment)
  {
    KeptRecords(purged, base);
    SetMergeIsMerge(purged, key, base, fragment);
  }

  /** The fragment's declarations have their places in the table, in the fragment's order. */
  ghost predicate InOrder<T(!new), K(!new)>(purged: T -> bool, key: T -> K, base: seq<T>, fragment: seq<T>) {
    SlotKeys(purged, key, base, Keys(key, fragment)) == Keys(key, fragment)
  }

  /** **A body edit moves nothing, in any table**: each declaration's rows are replaced where they stood. */
  lemma SessionInPlace(t: Tables, f: Tables)
    requires Distinct(f.roleTags) && Distinct(f.traitImpls)
    requires InOrder(TypePurged(f), TypeKey(), t.types, f.types)
    requires InOrder(ManifestPurged(f), ManifestKey(), t.manifest, f.manifest)
    requires InOrder(ParamsPurged(f), ParamsKey(), t.params, f.params)
    requires InOrder(TagPurged(f), TagKey(), t.roleTags, NewTags(t, f))
    requires InOrder(ImplPurged(f), ImplKey(), t.traitImpls, NewImpls(t, f))
    ensures var a := Accumulated(t, f);
            && a.types == Replaced(TypePurged(f), TypeKey(), t.types, f.types)
            && a.manifest == Replaced(ManifestPurged(f), ManifestKey(), t.manifest, f.manifest)
            && a.params == Replaced(ParamsPurged(f), ParamsKey(), t.params, f.params)
            && a.roleTags == Replaced(TagPurged(f), TagKey(), t.roleTags, NewTags(t, f))
            && a.traitImpls == Replaced(ImplPurged(f), ImplKey(), t.traitImpls, NewImpls(t, f))
  {
    PlainTables(t, f);
    InPlace(TypePurged(f), TypeKey(), t.types, f.types);
    InPlace(ManifestPurged(f), ManifestKey(), t.manifest, f.manifest);
    InPlace(ParamsPurged(f), ParamsKey(), t.params, f.params);
    InPlace(TagPurged(f), TagKey(), t.roleTags, NewTags(t, f));
    InPlace(ImplPurged(f), ImplKey(), t.traitImpls, NewImpls(t, f));
  }

  /** What a table appended stands together, declaration by declaration. */
  ghost predicate AppendedTogether<T(!new), K(!new)>(
    purged: T -> bool, key: T -> K, base: seq<T>, fragment: seq<T>) {
    Contiguous(key, Appended(purged, key, base, fragment))
  }

  /** A set-like table that a second install leaves alone: nothing that survives the first is placed through
      a slot by the second, and what the first appended of the fragment's own rows stands together. */
  ghost predicate SettlesAtOnce<T(!new), K(!new)>(purged: T -> bool, key: T -> K, base: seq<T>, fragment: seq<T>) {
    && PlacesNoSurvivor(purged, key, MergedSet(purged, key, base, fragment), fragment)
    && Together(key, Appended(purged, key, base, Unheld(purged, key, base, fragment)),
                Keys(key, OwnPart(purged, fragment)))
  }

  /** **Absorbing the same fragment again changes nothing** exactly when its manifest rows come with what
      supersedes them, what the first time appended stands together in the three sequence-like tables, and
      the two set-like ones settle at once. */
  lemma SessionIdempotent(t: Tables, f: Tables)
    requires Distinct(f.roleTags) && Distinct(f.traitImpls)
    ensures Accumulated(Accumulated(t, f), f) == Accumulated(t, f) <==>
            && OwnRows(ManifestPurged(f), f.manifest)
            && AppendedTogether(TypePurged(f), TypeKey(), t.types, f.types)
            && AppendedTogether(ManifestPurged(f), ManifestKey(), t.manifest, f.manifest)
            && AppendedTogether(ParamsPurged(f), ParamsKey(), t.params, f.params)
            && SettlesAtOnce(TagPurged(f), TagKey(), t.roleTags, f.roleTags)
            && SettlesAtOnce(ImplPurged(f), ImplKey(), t.traitImpls, f.traitImpls)
  {
    OwnTypesAndParams(f);
    RemergeIsIdempotent(TypePurged(f), TypeKey(), t.types, f.types);
    RemergeIsIdempotent(ManifestPurged(f), ManifestKey(), t.manifest, f.manifest);
    RemergeIsIdempotent(ParamsPurged(f), ParamsKey(), t.params, f.params);
    SetRemergeIs(TagPurged(f), TagKey(), t.roleTags, f.roleTags);
    SetRemergeIs(ImplPurged(f), ImplKey(), t.traitImpls, f.traitImpls);
  }

  // ----- A session that grows by a row per install -----

  function Repeated<S>(step: S -> S, s: S, n: nat): S {
    if n == 0 then s else step(Repeated(step, s, n - 1))
  }

  /** What goes up by one in each step goes up by `n` in `n`. */
  lemma {:induction false} CountsUp<S(!new)>(step: S -> S, count: S -> int, holds: S -> bool, s: S, n: nat)
    requires forall u :: holds(u) ==> holds(step(u)) && count(step(u)) == count(u) + 1
    requires holds(s)
    ensures holds(Repeated(step, s, n)) && count(Repeated(step, s, n)) == count(s) + n
    decreases n
  {
    if n > 0 {
      CountsUp(step, count, holds, s, n - 1);
    }
  }

  function Install(f: Tables): Tables -> Tables { (u: Tables) => Accumulated(u, f) }

  /** The session after `n` more installs of `f`. */
  function Installs(t: Tables, f: Tables, n: nat): Tables {
    Repeated(Install(f), t, n)
  }

  /** A record ahead of a superseded one leaves no key waiting. */
  lemma NothingPending<T(!new), K(!new)>(purged: T -> bool, key: T -> K, base: seq<T>, a: T, b: T)
    requires key(a) != key(b) && purged(b) && b in base
    ensures PlanOf(Keys(key, [a, b]), SlotKeys(purged, key, base, Keys(key, [a, b]))).pending == []
  {
    assert [a, b] == [a] + [b] && [a] == [] + [a];
    KeysSnoc(key, [], a);
    KeysSnoc(key, [a], b);
    SupersededKey(purged, key, base, [key(a), key(b)], b);
  }

  /** One new row placed ahead of a redeclared one is there once more. */
  lemma PlacedOnceMore<T(!new), K(!new)>(purged: T -> bool, key: T -> K, base: seq<T>, a: T, b: T)
    requires key(a) != key(b) && !purged(a) && purged(b) && b in base
    ensures multiset(MergedSet(purged, key, base, [a, b]))[a] == multiset(base)[a] + 1
    ensures b in MergedSet(purged, key, base, [a, b])
  {
    var f := [a, b];
    assert f[0] == a && f[1] == b;
    NothingPending(purged, key, base, a, b);
    OnlyNone(key, f);
    SetMergeIsMerge(purged, key, base, f);
    MergeConserves(purged, key, base, f);
    KeptCount(purged, base, a);
    assert multiset(f)[a] == 1;
    MergedRecords(purged, key, base, f);
  }

  /** One row of a type that is not redeclared, ahead of one of a type that is. */
  ghost predicate Growing(f: Tables, a: TraitImplRecord, b: TraitImplRecord) {
    f.traitImpls == [a, b] && a.typeName !in Redeclared(f) && b.typeName in Redeclared(f)
  }

  lemma OneMoreInstall(t: Tables, f: Tables, a: TraitImplRecord, b: TraitImplRecord)
    requires Growing(f, a, b) && b in t.traitImpls
    ensures multiset(Install(f)(t).traitImpls)[a] == multiset(t.traitImpls)[a] + 1
    ensures b in Install(f)(t).traitImpls
  {
    PlacedOnceMore(ImplPurged(f), ImplKey(), t.traitImpls, a, b);
  }

  /** **A session can grow without end.** A fragment with `impl Foo for A`, where `A` is not its own, ahead of a
      redeclared `B` leaves one more copy of that implementation with every install, although the table
      appends nothing. */
  lemma InstallsGrow(t: Tables, f: Tables, a: TraitImplRecord, b: TraitImplRecord, n: nat)
    requires Growing(f, a, b) && b in t.traitImpls
    ensures multiset(Installs(t, f, n).traitImpls)[a] == multiset(t.traitImpls)[a] + n
  {
    var count := (u: Tables) => multiset(u.traitImpls)[a];
    var holds := (u: Tables) => b in u.traitImpls;
    forall u | holds(u) ensures holds(Install(f)(u)) && count(Install(f)(u)) == count(u) + 1 {
      OneMoreInstall(u, f, a, b);
    }
    CountsUp(Install(f), count, holds, t, n);
  }

  // ----- A session in which the same program is absorbed twice -----

  lemma TwiceMerged<T(!new), K(!new)>(purged: T -> bool, key: T -> K, s: seq<T>)
    requires OwnRows(purged, s)
    ensures Merged(purged, key, [], s) == s
    ensures Merged(purged, key, s, s) == s <==> Contiguous(key, s)
  {
    var fkeys := Keys(key, s);
    OntoEmpty(purged, key, s);
    RemergeIsIdempotent(purged, key, [], s);
    NoSlots(fkeys);
    OnlyAll(key, s, s);
  }

  lemma SessionOfTwo(f: Tables)
    ensures Session([f, f]) == Accumulated(Session([f]), f)
    ensures Session([f]) == Accumulated(Tables([], [], [], [], [], []), f)
  {
    assert [f][..0] == [] && [f, f][..1] == [f];
  }

  /** Its signatures stay put exactly when the program's are contiguous by declaration. */
  lemma TwiceKeepsSignatures(f: Tables)
    ensures Session([f, f]).params == Session([f]).params <==> Contiguous(ParamsKey(), f.params)
  {
    OwnTypesAndParams(f);
    TwiceMerged(ParamsPurged(f), ParamsKey(), f.params);
    SessionOfTwo(f);
  }

  /** A type's method, another type's, then one that a standalone `impl` adds to the first: `T.m`, `U.n`, `T.k`.
      Absorbing that program again moves `T.k` ahead of `U.n`. */
  lemma StandaloneImplMoves(f: Tables, a: ParamRecord, b: ParamRecord, c: ParamRecord)
    requires f.params == [a, b, c] && ParamBase(a.target) == ParamBase(c.target) != ParamBase(b.target)
    ensures Session([f, f]).params != Session([f]).params
  {
    TwiceKeepsSignatures(f);
    var key := ParamsKey();
    assert key(f.params[0]) == key(f.params[2]) && key(f.params[1]) != key(f.params[0]);
  }
}
