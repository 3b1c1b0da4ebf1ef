/** Merging into tables that should hold no record twice. */
module MergeSets {
  import opened KeyedMerge
  import opened MergeTables
  import opened MergeConservation
  import opened MergeCold
  import opened MergeInPlace

  // ----- Set-like tables -----

  lemma {:induction false} AppendUnlessNever<T(!new)>(held: (seq<T>, T) -> bool, table: seq<T>, rest: seq<T>)
    requires forall t, r :: !held(t, r)
    ensures AppendUnless(held, table, rest) == table + rest
  {
    if rest != [] {
      AppendUnlessNever(held, table, rest[..|rest| - 1]);
      assert rest == rest[..|rest| - 1] + [rest[|rest| - 1]];
    }
  }

  lemma {:induction false} AppendUnlessRecords<T(!new)>(held: (seq<T>, T) -> bool, table: seq<T>, rest: seq<T>)
    requires forall t, r :: held(t, r) <==> r in t
    ensures forall r :: r in AppendUnless(held, table, rest) <==> r in table || r in rest
    ensures (forall r :: r in rest ==> r in table) ==> AppendUnless(held, table, rest) == table
  {
    if rest != [] {
      AppendUnlessRecords(held, table, rest[..|rest| - 1]);
      assert rest == rest[..|rest| - 1] + [rest[|rest| - 1]];
    }
  }

  /** A set-like merge holds the same records as the plain one. */
  lemma MergedSetRecords<T(!new), K(!new)>(purged: T -> bool, key: T -> K, base: seq<T>, fragment: seq<T>)
    ensures forall r :: r in MergedSet(purged, key, base, fragment) <==> (r in base && !purged(r)) || r in fragment
  {
    var fkeys := Keys(key, fragment);
    var plan := PlanOf(fkeys, SlotKeys(purged, key, base, fkeys));
    KeysDistinct(key, fragment);
    PlanFits(purged, key, base, fkeys);
    AppendUnlessRecords((table: seq<T>, r: T) => r in table, Walk(purged, key, base, fragment, fkeys, plan.emitted),
      Only(key, fragment, plan.pending));
    MergedRecords(purged, key, base, fragment);
  }

  /** Re-installing what the table already holds adds nothing: a long session does not grow a copy
      per install. */
  lemma ReinstallAddsNothing<T(!new), K(!new)>(purged: T -> bool, key: T -> K, base: seq<T>, fragment: seq<T>)
    requires (forall r :: r in base ==> !purged(r)) && forall r :: r in fragment ==> r in base
    ensures MergedSet(purged, key, base, fragment) == base
  {
    var fkeys := Keys(key, fragment);
    NothingPurged(purged, key, base, fragment, fkeys, []);
    NoSlots(fkeys);
    OnlyKeys(key, fragment, fkeys);
    AppendUnlessRecords((table: seq<T>, r: T) => r in table, base, Only(key, fragment, fkeys));
  }

  lemma {:induction false} NothingPurged<T(!new), K(!new)>(
    purged: T -> bool, key: T -> K, base: seq<T>, fragment: seq<T>, fkeys: seq<K>, emitted: seq<seq<K>>)
    requires forall r :: r in base ==> !purged(r)
    ensures SlotKeys(purged, key, base, fkeys) == []
    ensures Walk(purged, key, base, fragment, fkeys, emitted) == base
  {
    if base != [] {
      assert base[|base| - 1] in base;
      NothingPurged(purged, key, base[..|base| - 1], fragment, fkeys, emitted);
      assert base == base[..|base| - 1] + [base[|base| - 1]];
    }
  }

  lemma {:induction false} DistinctCount<T(!new)>(s: seq<T>, x: T)
    requires Distinct(s)
    ensures multiset(s)[x] <= 1
  {
    if s != [] {
      var init := s[..|s| - 1];
      assert s == init + [s[|s| - 1]];
      assert forall i :: 0 <= i < |init| ==> init[i] == s[i];
      DistinctCount(init, x);
    }
  }

  lemma DuplicateCount<T(!new)>(s: seq<T>)
    requires !Distinct(s)
    ensures exists x :: multiset(s)[x] >= 2
  {
    var i, j :| 0 <= i < j < |s| && s[i] == s[j];
    assert s == s[..j] + s[j..] && s[..j][i] == s[i] && s[j..][0] == s[j];
    assert multiset(s)[s[i]] == multiset(s[..j])[s[i]] + multiset(s[j..])[s[i]];
  }

  /** The incoming records a merge places through slots, ahead of the appended ones. */
  function Placed<T(!new), K(==, !new)>(purged: T -> bool, key: T -> K, base: seq<T>, fragment: seq<T>): seq<T> {
    var fkeys := Keys(key, fragment);
    FlatGroups(key, fragment, Concat(PlanOf(fkeys, SlotKeys(purged, key, base, fkeys)).emitted))
  }

  /** **The set-like merge drops re-supplied records only when it appends them.** Over tables without
      duplicates the result is without duplicates exactly when no untouched base record is among the
      incoming records placed through a slot, which are never compared with the table. */
  lemma MergedSetDistinct<T(!new), K(!new)>(purged: T -> bool, key: T -> K, base: seq<T>, fragment: seq<T>)
    requires Distinct(base) && Distinct(fragment)
    ensures Distinct(MergedSet(purged, key, base, fragment)) <==>
            forall r :: r in Kept(purged, base) ==> r !in Placed(purged, key, base, fragment)
  {
    var fkeys := Keys(key, fragment);
    var slots := SlotKeys(purged, key, base, fkeys);
    var plan := PlanOf(fkeys, slots);
    KeysDistinct(key, fragment);
    PlanFits(purged, key, base, fkeys);
    var w := Walk(purged, key, base, fragment, fkeys, plan.emitted);
    WalkCounts(purged, key, base, fragment);
    DistinctUnion(w, Kept(purged, base), Placed(purged, key, base, fragment));
    AppendUnlessDistinct((table: seq<T>, r: T) => r in table, w, Only(key, fragment, plan.pending));
  }

  lemma DistinctUnion<T(!new)>(w: seq<T>, a: seq<T>, b: seq<T>)
    requires multiset(w) == multiset(a) + multiset(b)
    requires forall x :: multiset(a)[x] <= 1 && multiset(b)[x] <= 1
    ensures Distinct(w) <==> forall r :: r in a ==> r !in b
  {
    if Distinct(w) {
      forall r | r in a ensures r !in b { DistinctCount(w, r); }
    } else {
      DuplicateCount(w);
      var x :| multiset(w)[x] >= 2;
      assert multiset(w)[x] == multiset(a)[x] + multiset(b)[x];
      assert x in multiset(a) && x in multiset(b);
      assert x in a && x in b;
    }
  }

  lemma {:induction false} AppendUnlessDistinct<T(!new)>(held: (seq<T>, T) -> bool, table: seq<T>, rest: seq<T>)
    requires forall t, r :: held(t, r) <==> r in t
    ensures Distinct(AppendUnless(held, table, rest)) <==> Distinct(table)
    ensures table <= AppendUnless(held, table, rest)
  {
    if rest != [] {
      AppendUnlessDistinct(held, table, rest[..|rest| - 1]);
      DistinctSnoc(AppendUnless(held, table, rest[..|rest| - 1]), rest[|rest| - 1]);
    }
  }

  lemma DistinctSnoc<T(!new)>(s: seq<T>, x: T)
    ensures Distinct(s + [x]) <==> Distinct(s) && x !in s
  {
    var t := s + [x];
    if Distinct(t) {
      forall i, j | 0 <= i < j < |s| ensures s[i] != s[j] { assert t[i] != t[j]; }
      forall i | 0 <= i < |s| ensures s[i] != x { assert t[i] != t[|s|]; }
    }
  }

  /** What the walk alone emits: kept base records and placed fragment records, each counted once. */
  lemma WalkCounts<T(!new), K(!new)>(purged: T -> bool, key: T -> K, base: seq<T>, fragment: seq<T>)
    requires Distinct(base) && Distinct(fragment)
    requires Distinct(Keys(key, fragment))
    requires var fkeys := Keys(key, fragment);
             var slots := SlotKeys(purged, key, base, fkeys);
             |PlanOf(fkeys, slots).emitted| == |slots|
    ensures var fkeys := Keys(key, fragment);
            var w := Walk(purged, key, base, fragment, fkeys,
              PlanOf(fkeys, SlotKeys(purged, key, base, fkeys)).emitted);
            && multiset(w) == multiset(Kept(purged, base)) + multiset(Placed(purged, key, base, fragment))
            && forall x :: multiset(Kept(purged, base))[x] <= 1 && multiset(Placed(purged, key, base, fragment))[x] <= 1
  {
    var fkeys := Keys(key, fragment);
    var slots := SlotKeys(purged, key, base, fkeys);
    var plan := PlanOf(fkeys, slots);
    WalkRecords(purged, key, base, fragment);
    EmissionRegroups(key, fragment, slots);
    SameGroupsSameRecords(key, Emission(key, fragment, slots), fragment);
    KeptCounts(purged, base);
    forall x ensures multiset(Kept(purged, base))[x] <= 1 && multiset(Placed(purged, key, base, fragment))[x] <= 1 {
      DistinctCount(base, x);
      DistinctCount(fragment, x);
    }
  }

  lemma {:induction false} KeptCounts<T(!new)>(purged: T -> bool, base: seq<T>)
    ensures multiset(Kept(purged, base)) <= multiset(base)
  {
    if base != [] {
      var init, b := base[..|base| - 1], base[|base| - 1];
      KeptCounts(purged, init);
      CountSnoc(init, b);
      CountSnoc(Kept(purged, init), b);
      assert base == init + [b];
      assert Kept(purged, init) + [] == Kept(purged, init);
    }
  }

  lemma CountSnoc<T(!new)>(s: seq<T>, x: T)
    ensures multiset(s + [x]) == multiset(s) + multiset{x}
  {
  }

  // ----- When the set-like merge is the plain one -----

  lemma {:induction false} AppendsAll<T(!new)>(held: (seq<T>, T) -> bool, table: seq<T>, rest: seq<T>)
    requires forall t, r :: held(t, r) <==> r in t
    requires Distinct(rest)
    ensures |AppendUnless(held, table, rest)| <= |table| + |rest|
    ensures AppendUnless(held, table, rest) == table + rest <==> forall r :: r in rest ==> r !in table
  {
    if rest != [] {
      var init, x := rest[..|rest| - 1], rest[|rest| - 1];
      assert rest == init + [x];
      DistinctSnoc(init, x);
      AppendsAll(held, table, init);
      AppendUnlessRecords(held, table, init);
      NextAppended(held, table, init, x);
    }
  }

  lemma NextAppended<T(!new)>(held: (seq<T>, T) -> bool, table: seq<T>, init: seq<T>, x: T)
    requires forall t, r :: held(t, r) <==> r in t
    requires var t := AppendUnless(held, table, init);
             && |t| <= |table| + |init| && (forall r :: r in t <==> r in table || r in init)
             && (t == table + init <==> forall r :: r in init ==> r !in table)
    requires x !in init
    ensures var u := AppendUnless(held, table, init + [x]);
            && |u| <= |table| + |init| + 1
            && (u == table + (init + [x]) <==> forall r :: r in init + [x] ==> r !in table)
  {
    var t, all := AppendUnless(held, table, init), init + [x];
    assert all[..|init|] == init && table + all == (table + init) + [x];
    assert forall r :: r in all <==> r in init || r == x;
    if x in t {
      assert AppendUnless(held, table, all) == t && |t| < |table + all|;
    } else {
      assert AppendUnless(held, table, all) == t + [x];
      assert t + [x] == (table + init) + [x] ==> t == (t + [x])[..|t|];
    }
  }

  lemma {:induction false} OnlyDistinct<T(!new), K(!new)>(key: T -> K, s: seq<T>, ks: seq<K>)
    requires Distinct(s)
    ensures Distinct(Only(key, s, ks)) && forall r :: r in Only(key, s, ks) ==> r in s
  {
    if s != [] {
      var init, x := s[..|s| - 1], s[|s| - 1];
      assert s == init + [x];
      DistinctSnoc(init, x);
      OnlyDistinct(key, init, ks);
      DistinctSnoc(Only(key, init, ks), x);
    }
  }

  /** **When nothing is dropped.** A set-like merge of a fragment without duplicates is the plain merge
      exactly when no record it appends survives in the base. */
  lemma SetMergeIsMerge<T(!new), K(!new)>(purged: T -> bool, key: T -> K, base: seq<T>, fragment: seq<T>)
    requires Distinct(fragment)
    ensures MergedSet(purged, key, base, fragment) == Merged(purged, key, base, fragment) <==>
            forall r :: r in Appended(purged, key, base, fragment) ==> r !in Kept(purged, base)
  {
    var fkeys := Keys(key, fragment);
    var slots := SlotKeys(purged, key, base, fkeys);
    var plan := PlanOf(fkeys, slots);
    KeysDistinct(key, fragment);
    PlanFits(purged, key, base, fkeys);
    PlanShape(fkeys, slots);
    SplitDistinct(fkeys, Concat(plan.emitted), plan.pending);
    var w, rest := Walk(purged, key, base, fragment, fkeys, plan.emitted), Only(key, fragment, plan.pending);
    OnlyDistinct(key, fragment, plan.pending);
    AppendsAll((table: seq<T>, r: T) => r in table, w, rest);
    forall r | r in rest ensures r in w <==> r in Kept(purged, base) {
      OnlyKeys(key, fragment, plan.pending);
      WalkHolds(purged, key, base, fragment, r);
    }
  }

  /** What the walk alone emits, counted: the kept base records and the placed fragment records. */
  lemma WalkRecords<T(!new), K(!new)>(purged: T -> bool, key: T -> K, base: seq<T>, fragment: seq<T>)
    requires var fkeys := Keys(key, fragment);
             var slots := SlotKeys(purged, key, base, fkeys);
             |PlanOf(fkeys, slots).emitted| == |slots|
    ensures var fkeys := Keys(key, fragment);
            var w := Walk(purged, key, base, fragment, fkeys,
              PlanOf(fkeys, SlotKeys(purged, key, base, fkeys)).emitted);
            multiset(w) == multiset(Kept(purged, base)) + multiset(Placed(purged, key, base, fragment))
  {
    var fkeys := Keys(key, fragment);
    var slots := SlotKeys(purged, key, base, fkeys);
    var plan := PlanOf(fkeys, slots);
    assert plan.emitted[..|slots|] == plan.emitted;
    WalkShuffles(purged, key, base, fragment, fkeys, plan.emitted);
    ShuffleCounts(Walk(purged, key, base, fragment, fkeys, plan.emitted), Kept(purged, base),
      Placed(purged, key, base, fragment));
  }

  /** A record whose key waits for no slot is in the walk's output only if it was kept. */
  lemma WalkHolds<T(!new), K(!new)>(purged: T -> bool, key: T -> K, base: seq<T>, fragment: seq<T>, r: T)
    requires key(r) in PlanOf(Keys(key, fragment), SlotKeys(purged, key, base, Keys(key, fragment))).pending
    requires |SlotKeys(purged, key, base, Keys(key, fragment))| <=
             |PlanOf(Keys(key, fragment), SlotKeys(purged, key, base, Keys(key, fragment))).emitted|
    ensures var fkeys := Keys(key, fragment);
            var plan := PlanOf(fkeys, SlotKeys(purged, key, base, fkeys));
            r in Walk(purged, key, base, fragment, fkeys, plan.emitted) <==> r in Kept(purged, base)
  {
    var fkeys := Keys(key, fragment);
    var slots := SlotKeys(purged, key, base, fkeys);
    var plan := PlanOf(fkeys, slots);
    KeysDistinct(key, fragment);
    PlanFits(purged, key, base, fkeys);
    PlanShape(fkeys, slots);
    SplitDistinct(fkeys, Concat(plan.emitted), plan.pending);
    var w := Walk(purged, key, base, fragment, fkeys, plan.emitted);
    var placed := FlatGroups(key, fragment, Concat(plan.emitted));
    WalkRecords(purged, key, base, fragment);
    FlatGroupsKeys(key, fragment, Concat(plan.emitted));
    assert r in w <==> r in multiset(w);
    assert r in Kept(purged, base) <==> r in multiset(Kept(purged, base));
    assert r in placed <==> r in multiset(placed);
  }
}
