/** Merging where some records under the fragment's own keys survive: a callable's row whose attribute the
    fragment dropped stays, while the parameter rows filed with it are replaced. */
module MergeMarked {
  import opened KeyedMerge
  import opened MergeTables
  import opened MergeConservation
  import opened MergeCold
  import opened MergeInPlace

  // ----- The merge asks for the key of superseded records only -----

  /** The key of a record, and whether the fragment supersedes it. */
  function Mark<T, K>(purged: T -> bool, key: T -> K): T -> (bool, K) {
    (r: T) => (purged(r), key(r))
  }

  function Marked<K>(ks: seq<K>): (ms: seq<(bool, K)>)
    ensures |ms| == |ks| && forall i :: 0 <= i < |ks| ==> ms[i] == (true, ks[i])
  {
    seq(|ks|, i requires 0 <= i < |ks| => (true, ks[i]))
  }

  function MarkedAll<K>(kss: seq<seq<K>>): (mss: seq<seq<(bool, K)>>)
    ensures |mss| == |kss| && forall i :: 0 <= i < |kss| ==> mss[i] == Marked(kss[i])
  {
    seq(|kss|, i requires 0 <= i < |kss| => Marked(kss[i]))
  }

  /** The fragment supersedes its own records. */
  ghost predicate OwnRows<T(!new)>(purged: T -> bool, s: seq<T>) {
    forall r :: r in s ==> purged(r)
  }

  lemma InMarked<K(!new)>(ks: seq<K>, b: bool, k: K)
    ensures (b, k) in Marked(ks) <==> b && k in ks
  {
    if b && k in ks {
      var i :| 0 <= i < |ks| && ks[i] == k;
      assert Marked(ks)[i] == (b, k);
    }
  }

  lemma MarkedSnoc<K(!new)>(ks: seq<K>, k: K)
    ensures Marked(ks + [k]) == Marked(ks) + [(true, k)]
  {
  }

  lemma {:induction false} KeysMarked<T(!new), K(!new)>(purged: T -> bool, key: T -> K, s: seq<T>)
    requires OwnRows(purged, s)
    ensures Keys(Mark(purged, key), s) == Marked(Keys(key, s))
  {
    if s != [] {
      var init, x := s[..|s| - 1], s[|s| - 1];
      assert x in s;
      KeysMarked(purged, key, init);
      InMarked(Keys(key, init), true, key(x));
      MarkedSnoc(Keys(key, init), key(x));
    }
  }

  lemma {:induction false} GroupMarked<T(!new), K(!new)>(purged: T -> bool, key: T -> K, s: seq<T>, k: K)
    requires OwnRows(purged, s)
    ensures Group(Mark(purged, key), s, (true, k)) == Group(key, s, k)
  {
    if s != [] {
      assert s[|s| - 1] in s;
      GroupMarked(purged, key, s[..|s| - 1], k);
    }
  }

  lemma {:induction false} FlatMarked<T(!new), K(!new)>(purged: T -> bool, key: T -> K, s: seq<T>, ks: seq<K>)
    requires OwnRows(purged, s)
    ensures FlatGroups(Mark(purged, key), s, Marked(ks)) == FlatGroups(key, s, ks)
  {
    if ks != [] {
      var init, k := ks[..|ks| - 1], ks[|ks| - 1];
      assert Marked(ks)[..|ks| - 1] == Marked(init);
      FlatMarked(purged, key, s, init);
      GroupMarked(purged, key, s, k);
    }
  }

  lemma {:induction false} OnlyMarked<T(!new), K(!new)>(purged: T -> bool, key: T -> K, s: seq<T>, ks: seq<K>)
    requires OwnRows(purged, s)
    ensures Only(Mark(purged, key), s, Marked(ks)) == Only(key, s, ks)
  {
    if s != [] {
      var x := s[|s| - 1];
      assert x in s;
      OnlyMarked(purged, key, s[..|s| - 1], ks);
      InMarked(ks, true, key(x));
    }
  }

  lemma {:induction false} SlotsMarked<T(!new), K(!new)>(purged: T -> bool, key: T -> K, base: seq<T>, fkeys: seq<K>)
    ensures SlotKeys(purged, Mark(purged, key), base, Marked(fkeys)) == Marked(SlotKeys(purged, key, base, fkeys))
  {
    if base != [] {
      var init, b := base[..|base| - 1], base[|base| - 1];
      var slots := SlotKeys(purged, key, init, fkeys);
      SlotsMarked(purged, key, init, fkeys);
      InMarked(fkeys, purged(b), key(b));
      InMarked(slots, purged(b), key(b));
      MarkedSnoc(slots, key(b));
    }
  }

  lemma {:induction false} PlanMarked<K(!new)>(fkeys: seq<K>, slots: seq<K>)
    ensures PlanOf(Marked(fkeys), Marked(slots)) ==
            Plan(MarkedAll(PlanOf(fkeys, slots).emitted), Marked(PlanOf(fkeys, slots).pending))
  {
    if fkeys != [] {
      var init, k := fkeys[..|fkeys| - 1], fkeys[|fkeys| - 1];
      var p := PlanOf(init, slots);
      assert Marked(fkeys)[..|fkeys| - 1] == Marked(init);
      PlanMarked(init, slots);
      InMarked(slots, true, k);
      MarkedSnoc(p.pending, k);
      assert MarkedAll(p.emitted + [p.pending + [k]]) == MarkedAll(p.emitted) + [Marked(p.pending + [k])];
    }
  }

  lemma {:induction false} WalkMarked<T(!new), K(!new)>(
    purged: T -> bool, key: T -> K, base: seq<T>, fragment: seq<T>, fkeys: seq<K>, emitted: seq<seq<K>>)
    requires OwnRows(purged, fragment) && |SlotKeys(purged, key, base, fkeys)| <= |emitted|
    ensures |SlotKeys(purged, Mark(purged, key), base, Marked(fkeys))| <= |emitted|
    ensures Walk(purged, Mark(purged, key), base, fragment, Marked(fkeys), MarkedAll(emitted)) ==
            Walk(purged, key, base, fragment, fkeys, emitted)
  {
    SlotsMarked(purged, key, base, fkeys);
    if base != [] {
      var init, b := base[..|base| - 1], base[|base| - 1];
      var slots := SlotKeys(purged, key, init, fkeys);
      SlotsMarked(purged, key, init, fkeys);
      WalkMarked(purged, key, init, fragment, fkeys, emitted);
      InMarked(fkeys, purged(b), key(b));
      InMarked(slots, purged(b), key(b));
      if purged(b) && key(b) in fkeys && key(b) !in slots { FlatMarked(purged, key, fragment, emitted[|slots|]); }
    }
  }

  /** Marking the keys changes nothing of the merge. */
  lemma MergedMarked<T(!new), K(!new)>(purged: T -> bool, key: T -> K, base: seq<T>, fragment: seq<T>)
    requires OwnRows(purged, fragment)
    ensures Merged(purged, Mark(purged, key), base, fragment) == Merged(purged, key, base, fragment)
    ensures Appended(purged, Mark(purged, key), base, fragment) == Appended(purged, key, base, fragment)
  {
    var fkeys := Keys(key, fragment);
    var slots := SlotKeys(purged, key, base, fkeys);
    var plan := PlanOf(fkeys, slots);
    KeysMarked(purged, key, fragment);
    SlotsMarked(purged, key, base, fkeys);
    PlanMarked(fkeys, slots);
    KeysDistinct(key, fragment);
    PlanFits(purged, key, base, fkeys);
    WalkMarked(purged, key, base, fragment, fkeys, plan.emitted);
    OnlyMarked(purged, key, fragment, plan.pending);
  }

  lemma ContiguousMarked<T(!new), K(!new)>(purged: T -> bool, key: T -> K, s: seq<T>)
    requires OwnRows(purged, s)
    ensures Contiguous(Mark(purged, key), s) <==> Contiguous(key, s)
  {
    assert forall i :: 0 <= i < |s| ==> s[i] in s && Mark(purged, key)(s[i]) == (true, key(s[i]));
  }

  lemma MarkedCovers<T(!new), K(!new)>(purged: T -> bool, key: T -> K, base: seq<T>, fragment: seq<T>)
    requires OwnRows(purged, fragment)
    ensures Covers(purged, Mark(purged, key), base, fragment)
  {
    KeysMarked(purged, key, fragment);
    forall r | r in base && Mark(purged, key)(r) in Keys(Mark(purged, key), fragment) ensures purged(r) {
      InMarked(Keys(key, fragment), purged(r), key(r));
    }
  }

  // ----- The theorems, survivors or not -----

  lemma {:induction false} OnlyMembers<T(!new), K(!new)>(key: T -> K, s: seq<T>, ks: seq<K>)
    ensures forall r :: r in Only(key, s, ks) ==> r in s
  {
    if s != [] { OnlyMembers(key, s[..|s| - 1], ks); }
  }

  lemma {:induction false} KeptCount<T(!new)>(purged: T -> bool, s: seq<T>, r: T)
    ensures multiset(Kept(purged, s))[r] == if purged(r) then 0 else multiset(s)[r]
  {
    if s != [] {
      var init, x := s[..|s| - 1], s[|s| - 1];
      KeptCount(purged, init, r);
      assert s == init + [x];
      assert Kept(purged, init) + [] == Kept(purged, init);
    }
  }

  /** A merge that changes nothing brought only records that supersede themselves: any other is one more. */
  lemma UnchangedOwns<T(!new), K(!new)>(purged: T -> bool, key: T -> K, m: seq<T>, fragment: seq<T>)
    requires Merged(purged, key, m, fragment) == m
    ensures OwnRows(purged, fragment)
  {
    MergeConserves(purged, key, m, fragment);
    forall r | r in fragment ensures purged(r) {
      KeptCount(purged, m, r);
      assert multiset(fragment)[r] > 0;
      assert multiset(m)[r] == multiset(Kept(purged, m))[r] + multiset(fragment)[r];
    }
  }

  /** **Merging the same fragment again changes nothing** exactly when every record of the fragment is one it
      supersedes, and the records that were appended stand together key by key; whatever the base holds. */
  lemma RemergeIsIdempotent<T(!new), K(!new)>(purged: T -> bool, key: T -> K, base: seq<T>, fragment: seq<T>)
    ensures var m := Merged(purged, key, base, fragment);
            Merged(purged, key, m, fragment) == m <==>
              OwnRows(purged, fragment) && Contiguous(key, Appended(purged, key, base, fragment))
  {
    var m := Merged(purged, key, base, fragment);
    if Merged(purged, key, m, fragment) == m { UnchangedOwns(purged, key, m, fragment); }
    if OwnRows(purged, fragment) { RemergeOwn(purged, key, base, fragment); }
  }

  lemma RemergeOwn<T(!new), K(!new)>(purged: T -> bool, key: T -> K, base: seq<T>, fragment: seq<T>)
    requires OwnRows(purged, fragment)
    ensures var m := Merged(purged, key, base, fragment);
            Merged(purged, key, m, fragment) == m <==> Contiguous(key, Appended(purged, key, base, fragment))
  {
    var m := Merged(purged, key, base, fragment);
    MarkedCovers(purged, key, base, fragment);
    RemergeCovered(purged, Mark(purged, key), base, fragment);
    MergedMarked(purged, key, base, fragment);
    MergedMarked(purged, key, m, fragment);
    var appended := Appended(purged, key, base, fragment);
    OnlyMembers(key, fragment, PlanOf(Keys(key, fragment), SlotKeys(purged, key, base, Keys(key, fragment))).pending);
    ContiguousMarked(purged, key, appended);
  }

  /** Whether a record is one of the fragment's. */
  function Fresh<T(==)>(fragment: seq<T>): T -> bool { (r: T) => r in fragment }

  /** What `cold` holds of the fragment, and the rest of it. */
  function Share<T(==, !new)>(cold: seq<T>, fragment: seq<T>): seq<T> {
    Only(Fresh(fragment), cold, [true])
  }

  function Rest<T(==, !new)>(cold: seq<T>, fragment: seq<T>): seq<T> {
    Without(Fresh(fragment), cold, [true])
  }

  /** How many records of the rest each record of the share follows in `cold`. */
  function Places<T(==, !new)>(cold: seq<T>, fragment: seq<T>): seq<nat> {
    Offsets(Fresh(fragment), cold, [true])
  }

  /** `cold` is what merging promises: the surviving records, the fragment, and every record of the fragment
      planned where `cold` has it. */
  ghost predicate AsPlanned<T(!new), K(!new)>(
    purged: T -> bool, key: T -> K, base: seq<T>, fragment: seq<T>, cold: seq<T>) {
    && Kept(purged, base) == Rest(cold, fragment)
    && fragment == Share(cold, fragment)
    && PlannedOffsets(purged, key, base, fragment) == Places(cold, fragment)
  }

  /** No record of the fragment survives in the base. */
  ghost predicate NothingHeld<T(!new)>(purged: T -> bool, base: seq<T>, fragment: seq<T>) {
    forall r :: r in base && r in fragment ==> purged(r)
  }

  lemma {:induction false} WalkSplits<T(!new), K(!new)>(
    purged: T -> bool, key: T -> K, base: seq<T>, fragment: seq<T>, fkeys: seq<K>, emitted: seq<seq<K>>)
    requires |SlotKeys(purged, key, base, fkeys)| <= |emitted| && NothingHeld(purged, base, fragment)
    ensures var n := |SlotKeys(purged, key, base, fkeys)|;
            var w := Walk(purged, key, base, fragment, fkeys, emitted);
            && Share(w, fragment) == FlatGroups(key, fragment, Concat(emitted[..n]))
            && Rest(w, fragment) == Kept(purged, base)
            && Places(w, fragment) == AnchorOffsets(purged, key, base, fragment, fkeys, emitted)
  {
    if base != [] {
      var init, b := base[..|base| - 1], base[|base| - 1];
      assert b in base;
      var slots := SlotKeys(purged, key, init, fkeys);
      var w := Walk(purged, key, init, fragment, fkeys, emitted);
      WalkSplits(purged, key, init, fragment, fkeys, emitted);
      if !purged(b) {
        ViewOutside(Fresh(fragment), w, b, [true]);
        assert AnchorOffsets(purged, key, base, fragment, fkeys, emitted) + [] ==
          AnchorOffsets(purged, key, init, fragment, fkeys, emitted);
      } else if key(b) in fkeys && key(b) !in slots {
        var g := FlatGroups(key, fragment, emitted[|slots|]);
        PlacedSnoc(key, fragment, emitted, |slots|);
        FlatGroupsKeys(key, fragment, emitted[|slots|]);
        ViewInside(Fresh(fragment), w, g, [true]);
        assert |SlotKeys(purged, key, base, fkeys)| == |slots| + 1;
      } else {
        assert Walk(purged, key, base, fragment, fkeys, emitted) == w;
        assert AnchorOffsets(purged, key, base, fragment, fkeys, emitted) + [] ==
          AnchorOffsets(purged, key, init, fragment, fkeys, emitted);
      }
    }
  }

  lemma MergedSplits<T(!new), K(!new)>(purged: T -> bool, key: T -> K, base: seq<T>, fragment: seq<T>)
    requires NothingHeld(purged, base, fragment)
    ensures var m := Merged(purged, key, base, fragment);
            && Share(m, fragment) == Emission(key, fragment, SlotKeys(purged, key, base, Keys(key, fragment)))
            && Rest(m, fragment) == Kept(purged, base)
            && Places(m, fragment) == PlannedOffsets(purged, key, base, fragment)
  {
    var fkeys := Keys(key, fragment);
    var slots := SlotKeys(purged, key, base, fkeys);
    var plan := PlanOf(fkeys, slots);
    KeysDistinct(key, fragment);
    PlanFits(purged, key, base, fkeys);
    assert plan.emitted[..|slots|] == plan.emitted;
    WalkSplits(purged, key, base, fragment, fkeys, plan.emitted);
    var left := Only(key, fragment, plan.pending);
    OnlyMembers(key, fragment, plan.pending);
    ViewInside(Fresh(fragment), Walk(purged, key, base, fragment, fkeys, plan.emitted), left, [true]);
  }

  /** **Incremental equals cold, whatever survives.** A contiguous fragment none of whose records survives in
      the base merges to a given table exactly when that table is as planned. */
  lemma MergeEqualsCold<T(!new), K(!new)>(
    purged: T -> bool, key: T -> K, base: seq<T>, fragment: seq<T>, cold: seq<T>)
    requires Contiguous(key, fragment) && NothingHeld(purged, base, fragment)
    ensures Merged(purged, key, base, fragment) == cold <==> AsPlanned(purged, key, base, fragment, cold)
  {
    MergedSplits(purged, key, base, fragment);
    EmissionOfContiguous(key, fragment, SlotKeys(purged, key, base, Keys(key, fragment)));
    if AsPlanned(purged, key, base, fragment, cold) {
      ViewDetermines(Fresh(fragment), Merged(purged, key, base, fragment), cold, [true]);
    }
  }
}
