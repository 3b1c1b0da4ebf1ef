/** A merge loses nothing and invents nothing. */
module MergeConservation {
  import opened KeyedMerge
  import opened MergeTables

  // ----- Nothing lost, nothing invented -----

  /** The incoming records in the order the merge places them: the planned groups, then the rest. */
  function Emission<T(!new), K(==, !new)>(key: T -> K, fragment: seq<T>, slots: seq<K>): seq<T> {
    var plan := PlanOf(Keys(key, fragment), slots);
    FlatGroups(key, fragment, Concat(plan.emitted)) + Only(key, fragment, plan.pending)
  }

  /** The emission is the fragment regrouped: the same keys in the same order, each group intact. */
  lemma EmissionRegroups<T(!new), K(!new)>(key: T -> K, fragment: seq<T>, slots: seq<K>)
    ensures Keys(key, Emission(key, fragment, slots)) == Keys(key, fragment)
    ensures forall k :: Group(key, Emission(key, fragment, slots), k) == Group(key, fragment, k)
  {
    var fkeys := Keys(key, fragment);
    var plan := PlanOf(fkeys, slots);
    var placed, rest := Concat(plan.emitted), plan.pending;
    PlanShape(fkeys, slots);
    KeysDistinct(key, fragment);
    SplitDistinct(fkeys, placed, rest);
    forall k ensures Group(key, Emission(key, fragment, slots), k) == Group(key, fragment, k) {
      RegroupedGroup(key, fragment, placed, rest, k);
    }
    RegroupedKeys(key, fragment, placed, rest);
  }

  lemma SplitDistinct<K(!new)>(all: seq<K>, xs: seq<K>, ys: seq<K>)
    requires Distinct(all) && all == xs + ys
    ensures Distinct(xs) && Distinct(ys) && (forall y :: y in ys ==> y !in xs)
    ensures forall k :: k in all <==> k in xs || k in ys
  {
    assert forall i :: 0 <= i < |xs| ==> xs[i] == all[i];
    assert forall i :: 0 <= i < |ys| ==> ys[i] == all[|xs| + i];
  }

  lemma RegroupedGroup<T(!new), K(!new)>(key: T -> K, s: seq<T>, placed: seq<K>, rest: seq<K>, k: K)
    requires Keys(key, s) == placed + rest && Distinct(placed) && (forall y :: y in rest ==> y !in placed)
    ensures Group(key, FlatGroups(key, s, placed) + Only(key, s, rest), k) == Group(key, s, k)
  {
    GroupAppend(key, FlatGroups(key, s, placed), Only(key, s, rest), k);
    GroupOfFlat(key, s, placed, k);
    GroupOfOnly(key, s, rest, k);
    GroupKeys(key, s, k);
  }

  lemma RegroupedKeys<T(!new), K(!new)>(key: T -> K, s: seq<T>, placed: seq<K>, rest: seq<K>)
    requires Keys(key, s) == placed + rest && Distinct(placed) && (forall y :: y in rest ==> y !in placed)
    ensures Keys(key, FlatGroups(key, s, placed) + Only(key, s, rest)) == Keys(key, s)
  {
    forall r | r in s ensures key(r) in rest <==> key(r) !in placed {
      KeyOfMember(key, s, r);
    }
    calc {
      Keys(key, FlatGroups(key, s, placed) + Only(key, s, rest));
      { KeysAppend(key, FlatGroups(key, s, placed), Only(key, s, rest)); KeysOfFlat(key, s, placed); }
      placed + Minus(Keys(key, Only(key, s, rest)), placed);
      { KeysOfOnly(key, s, placed, rest); }
      placed + Minus(Minus(placed + rest, placed), placed);
      { MinusAppend(placed, rest, placed); MinusAll(placed, placed); MinusDisjoint(rest, placed); }
      placed + Minus([] + rest, placed);
      { assert [] + rest == rest; MinusDisjoint(rest, placed); }
      placed + rest;
    }
  }

  lemma KeyOfMember<T(!new), K(!new)>(key: T -> K, s: seq<T>, r: T)
    requires r in s
    ensures key(r) in Keys(key, s)
  {
    GroupHolds(key, s, r);
    GroupKeys(key, s, key(r));
  }

  /** Tables with equal groups hold the same records, each as often. */
  lemma SameGroupsSameRecords<T(!new), K(!new)>(key: T -> K, s: seq<T>, t: seq<T>)
    requires forall k :: Group(key, s, k) == Group(key, t, k)
    ensures multiset(s) == multiset(t)
  {
    forall x ensures multiset(s)[x] == multiset(t)[x] {
      CountInGroup(key, s, x);
      CountInGroup(key, t, x);
    }
  }

  lemma {:induction false} CountInGroup<T(!new), K(!new)>(key: T -> K, s: seq<T>, x: T)
    ensures multiset(s)[x] == multiset(Group(key, s, key(x)))[x]
  {
    if s != [] {
      CountInGroup(key, s[..|s| - 1], x);
      assert s == s[..|s| - 1] + [s[|s| - 1]];
    }
  }

  lemma {:induction false} ShuffleLeft<T(!new)>(s: seq<T>, a: seq<T>, b: seq<T>, x: T)
    requires Shuffle(s, a, b)
    ensures Shuffle(s + [x], a + [x], b)
  {
    assert (s + [x])[..|s + [x]| - 1] == s && (a + [x])[..|a + [x]| - 1] == a;
  }

  lemma {:induction false} ShuffleRight<T(!new)>(s: seq<T>, a: seq<T>, b: seq<T>, xs: seq<T>)
    requires Shuffle(s, a, b)
    ensures Shuffle(s + xs, a, b + xs)
  {
    if xs == [] {
      assert s + xs == s && b + xs == b;
    } else {
      var init := xs[..|xs| - 1];
      ShuffleRight(s, a, b, init);
      assert (s + xs)[..|s + xs| - 1] == s + init && (b + xs)[..|b + xs| - 1] == b + init;
    }
  }

  lemma ConcatSnoc<A>(xs: seq<seq<A>>, x: seq<A>)
    ensures Concat(xs + [x]) == Concat(xs) + x
  {
    assert (xs + [x])[..|xs + [x]| - 1] == xs;
  }

  /** Opening one more slot places that slot's groups after those already placed. */
  lemma PlacedSnoc<T(!new), K(!new)>(key: T -> K, fragment: seq<T>, emitted: seq<seq<K>>, n: nat)
    requires n < |emitted|
    ensures FlatGroups(key, fragment, Concat(emitted[..n + 1])) ==
            FlatGroups(key, fragment, Concat(emitted[..n])) + FlatGroups(key, fragment, emitted[n])
  {
    assert emitted[..n + 1] == emitted[..n] + [emitted[n]];
    ConcatSnoc(emitted[..n], emitted[n]);
    FlatGroupsAppend(key, fragment, Concat(emitted[..n]), emitted[n]);
  }

  lemma {:induction false} WalkShuffles<T(!new), K(!new)>(
    purged: T -> bool, key: T -> K, base: seq<T>, fragment: seq<T>, fkeys: seq<K>, emitted: seq<seq<K>>)
    requires |SlotKeys(purged, key, base, fkeys)| <= |emitted|
    ensures var n := |SlotKeys(purged, key, base, fkeys)|;
            Shuffle(Walk(purged, key, base, fragment, fkeys, emitted),
                    Kept(purged, base), FlatGroups(key, fragment, Concat(emitted[..n])))
  {
    if base != [] {
      var init, b := base[..|base| - 1], base[|base| - 1];
      var slots := SlotKeys(purged, key, init, fkeys);
      var n := |slots|;
      var w := Walk(purged, key, init, fragment, fkeys, emitted);
      var placed := FlatGroups(key, fragment, Concat(emitted[..n]));
      WalkShuffles(purged, key, init, fragment, fkeys, emitted);
      if !purged(b) {
        ShuffleLeft(w, Kept(purged, init), placed, b);
      } else if key(b) in fkeys && key(b) !in slots {
        PlacedSnoc(key, fragment, emitted, n);
        ShuffleRight(w, Kept(purged, init), placed, FlatGroups(key, fragment, emitted[n]));
        assert Kept(purged, base) == Kept(purged, init);
        assert |SlotKeys(purged, key, base, fkeys)| == n + 1;
      } else {
        assert Walk(purged, key, base, fragment, fkeys, emitted) == w;
        assert Kept(purged, base) == Kept(purged, init);
      }
    }
  }

  /** The merge loses and invents nothing: its result interleaves the surviving base records, in
      their old order, with the fragment's records, regrouped but with keys in the fragment's order. */
  lemma MergeInterleaves<T(!new), K(!new)>(purged: T -> bool, key: T -> K, base: seq<T>, fragment: seq<T>)
    ensures var e := Emission(key, fragment, SlotKeys(purged, key, base, Keys(key, fragment)));
            && Shuffle(Merged(purged, key, base, fragment), Kept(purged, base), e)
            && Keys(key, e) == Keys(key, fragment)
            && (forall k :: Group(key, e, k) == Group(key, fragment, k))
            && multiset(e) == multiset(fragment)
  {
    var fkeys := Keys(key, fragment);
    var slots := SlotKeys(purged, key, base, fkeys);
    var plan := PlanOf(fkeys, slots);
    KeysDistinct(key, fragment);
    PlanFits(purged, key, base, fkeys);
    WalkShuffles(purged, key, base, fragment, fkeys, plan.emitted);
    assert plan.emitted[..|slots|] == plan.emitted;
    ShuffleRight(Walk(purged, key, base, fragment, fkeys, plan.emitted), Kept(purged, base),
                 FlatGroups(key, fragment, Concat(plan.emitted)), Only(key, fragment, plan.pending));
    EmissionRegroups(key, fragment, slots);
    SameGroupsSameRecords(key, Emission(key, fragment, slots), fragment);
  }

  /** Every record of the result is a surviving base record or a fragment record, counted exactly. */
  lemma MergeConserves<T(!new), K(!new)>(purged: T -> bool, key: T -> K, base: seq<T>, fragment: seq<T>)
    ensures multiset(Merged(purged, key, base, fragment)) == multiset(Kept(purged, base)) + multiset(fragment)
  {
    MergeInterleaves(purged, key, base, fragment);
    var e := Emission(key, fragment, SlotKeys(purged, key, base, Keys(key, fragment)));
    ShuffleCounts(Merged(purged, key, base, fragment), Kept(purged, base), e);
  }

  lemma {:induction false} ShuffleCounts<T(!new)>(s: seq<T>, a: seq<T>, b: seq<T>)
    requires Shuffle(s, a, b)
    ensures multiset(s) == multiset(a) + multiset(b)
  {
    if s != [] {
      var init, x := s[..|s| - 1], s[|s| - 1];
      assert s == init + [x];
      if a != [] && a[|a| - 1] == x && Shuffle(init, a[..|a| - 1], b) {
        ShuffleCounts(init, a[..|a| - 1], b);
        assert a == a[..|a| - 1] + [x];
      } else {
        ShuffleCounts(init, a, b[..|b| - 1]);
        assert b == b[..|b| - 1] + [x];
      }
    }
  }
}
