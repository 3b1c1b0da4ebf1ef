/** Incremental equals cold: contiguous tables, and tables merged onto an empty one. */
module MergeCold {
  import opened KeyedMerge
  import opened MergeTables
  import opened MergeConservation

  // ----- Contiguous tables are determined by their keys and groups -----

  /** The records of every key in `ks` stand together in `s`. */
  ghost predicate Together<T(!new), K(!new)>(key: T -> K, s: seq<T>, ks: seq<K>) {
    forall i, j, l :: 0 <= i < j < l < |s| && key(s[i]) == key(s[l]) && key(s[i]) in ks ==> key(s[j]) == key(s[i])
  }

  lemma TogetherAppend<T(!new), K(!new)>(key: T -> K, s: seq<T>, t: seq<T>, ks: seq<K>)
    requires Together(key, s, ks) && Together(key, t, ks)
    requires forall x, y :: x in s && y in t && key(x) in ks ==> key(x) != key(y)
    ensures Together(key, s + t, ks)
  {
    var st := s + t;
    forall i, l | 0 <= i < |s| && 0 <= l < |t| && key(s[i]) in ks ensures key(s[i]) != key(t[l]) {
      assert s[i] in s && t[l] in t;
    }
    forall i, j, l | 0 <= i < j < l < |st| && key(st[i]) == key(st[l]) && key(st[i]) in ks
      ensures key(st[j]) == key(st[i])
    {
      if l < |s| {
        assert st[i] == s[i] && st[j] == s[j] && st[l] == s[l];
      } else {
        assert st[i] == (s + t)[i] && st[l] == t[l - |s|];
        if |s| <= i { assert st[i] == t[i - |s|] && st[j] == t[j - |s|]; }
      }
    }
  }

  lemma {:induction false} FlatGroupsTogether<T(!new), K(!new)>(key: T -> K, s: seq<T>, ks: seq<K>, all: seq<K>)
    requires Distinct(ks)
    ensures Together(key, FlatGroups(key, s, ks), all)
  {
    if ks != [] {
      var init, k := ks[..|ks| - 1], ks[|ks| - 1];
      FlatGroupsTogether(key, s, init, all);
      FlatGroupsKeys(key, s, init);
      GroupKeys(key, s, k);
      var g := Group(key, s, k);
      assert forall i :: 0 <= i < |g| ==> g[i] in g;
      forall x, y | x in FlatGroups(key, s, init) && y in g ensures key(x) != key(y) {
        assert key(x) in init;
        assert y in Group(key, s, k);
      }
      TogetherAppend(key, FlatGroups(key, s, init), g, all);
    }
  }

  lemma {:induction false} LastKeyOfContiguous<T(!new), K(!new)>(key: T -> K, s: seq<T>)
    requires Contiguous(key, s) && s != []
    ensures var ks := Keys(key, s); ks != [] && ks[|ks| - 1] == key(s[|s| - 1])
  {
    var init, x := s[..|s| - 1], s[|s| - 1];
    if key(x) in Keys(key, init) {
      KeyWitness(key, init, key(x));
      var i :| 0 <= i < |init| && key(init[i]) == key(x);
      assert key(s[|s| - 2]) == key(x) by {
        assert s[i] == init[i] && s[|s| - 2] == init[|init| - 1];
      }
      LastKeyOfContiguous(key, init);
    }
  }

  lemma KeyWitness<T(!new), K(!new)>(key: T -> K, s: seq<T>, k: K)
    requires k in Keys(key, s)
    ensures exists i :: 0 <= i < |s| && key(s[i]) == k
  {
    GroupKeys(key, s, k);
    var r := Group(key, s, k)[0];
    assert r in Group(key, s, k);
    var i :| 0 <= i < |s| && s[i] == r;
  }

  lemma ContiguousInit<T(!new), K(!new)>(key: T -> K, s: seq<T>)
    requires Contiguous(key, s) && s != []
    ensures Contiguous(key, s[..|s| - 1])
  {
  }

  /** A contiguous table is its groups, laid out in key order. */
  lemma {:induction false} ContiguousIsFlat<T(!new), K(!new)>(key: T -> K, s: seq<T>)
    requires Contiguous(key, s)
    ensures FlatGroups(key, s, Keys(key, s)) == s
  {
    if s != [] {
      var init, x := s[..|s| - 1], s[|s| - 1];
      assert s == init + [x];
      ContiguousInit(key, s);
      ContiguousIsFlat(key, init);
      FlatNext(key, s, init, x);
    }
  }

  lemma FlatNext<T(!new), K(!new)>(key: T -> K, s: seq<T>, init: seq<T>, x: T)
    requires Contiguous(key, s) && s == init + [x] && FlatGroups(key, init, Keys(key, init)) == init
    ensures FlatGroups(key, s, Keys(key, s)) == s
  {
    var ks := Keys(key, init);
    assert s[..|s| - 1] == init;
    if key(x) in ks {
      KeysDistinct(key, init);
      LastKeyOfContiguous(key, s);
      FlatGrows(key, init, x, ks[..|ks| - 1], ks);
    } else {
      FlatOpens(key, init, x, ks);
    }
  }

  lemma FlatGrows<T(!new), K(!new)>(key: T -> K, init: seq<T>, x: T, front: seq<K>, ks: seq<K>)
    requires ks == front + [key(x)] && key(x) !in front && FlatGroups(key, init, ks) == init
    ensures FlatGroups(key, init + [x], ks) == init + [x]
  {
    var s := init + [x];
    assert ks[..|ks| - 1] == front && s[..|s| - 1] == init;
    FlatGroupsSkip(key, init, x, front);
    var a, g := FlatGroups(key, init, front), Group(key, init, key(x));
    assert a + (g + [x]) == (a + g) + [x];
  }

  lemma FlatOpens<T(!new), K(!new)>(key: T -> K, init: seq<T>, x: T, ks: seq<K>)
    requires ks == Keys(key, init) && key(x) !in ks && FlatGroups(key, init, ks) == init
    ensures FlatGroups(key, init + [x], ks + [key(x)]) == init + [x]
  {
    var s := init + [x];
    assert s[..|s| - 1] == init && (ks + [key(x)])[..|ks|] == ks;
    FlatGroupsSkip(key, init, x, ks);
    GroupKeys(key, init, key(x));
    assert Group(key, s, key(x)) == [] + [x];
  }

  lemma {:induction false} FlatGroupsSkip<T(!new), K(!new)>(key: T -> K, s: seq<T>, x: T, ks: seq<K>)
    requires key(x) !in ks
    ensures FlatGroups(key, s + [x], ks) == FlatGroups(key, s, ks)
  {
    if ks != [] {
      assert ks[|ks| - 1] in ks;
      FlatGroupsSkip(key, s, x, ks[..|ks| - 1]);
      assert (s + [x])[..|s + [x]| - 1] == s;
      assert Group(key, s, ks[|ks| - 1]) + [] == Group(key, s, ks[|ks| - 1]);
    }
  }

  lemma {:induction false} FlatGroupsAgree<T(!new), K(!new)>(key: T -> K, s: seq<T>, t: seq<T>, ks: seq<K>)
    requires forall k :: k in ks ==> Group(key, s, k) == Group(key, t, k)
    ensures FlatGroups(key, s, ks) == FlatGroups(key, t, ks)
  {
    if ks != [] {
      assert ks[|ks| - 1] in ks;
      FlatGroupsAgree(key, s, t, ks[..|ks| - 1]);
    }
  }

  lemma PendingKeys<T(!new), K(!new)>(key: T -> K, s: seq<T>, placed: seq<K>, rest: seq<K>)
    requires Keys(key, s) == placed + rest
    ensures Keys(key, Only(key, s, rest)) == rest
  {
    KeysDistinct(key, s);
    SplitDistinct(Keys(key, s), placed, rest);
    forall r | r in s ensures key(r) in rest <==> key(r) !in placed { KeyOfMember(key, s, r); }
    KeysOfOnly(key, s, placed, rest);
    MinusAppend(placed, rest, placed);
    MinusAll(placed, placed);
    MinusDisjoint(rest, placed);
    assert [] + rest == rest;
  }

  lemma FlatIsContiguous<T(!new), K(!new)>(key: T -> K, s: seq<T>, ks: seq<K>)
    requires Distinct(ks)
    ensures Contiguous(key, FlatGroups(key, s, ks))
  {
    var g := FlatGroups(key, s, ks);
    FlatGroupsTogether(key, s, ks, ks);
    FlatGroupsKeys(key, s, ks);
    forall i | 0 <= i < |g| ensures key(g[i]) in ks { assert g[i] in g; }
  }

  /** The left-over records are laid out group by group exactly when they are contiguous. */
  lemma PendingContiguous<T(!new), K(!new)>(key: T -> K, s: seq<T>, placed: seq<K>, rest: seq<K>)
    requires Keys(key, s) == placed + rest
    ensures Contiguous(key, Only(key, s, rest)) <==> Only(key, s, rest) == FlatGroups(key, s, rest)
  {
    var left := Only(key, s, rest);
    PendingKeys(key, s, placed, rest);
    KeysDistinct(key, left);
    FlatIsContiguous(key, s, rest);
    forall k | k in rest ensures Group(key, left, k) == Group(key, s, k) { GroupOfOnly(key, s, rest, k); }
    FlatGroupsAgree(key, left, s, rest);
    if Contiguous(key, left) { ContiguousIsFlat(key, left); }
  }

  lemma {:induction false} OnlyContiguous<T(!new), K(!new)>(key: T -> K, s: seq<T>, ks: seq<K>)
    requires Contiguous(key, s)
    ensures Contiguous(key, Only(key, s, ks))
  {
    if s != [] {
      var init, x := s[..|s| - 1], s[|s| - 1];
      OnlyContiguous(key, init, ks);
      var left := Only(key, init, ks);
      if key(x) in ks && left != [] {
        OnlyLast(key, s, ks);
      }
    }
  }

  /** If a kept record's key recurs at the end of a contiguous table, it is also the last one kept. */
  lemma {:induction false} OnlyLast<T(!new), K(!new)>(key: T -> K, s: seq<T>, ks: seq<K>)
    requires Contiguous(key, s) && s != [] && key(s[|s| - 1]) in ks
    ensures var left := Only(key, s[..|s| - 1], ks);
            (exists r :: r in left && key(r) == key(s[|s| - 1])) ==> key(left[|left| - 1]) == key(s[|s| - 1])
  {
    var init := s[..|s| - 1];
    var left := Only(key, init, ks);
    if r :| r in left && key(r) == key(s[|s| - 1]) {
      OnlyKeys(key, init, ks);
      var i :| 0 <= i < |init| && init[i] == r;
      assert s[i] == r;
      SameKeyBefore(key, s, i);
      assert init[|init| - 1] == s[|s| - 2];
    }
  }

  lemma SameKeyBefore<T(!new), K(!new)>(key: T -> K, s: seq<T>, i: nat)
    requires Contiguous(key, s) && i < |s| - 1 && key(s[i]) == key(s[|s| - 1])
    ensures key(s[|s| - 2]) == key(s[|s| - 1])
  {
  }

  /** With a contiguous fragment the emission is the fragment itself, whatever slots it finds. */
  lemma EmissionOfContiguous<T(!new), K(!new)>(key: T -> K, fragment: seq<T>, slots: seq<K>)
    requires Contiguous(key, fragment)
    ensures Emission(key, fragment, slots) == fragment
  {
    var fkeys := Keys(key, fragment);
    var plan := PlanOf(fkeys, slots);
    PlanShape(fkeys, slots);
    OnlyContiguous(key, fragment, plan.pending);
    PendingContiguous(key, fragment, Concat(plan.emitted), plan.pending);
    FlatGroupsAppend(key, fragment, Concat(plan.emitted), plan.pending);
    ContiguousIsFlat(key, fragment);
  }

  // ----- A merged table equals a cold one -----

  function Repeat(x: nat, n: nat): seq<nat> {
    if n == 0 then [] else Repeat(x, n - 1) + [x]
  }

  /** For each record the walk emits: how many kept records stand before its slot. */
  function AnchorOffsets<T(!new), K(==, !new)>(
    purged: T -> bool, key: T -> K, base: seq<T>, fragment: seq<T>, fkeys: seq<K>, emitted: seq<seq<K>>): seq<nat>
    requires |SlotKeys(purged, key, base, fkeys)| <= |emitted|
  {
    if base == [] then []
    else
      var init, b := base[..|base| - 1], base[|base| - 1];
      var slots := SlotKeys(purged, key, init, fkeys);
      AnchorOffsets(purged, key, init, fragment, fkeys, emitted) +
      if purged(b) && key(b) in fkeys && key(b) !in slots
      then Repeat(|Kept(purged, init)|, |FlatGroups(key, fragment, emitted[|slots|])|)
      else []
  }

  /** For each record of the fragment, as emitted: how many kept records precede it in the result.
      A caller can read this off the base and the fragment before merging. */
  function PlannedOffsets<T(!new), K(==, !new)>(
    purged: T -> bool, key: T -> K, base: seq<T>, fragment: seq<T>): seq<nat> {
    var fkeys := Keys(key, fragment);
    var plan := PlanOf(fkeys, SlotKeys(purged, key, base, fkeys));
    KeysDistinct(key, fragment);
    PlanFits(purged, key, base, fkeys);
    AnchorOffsets(purged, key, base, fragment, fkeys, plan.emitted)
    + Repeat(|Kept(purged, base)|, |Only(key, fragment, plan.pending)|)
  }

  lemma {:induction false} ViewInside<T(!new), K(!new)>(key: T -> K, w: seq<T>, g: seq<T>, ks: seq<K>)
    requires forall r :: r in g ==> key(r) in ks
    ensures Only(key, w + g, ks) == Only(key, w, ks) + g
    ensures Without(key, w + g, ks) == Without(key, w, ks)
    ensures Offsets(key, w + g, ks) == Offsets(key, w, ks) + Repeat(|Without(key, w, ks)|, |g|)
  {
    if g == [] {
      assert w + g == w;
    } else {
      var init, x := g[..|g| - 1], g[|g| - 1];
      assert x in g;
      assert (w + g)[..|w + g| - 1] == w + init && w + g == (w + init) + [x];
      ViewInside(key, w, init, ks);
      assert Only(key, w, ks) + g == (Only(key, w, ks) + init) + [x];
    }
  }

  lemma ViewOutside<T(!new), K(!new)>(key: T -> K, w: seq<T>, b: T, ks: seq<K>)
    requires key(b) !in ks
    ensures Only(key, w + [b], ks) == Only(key, w, ks)
    ensures Without(key, w + [b], ks) == Without(key, w, ks) + [b]
    ensures Offsets(key, w + [b], ks) == Offsets(key, w, ks)
  {
    assert (w + [b])[..|w + [b]| - 1] == w;
  }

  lemma {:induction false} WalkView<T(!new), K(!new)>(
    purged: T -> bool, key: T -> K, base: seq<T>, fragment: seq<T>, fkeys: seq<K>, emitted: seq<seq<K>>)
    requires fkeys == Keys(key, fragment) && |SlotKeys(purged, key, base, fkeys)| <= |emitted|
    requires forall r :: r in base && key(r) in fkeys ==> purged(r)
    ensures var n := |SlotKeys(purged, key, base, fkeys)|;
            var w := Walk(purged, key, base, fragment, fkeys, emitted);
            && Only(key, w, fkeys) == FlatGroups(key, fragment, Concat(emitted[..n]))
            && Without(key, w, fkeys) == Kept(purged, base)
            && Offsets(key, w, fkeys) == AnchorOffsets(purged, key, base, fragment, fkeys, emitted)
  {
    if base != [] {
      var init, b := base[..|base| - 1], base[|base| - 1];
      assert b in base;
      var slots := SlotKeys(purged, key, init, fkeys);
      var n := |slots|;
      var w := Walk(purged, key, init, fragment, fkeys, emitted);
      WalkView(purged, key, init, fragment, fkeys, emitted);
      if !purged(b) {
        ViewOutside(key, w, b, fkeys);
        assert AnchorOffsets(purged, key, base, fragment, fkeys, emitted) ==
          AnchorOffsets(purged, key, init, fragment, fkeys, emitted);
      } else if key(b) in fkeys && key(b) !in slots {
        var g := FlatGroups(key, fragment, emitted[n]);
        PlacedSnoc(key, fragment, emitted, n);
        FlatGroupsKeys(key, fragment, emitted[n]);
        forall r | r in g ensures key(r) in fkeys { KeyOfMember(key, fragment, r); }
        ViewInside(key, w, g, fkeys);
        assert Kept(purged, base) == Kept(purged, init);
        assert |SlotKeys(purged, key, base, fkeys)| == n + 1;
      } else {
        assert Walk(purged, key, base, fragment, fkeys, emitted) == w;
        assert Kept(purged, base) == Kept(purged, init);
        assert AnchorOffsets(purged, key, base, fragment, fkeys, emitted) ==
          AnchorOffsets(purged, key, init, fragment, fkeys, emitted);
      }
    }
  }

  /** What the merged table shows once split into the fragment's keys and the rest. */
  lemma MergedView<T(!new), K(!new)>(purged: T -> bool, key: T -> K, base: seq<T>, fragment: seq<T>)
    requires forall r :: r in base && key(r) in Keys(key, fragment) ==> purged(r)
    ensures var fkeys := Keys(key, fragment);
            var m := Merged(purged, key, base, fragment);
            && Only(key, m, fkeys) == Emission(key, fragment, SlotKeys(purged, key, base, fkeys))
            && Without(key, m, fkeys) == Kept(purged, base)
            && Offsets(key, m, fkeys) == PlannedOffsets(purged, key, base, fragment)
  {
    var fkeys := Keys(key, fragment);
    var slots := SlotKeys(purged, key, base, fkeys);
    var plan := PlanOf(fkeys, slots);
    KeysDistinct(key, fragment);
    PlanFits(purged, key, base, fkeys);
    assert plan.emitted[..|slots|] == plan.emitted;
    WalkView(purged, key, base, fragment, fkeys, plan.emitted);
    var left := Only(key, fragment, plan.pending);
    OnlyKeys(key, fragment, plan.pending);
    forall r | r in left ensures key(r) in fkeys {
      assert r in Only(key, fragment, plan.pending);
      KeyOfMember(key, fragment, r);
    }
    ViewInside(key, Walk(purged, key, base, fragment, fkeys, plan.emitted), left, fkeys);
  }

  lemma {:induction false} OffsetsBounded<T(!new), K(!new)>(key: T -> K, s: seq<T>, ks: seq<K>)
    ensures |Offsets(key, s, ks)| == |Only(key, s, ks)|
    ensures forall i :: 0 <= i < |Offsets(key, s, ks)| ==> Offsets(key, s, ks)[i] <= |Without(key, s, ks)|
    ensures |s| == |Only(key, s, ks)| + |Without(key, s, ks)|
  {
    if s != [] { OffsetsBounded(key, s[..|s| - 1], ks); }
  }

  /** A table is determined by its two halves and how they interleave. */
  lemma {:induction false} ViewDetermines<T(!new), K(!new)>(key: T -> K, s: seq<T>, t: seq<T>, ks: seq<K>)
    requires Only(key, s, ks) == Only(key, t, ks) && Without(key, s, ks) == Without(key, t, ks)
    requires Offsets(key, s, ks) == Offsets(key, t, ks)
    ensures s == t
    decreases |s|
  {
    SameLength(key, s, t, ks);
    if s != [] {
      LastAgrees(key, s, t, ks);
      ViewDetermines(key, s[..|s| - 1], t[..|t| - 1], ks);
      assert s == s[..|s| - 1] + [s[|s| - 1]] && t == t[..|t| - 1] + [t[|t| - 1]];
    }
  }

  lemma SameLength<T(!new), K(!new)>(key: T -> K, s: seq<T>, t: seq<T>, ks: seq<K>)
    requires Only(key, s, ks) == Only(key, t, ks) && Without(key, s, ks) == Without(key, t, ks)
    ensures |s| == |t|
  {
    OffsetsBounded(key, s, ks);
    OffsetsBounded(key, t, ks);
  }

  lemma LastAgrees<T(!new), K(!new)>(key: T -> K, s: seq<T>, t: seq<T>, ks: seq<K>)
    requires s != [] && t != []
    requires Only(key, s, ks) == Only(key, t, ks) && Without(key, s, ks) == Without(key, t, ks)
      && Offsets(key, s, ks) == Offsets(key, t, ks)
    ensures s[|s| - 1] == t[|t| - 1]
    ensures var a, b := s[..|s| - 1], t[..|t| - 1];
            Only(key, a, ks) == Only(key, b, ks) && Without(key, a, ks) == Without(key, b, ks)
              && Offsets(key, a, ks) == Offsets(key, b, ks)
  {
    ViewLast(key, s, ks);
    ViewLast(key, t, ks);
  }

  /** The last record is recognisable from the halves: it belongs to `ks` exactly when some record of
      `ks` stands after every record outside it. */
  lemma ViewLast<T(!new), K(!new)>(key: T -> K, s: seq<T>, ks: seq<K>)
    requires s != []
    ensures var o := Offsets(key, s, ks);
            var a, b := Only(key, s, ks), Without(key, s, ks);
            var init, x := s[..|s| - 1], s[|s| - 1];
            && (key(x) in ks <==> o != [] && o[|o| - 1] == |b|)
            && (key(x) in ks ==> a != [] && o != [] && a[|a| - 1] == x && Only(key, init, ks) == a[..|a| - 1]
                                 && Without(key, init, ks) == b && Offsets(key, init, ks) == o[..|o| - 1])
            && (key(x) !in ks ==> b != [] && b[|b| - 1] == x && Without(key, init, ks) == b[..|b| - 1]
                                  && Only(key, init, ks) == a && Offsets(key, init, ks) == o)
  {
    var init, x := s[..|s| - 1], s[|s| - 1];
    OffsetsBounded(key, init, ks);
    assert s == init + [x];
    if key(x) in ks { ViewLastInside(key, init, x, ks); } else { ViewOutside(key, init, x, ks); }
  }

  lemma ViewLastInside<T(!new), K(!new)>(key: T -> K, init: seq<T>, x: T, ks: seq<K>)
    requires key(x) in ks
    ensures Only(key, init + [x], ks) == Only(key, init, ks) + [x]
    ensures Without(key, init + [x], ks) == Without(key, init, ks)
    ensures Offsets(key, init + [x], ks) == Offsets(key, init, ks) + [|Without(key, init, ks)|]
  {
    assert (init + [x])[..|init|] == init;
  }

  /** A whole-program compile is this merge onto an empty table, and it is verbatim. */
  lemma OntoEmpty<T(!new), K(!new)>(purged: T -> bool, key: T -> K, fragment: seq<T>)
    ensures Merged(purged, key, [], fragment) == fragment
  {
    var fkeys := Keys(key, fragment);
    NoSlots(fkeys);
    OnlyAll(key, fragment, fragment);
  }

  lemma {:induction false} NoSlots<K(!new)>(fkeys: seq<K>)
    ensures PlanOf(fkeys, []) == Plan([], fkeys)
  {
    if fkeys != [] {
      NoSlots(fkeys[..|fkeys| - 1]);
      assert fkeys == fkeys[..|fkeys| - 1] + [fkeys[|fkeys| - 1]];
    }
  }

  lemma {:induction false} OnlyAll<T(!new), K(!new)>(key: T -> K, s: seq<T>, whole: seq<T>)
    requires forall r :: r in s ==> r in whole
    ensures Only(key, s, Keys(key, whole)) == s
  {
    if s != [] {
      assert s[|s| - 1] in s;
      OnlyAll(key, s[..|s| - 1], whole);
      KeyOfMember(key, whole, s[|s| - 1]);
      assert s == s[..|s| - 1] + [s[|s| - 1]];
    }
  }

  /** Re-declaring everything leaves the fragment, verbatim. */
  lemma RedeclareEverything<T(!new), K(!new)>(purged: T -> bool, key: T -> K, base: seq<T>, fragment: seq<T>)
    requires Contiguous(key, fragment) && forall r :: r in base ==> purged(r)
    ensures Merged(purged, key, base, fragment) == fragment
  {
    MergeInterleaves(purged, key, base, fragment);
    EmissionOfContiguous(key, fragment, SlotKeys(purged, key, base, Keys(key, fragment)));
    NothingKept(purged, base);
    ShuffleNothing(Merged(purged, key, base, fragment), fragment);
  }

  lemma {:induction false} NothingKept<T(!new)>(purged: T -> bool, base: seq<T>)
    requires forall r :: r in base ==> purged(r)
    ensures Kept(purged, base) == []
  {
    if base != [] {
      assert base[|base| - 1] in base;
      NothingKept(purged, base[..|base| - 1]);
    }
  }

  lemma {:induction false} ShuffleNothing<T(!new)>(s: seq<T>, b: seq<T>)
    requires Shuffle(s, [], b)
    ensures s == b
  {
    if s != [] {
      ShuffleNothing(s[..|s| - 1], b[..|b| - 1]);
      assert s == s[..|s| - 1] + [s[|s| - 1]] && b == b[..|b| - 1] + [b[|b| - 1]];
    }
  }
}
