/** Set-like tables re-supplied in full on every install: what the fragment repeats is as good as absent. */
module MergeHeld {
  import opened KeyedMerge
  import opened MergeTables
  import opened MergeConservation
  import opened MergeCold
  import opened MergeInPlace
  import opened MergeMarked
  import opened MergeSets

  /** `s` without the records that are `gone`. */
  function Drop<T>(gone: T -> bool, s: seq<T>): seq<T> {
    if s == [] then []
    else if gone(s[|s| - 1]) then Drop(gone, s[..|s| - 1])
    else Drop(gone, s[..|s| - 1]) + [s[|s| - 1]]
  }

  /** The records of a fragment that a merge would append although they survive in the base. */
  function Repeats<T(==, !new), K(==, !new)>(
    purged: T -> bool, key: T -> K, base: seq<T>, fragment: seq<T>): T -> bool {
    var fkeys := Keys(key, fragment);
    var pending, kept := PlanOf(fkeys, SlotKeys(purged, key, base, fkeys)).pending, Kept(purged, base);
    (r: T) => key(r) in pending && r in kept
  }

  /** The fragment without what it repeats. */
  function Unheld<T(==, !new), K(==, !new)>(purged: T -> bool, key: T -> K, base: seq<T>, fragment: seq<T>): seq<T> {
    Drop(Repeats(purged, key, base, fragment), fragment)
  }

  // ----- Dropping records -----

  lemma {:induction false} DropMembers<T(!new)>(gone: T -> bool, s: seq<T>)
    ensures forall r :: r in Drop(gone, s) <==> r in s && !gone(r)
  {
    if s != [] {
      DropMembers(gone, s[..|s| - 1]);
      assert s == s[..|s| - 1] + [s[|s| - 1]];
    }
  }

  lemma {:induction false} AppendsUnheld<T(!new)>(
    held: (seq<T>, T) -> bool, gone: T -> bool, table: seq<T>, rest: seq<T>)
    requires forall t, r :: held(t, r) <==> r in t
    requires Distinct(rest) && forall r :: r in rest ==> (gone(r) <==> r in table)
    ensures AppendUnless(held, table, rest) == table + Drop(gone, rest)
  {
    if rest != [] {
      var init, x := rest[..|rest| - 1], rest[|rest| - 1];
      assert rest == init + [x] && x in rest;
      DistinctSnoc(init, x);
      AppendsUnheld(held, gone, table, init);
      DropMembers(gone, init);
      var t := table + Drop(gone, init);
      assert t + [x] == table + (Drop(gone, init) + [x]);
    }
  }

  lemma {:induction false} OnlyDrop<T(!new), K(!new)>(gone: T -> bool, key: T -> K, s: seq<T>, ks: seq<K>, ks': seq<K>)
    requires forall r :: r in s && !gone(r) ==> (key(r) in ks <==> key(r) in ks')
    ensures Only(key, Drop(gone, s), ks') == Drop(gone, Only(key, s, ks))
  {
    if s != [] {
      var init, x := s[..|s| - 1], s[|s| - 1];
      assert x in s;
      OnlyDrop(gone, key, init, ks, ks');
      assert Only(key, init, ks) + [] == Only(key, init, ks);
      if !gone(x) { assert (Drop(gone, init) + [x])[..|Drop(gone, init)|] == Drop(gone, init); }
      if key(x) in ks { assert (Only(key, init, ks) + [x])[..|Only(key, init, ks)|] == Only(key, init, ks); }
    }
  }

  lemma {:induction false} GroupDrop<T(!new), K(!new)>(gone: T -> bool, key: T -> K, s: seq<T>, k: K)
    requires forall r :: gone(r) ==> key(r) != k
    ensures Group(key, Drop(gone, s), k) == Group(key, s, k)
  {
    if s != [] {
      var init, x := s[..|s| - 1], s[|s| - 1];
      GroupDrop(gone, key, init, k);
      if !gone(x) { assert (Drop(gone, init) + [x])[..|Drop(gone, init)|] == Drop(gone, init); }
    }
  }

  lemma {:induction false} FlatDrop<T(!new), K(!new)>(gone: T -> bool, key: T -> K, s: seq<T>, ks: seq<K>)
    requires forall r :: gone(r) ==> key(r) !in ks
    ensures FlatGroups(key, Drop(gone, s), ks) == FlatGroups(key, s, ks)
  {
    if ks != [] {
      assert ks[|ks| - 1] in ks;
      FlatDrop(gone, key, s, ks[..|ks| - 1]);
      GroupDrop(gone, key, s, ks[|ks| - 1]);
    }
  }

  /** Dropping records of later keys leaves the earlier keys where they were. */
  lemma {:induction false} KeysDrop<T(!new), K(!new)>(gone: T -> bool, key: T -> K, s: seq<T>, a: seq<K>, p: seq<K>)
    requires Keys(key, s) <= a + p && Distinct(a + p)
    requires forall r :: gone(r) ==> key(r) !in a
    ensures var ks, ks' := Keys(key, s), Keys(key, Drop(gone, s));
            if |ks| <= |a| then ks' == ks
            else a <= ks' && forall k :: k in ks'[|a|..] ==> k in ks && k !in a
  {
    if s != [] {
      var init, x := s[..|s| - 1], s[|s| - 1];
      KeysDrop(gone, key, init, a, p);
      DropStep(gone, key, init, x);
      KeyOfNext(Keys(key, init), key(x), a, p);
      var ks, ks' := Keys(key, init), Keys(key, Drop(gone, init));
      if |ks| > |a| { TailGrows(ks', key(x), a); }
    }
  }

  lemma DropStep<T(!new), K(!new)>(gone: T -> bool, key: T -> K, init: seq<T>, x: T)
    ensures var d := Drop(gone, init + [x]);
            && Keys(key, init + [x]) ==
              (if key(x) in Keys(key, init) then Keys(key, init) else Keys(key, init) + [key(x)])
            && Keys(key, d) == if gone(x) || key(x) in Keys(key, Drop(gone, init)) then Keys(key, Drop(gone, init))
                               else Keys(key, Drop(gone, init)) + [key(x)]
  {
    assert (init + [x])[..|init|] == init;
    var d := Drop(gone, init);
    assert (d + [x])[..|d|] == d;
  }

  /** The next new key in an ordered list of keys is the one that follows those seen. */
  lemma KeyOfNext<K(!new)>(ks: seq<K>, k: K, a: seq<K>, p: seq<K>)
    requires Distinct(a + p) && ks <= a + p
    ensures k !in ks && ks + [k] <= a + p ==> if |ks| < |a| then k == a[|ks|] && ks <= a else k !in a
    ensures |ks| >= |a| ==> a <= ks
    ensures k in ks && |ks| <= |a| ==> k in a
  {
    var all := a + p;
    if k !in ks && ks + [k] <= all {
      assert (ks + [k])[|ks|] == all[|ks|];
      if |ks| >= |a| { forall i | 0 <= i < |a| ensures a[i] != k { assert all[i] == a[i]; } }
    }
  }

  lemma TailGrows<K(!new)>(ks: seq<K>, k: K, a: seq<K>)
    requires a <= ks
    ensures a <= ks + [k] && (ks + [k])[|a|..] == ks[|a|..] + [k]
    ensures k in ks <==> k in a || k in ks[|a|..]
  {
    assert ks == a + ks[|a|..];
  }

  // ----- The plan without them -----

  lemma {:induction false} PendingNoSlots<K(!new)>(fkeys: seq<K>, slots: seq<K>)
    ensures forall k :: k in PlanOf(fkeys, slots).pending ==> k !in slots
  {
    if fkeys != [] { PendingNoSlots(fkeys[..|fkeys| - 1], slots); }
  }

  lemma {:induction false} PlanTail<K(!new)>(a: seq<K>, q: seq<K>, slots: seq<K>)
    requires forall k :: k in q ==> k !in slots
    ensures PlanOf(a + q, slots) == Plan(PlanOf(a, slots).emitted, PlanOf(a, slots).pending + q)
  {
    if q == [] {
      assert a + q == a;
    } else {
      var init, k := q[..|q| - 1], q[|q| - 1];
      assert k in q && (a + q)[..|a + q| - 1] == a + init;
      PlanTail(a, init, slots);
    }
  }

  lemma {:induction false} SlotsAgree<T(!new), K(!new)>(
    purged: T -> bool, key: T -> K, base: seq<T>, f: seq<K>, g: seq<K>)
    requires forall b :: b in base && purged(b) ==> (key(b) in f <==> key(b) in g)
    ensures SlotKeys(purged, key, base, f) == SlotKeys(purged, key, base, g)
  {
    if base != [] {
      assert base[|base| - 1] in base;
      SlotsAgree(purged, key, base[..|base| - 1], f, g);
    }
  }

  lemma {:induction false} WalkAgrees<T(!new), K(!new)>(
    purged: T -> bool, key: T -> K, base: seq<T>, f: seq<K>, g: seq<K>, s: seq<T>, t: seq<T>, emitted: seq<seq<K>>)
    requires forall b :: b in base && purged(b) ==> (key(b) in f <==> key(b) in g)
    requires |SlotKeys(purged, key, base, f)| <= |emitted| && |SlotKeys(purged, key, base, g)| <= |emitted|
    requires forall j :: 0 <= j < |emitted| ==> FlatGroups(key, s, emitted[j]) == FlatGroups(key, t, emitted[j])
    ensures Walk(purged, key, base, s, f, emitted) == Walk(purged, key, base, t, g, emitted)
  {
    if base != [] {
      var init := base[..|base| - 1];
      assert base[|base| - 1] in base;
      SlotsAgree(purged, key, init, f, g);
      SlotsAgree(purged, key, base, f, g);
      WalkAgrees(purged, key, init, f, g, s, t, emitted);
    }
  }

  lemma {:induction false} InConcat<K(!new)>(kss: seq<seq<K>>, j: nat, k: K)
    requires j < |kss| && k in kss[j]
    ensures k in Concat(kss)
  {
    if j < |kss| - 1 { InConcat(kss[..|kss| - 1], j, k); }
  }

  /** The keys a fragment keeps without its repeats, and the plan they make: what comes before the last
      slot is untouched. */
  lemma UnheldPlan<T(!new), K(!new)>(purged: T -> bool, key: T -> K, base: seq<T>, fragment: seq<T>)
    ensures var fkeys, fkeys' := Keys(key, fragment), Keys(key, Unheld(purged, key, base, fragment));
            var slots := SlotKeys(purged, key, base, fkeys);
            var plan, plan' := PlanOf(fkeys, slots), PlanOf(fkeys', slots);
            && plan'.emitted == plan.emitted
            && (forall b :: b in base && purged(b) ==> (key(b) in fkeys <==> key(b) in fkeys'))
            && (forall k :: k in fkeys' ==> (k in plan'.pending <==> k in plan.pending))
  {
    var fkeys, fkeys' := Keys(key, fragment), Keys(key, Unheld(purged, key, base, fragment));
    var slots := SlotKeys(purged, key, base, fkeys);
    var plan := PlanOf(fkeys, slots);
    var a, p := Concat(plan.emitted), plan.pending;
    var q := UnheldKeys(purged, key, base, fragment);
    PendingNoSlots(fkeys, slots);
    ShorterPlan(fkeys, slots, q);
    forall b | b in base && purged(b) ensures key(b) in fkeys <==> key(b) in fkeys' {
      SupersededKey(purged, key, base, fkeys, b);
    }
  }

  lemma SupersededKey<T(!new), K(!new)>(purged: T -> bool, key: T -> K, base: seq<T>, fkeys: seq<K>, b: T)
    requires b in base && purged(b)
    ensures key(b) in fkeys <==> key(b) in SlotKeys(purged, key, base, fkeys)
  {
    SlotMembers(purged, key, base, fkeys, key(b));
    var i :| 0 <= i < |base| && base[i] == b;
    assert purged(base[i]) && key(base[i]) == key(b);
  }

  /** What is left of the pending keys. */
  lemma UnheldKeys<T(!new), K(!new)>(purged: T -> bool, key: T -> K, base: seq<T>, fragment: seq<T>) returns (q: seq<K>)
    ensures var fkeys := Keys(key, fragment);
            var plan := PlanOf(fkeys, SlotKeys(purged, key, base, fkeys));
            && Keys(key, Unheld(purged, key, base, fragment)) == Concat(plan.emitted) + q
            && fkeys == Concat(plan.emitted) + plan.pending
            && (forall k :: k in q ==> k in plan.pending)
            && (forall k :: k in plan.pending ==> k !in Concat(plan.emitted))
  {
    var gone := Repeats(purged, key, base, fragment);
    var fkeys, fkeys' := Keys(key, fragment), Keys(key, Drop(gone, fragment));
    var slots := SlotKeys(purged, key, base, fkeys);
    var plan := PlanOf(fkeys, slots);
    var a, p := Concat(plan.emitted), plan.pending;
    KeysDistinct(key, fragment);
    PlanShape(fkeys, slots);
    SplitDistinct(fkeys, a, p);
    KeysDrop(gone, key, fragment, a, p);
    q := if |fkeys| <= |a| then p else fkeys'[|a|..];
  }

  lemma ShorterPlan<K(!new)>(fkeys: seq<K>, slots: seq<K>, q: seq<K>)
    requires var plan := PlanOf(fkeys, slots);
             && fkeys == Concat(plan.emitted) + plan.pending
             && (forall k :: k in q ==> k in plan.pending) && (forall k :: k in plan.pending ==> k !in slots)
    ensures var plan := PlanOf(fkeys, slots);
            PlanOf(Concat(plan.emitted) + q, slots) == Plan(plan.emitted, q)
  {
    var plan := PlanOf(fkeys, slots);
    var a := Concat(plan.emitted);
    PlanTail(a, plan.pending, slots);
    PlanTail(a, q, slots);
    NoMore(PlanOf(a, slots).pending, plan.pending);
    assert PlanOf(a, slots).pending + q == q;
  }

  lemma NoMore<K>(x: seq<K>, p: seq<K>)
    requires x + p == p
    ensures x == []
  {
    assert |x + p| == |x| + |p|;
  }

  /** **What a set-like fragment repeats is as good as absent**: the merge is the plain merge of the rest. */
  lemma SetMergeIsUnheldMerge<T(!new), K(!new)>(purged: T -> bool, key: T -> K, base: seq<T>, fragment: seq<T>)
    requires Distinct(fragment)
    ensures MergedSet(purged, key, base, fragment) == Merged(purged, key, base, Unheld(purged, key, base, fragment))
  {
    var gone := Repeats(purged, key, base, fragment);
    var rest := Unheld(purged, key, base, fragment);
    var fkeys, fkeys' := Keys(key, fragment), Keys(key, rest);
    var slots := SlotKeys(purged, key, base, fkeys);
    var plan := PlanOf(fkeys, slots);
    UnheldPlan(purged, key, base, fragment);
    SlotsAgree(purged, key, base, fkeys, fkeys');
    KeysDistinct(key, fragment);
    KeysDistinct(key, rest);
    PlanFits(purged, key, base, fkeys);
    PlanFits(purged, key, base, fkeys');
    UnheldWalk(purged, key, base, fragment);
    UnheldTail(purged, key, base, fragment);
    var w := Walk(purged, key, base, fragment, fkeys, plan.emitted);
    var appended := Only(key, fragment, plan.pending);
    OnlyDistinct(key, fragment, plan.pending);
    forall r | r in appended ensures gone(r) <==> r in w {
      OnlyKeys(key, fragment, plan.pending);
      WalkHolds(purged, key, base, fragment, r);
    }
    AppendsUnheld((table: seq<T>, r: T) => r in table, gone, w, appended);
  }

  lemma UnheldWalk<T(!new), K(!new)>(purged: T -> bool, key: T -> K, base: seq<T>, fragment: seq<T>)
    requires var fkeys := Keys(key, fragment);
             var slots := SlotKeys(purged, key, base, fkeys);
             |PlanOf(fkeys, slots).emitted| == |slots|
    ensures var rest := Unheld(purged, key, base, fragment);
            var fkeys, fkeys' := Keys(key, fragment), Keys(key, rest);
            var emitted := PlanOf(fkeys, SlotKeys(purged, key, base, fkeys)).emitted;
            && |SlotKeys(purged, key, base, fkeys')| <= |emitted|
            && Walk(purged, key, base, rest, fkeys', emitted) == Walk(purged, key, base, fragment, fkeys, emitted)
  {
    var gone := Repeats(purged, key, base, fragment);
    var rest := Unheld(purged, key, base, fragment);
    var fkeys, fkeys' := Keys(key, fragment), Keys(key, rest);
    var slots := SlotKeys(purged, key, base, fkeys);
    var plan := PlanOf(fkeys, slots);
    UnheldPlan(purged, key, base, fragment);
    SlotsAgree(purged, key, base, fkeys, fkeys');
    KeysDistinct(key, fragment);
    PlanShape(fkeys, slots);
    SplitDistinct(fkeys, Concat(plan.emitted), plan.pending);
    forall j | 0 <= j < |plan.emitted|
      ensures FlatGroups(key, fragment, plan.emitted[j]) == FlatGroups(key, rest, plan.emitted[j])
    {
      forall r | gone(r) ensures key(r) !in plan.emitted[j] {
        if key(r) in plan.emitted[j] { InConcat(plan.emitted, j, key(r)); }
      }
      FlatDrop(gone, key, fragment, plan.emitted[j]);
    }
    WalkAgrees(purged, key, base, fkeys, fkeys', fragment, rest, plan.emitted);
  }

  lemma UnheldTail<T(!new), K(!new)>(purged: T -> bool, key: T -> K, base: seq<T>, fragment: seq<T>)
    ensures var rest := Unheld(purged, key, base, fragment);
            var fkeys, fkeys' := Keys(key, fragment), Keys(key, rest);
            var slots := SlotKeys(purged, key, base, fkeys);
            Only(key, rest, PlanOf(fkeys', slots).pending) ==
              Drop(Repeats(purged, key, base, fragment), Only(key, fragment, PlanOf(fkeys, slots).pending))
  {
    var gone := Repeats(purged, key, base, fragment);
    var rest := Unheld(purged, key, base, fragment);
    var fkeys, fkeys' := Keys(key, fragment), Keys(key, rest);
    var slots := SlotKeys(purged, key, base, fkeys);
    UnheldPlan(purged, key, base, fragment);
    DropMembers(gone, fragment);
    forall r | r in fragment && !gone(r) ensures key(r) in fkeys' { KeyOfMember(key, rest, r); }
    OnlyDrop(gone, key, fragment, PlanOf(fkeys, slots).pending, PlanOf(fkeys', slots).pending);
  }

  // ----- Installing again -----

  /** The purge goes by key, as it does in the set-like tables. */
  ghost predicate KeyWise<T(!new), K(!new)>(purged: T -> bool, key: T -> K) {
    forall r, s :: key(r) == key(s) ==> purged(r) == purged(s)
  }

  /** The fragment's records that it supersedes itself. */
  function OwnPart<T>(purged: T -> bool, fragment: seq<T>): seq<T> {
    Drop((r: T) => !purged(r), fragment)
  }

  /** No record that survives is placed through a slot. */
  ghost predicate PlacesNoSurvivor<T(!new), K(!new)>(purged: T -> bool, key: T -> K, base: seq<T>, fragment: seq<T>) {
    forall r :: r in Kept(purged, base) ==> r !in Placed(purged, key, base, fragment)
  }

  lemma {:induction false} DropAgrees<T(!new)>(gone: T -> bool, gone': T -> bool, s: seq<T>)
    requires forall r :: r in s ==> gone(r) == gone'(r)
    ensures Drop(gone, s) == Drop(gone', s)
  {
    if s != [] {
      assert s[|s| - 1] in s;
      DropAgrees(gone, gone', s[..|s| - 1]);
    }
  }

  lemma {:induction false} DropNone<T(!new)>(gone: T -> bool, s: seq<T>)
    requires forall r :: r in s ==> !gone(r)
    ensures Drop(gone, s) == s
  {
    if s != [] {
      assert s[|s| - 1] in s;
      DropNone(gone, s[..|s| - 1]);
    }
  }

  lemma {:induction false} OnlyIsDrop<T(!new), K(!new)>(gone: T -> bool, key: T -> K, s: seq<T>, ks: seq<K>)
    requires forall r :: r in s ==> (key(r) in ks <==> !gone(r))
    ensures Only(key, s, ks) == Drop(gone, s)
  {
    if s != [] {
      var init, x := s[..|s| - 1], s[|s| - 1];
      assert x in s;
      OnlyIsDrop(gone, key, init, ks);
      assert Only(key, init, ks) + [] == Only(key, init, ks);
    }
  }

  lemma {:induction false} ShuffleOnly<T(!new), K(!new)>(key: T -> K, s: seq<T>, a: seq<T>, b: seq<T>, ks: seq<K>)
    requires Shuffle(s, a, b) && forall r :: r in a ==> key(r) !in ks
    ensures Only(key, s, ks) == Only(key, b, ks)
  {
    if s != [] {
      var init := s[..|s| - 1];
      if a != [] && a[|a| - 1] == s[|s| - 1] && Shuffle(init, a[..|a| - 1], b) {
        assert a[|a| - 1] in a;
        ShuffleOnly(key, init, a[..|a| - 1], b, ks);
        assert Only(key, init, ks) + [] == Only(key, init, ks);
      } else {
        ShuffleOnly(key, init, a, b[..|b| - 1], ks);
      }
    }
  }

  /** What the second install repeats: everything that survives, exactly when none of that is placed. */
  lemma SecondUnheld<T(!new), K(!new)>(purged: T -> bool, key: T -> K, m: seq<T>, fragment: seq<T>)
    requires forall r :: r in fragment ==> r in m
    ensures OwnRows(purged, Unheld(purged, key, m, fragment)) <==> PlacesNoSurvivor(purged, key, m, fragment)
    ensures OwnRows(purged, Unheld(purged, key, m, fragment)) ==>
              Unheld(purged, key, m, fragment) == OwnPart(purged, fragment)
  {
    var fkeys := Keys(key, fragment);
    var slots := SlotKeys(purged, key, m, fkeys);
    var plan := PlanOf(fkeys, slots);
    var gone, u := Repeats(purged, key, m, fragment), Unheld(purged, key, m, fragment);
    KeysDistinct(key, fragment);
    PlanShape(fkeys, slots);
    SplitDistinct(fkeys, Concat(plan.emitted), plan.pending);
    FlatGroupsKeys(key, fragment, Concat(plan.emitted));
    KeptRecords(purged, m);
    DropMembers(gone, fragment);
    forall r | r in fragment
      ensures r in Placed(purged, key, m, fragment) <==> key(r) !in plan.pending
      ensures r in u <==> purged(r) || r in Placed(purged, key, m, fragment)
    {
      KeyOfMember(key, fragment, r);
    }
    if OwnRows(purged, u) {
      forall r | r in fragment ensures gone(r) == !purged(r) { assert r in u <==> !gone(r); }
      DropAgrees(gone, (r: T) => !purged(r), fragment);
    }
  }

  /** What an installed table holds under the fragment's own keys. */
  lemma OwnInTable<T(!new), K(!new)>(purged: T -> bool, key: T -> K, base: seq<T>, fragment: seq<T>)
    requires KeyWise(purged, key)
    ensures var m, u := Merged(purged, key, base, Unheld(purged, key, base, fragment)), OwnPart(purged, fragment);
            var ks := Keys(key, u);
            && (forall r :: r in m ==> (purged(r) <==> key(r) in ks))
            && Keys(key, Only(key, m, ks)) == ks
            && forall k :: k in ks ==> Group(key, m, k) == Group(key, u, k)
  {
    var gone, u1 := Repeats(purged, key, base, fragment), Unheld(purged, key, base, fragment);
    var m, u := Merged(purged, key, base, u1), OwnPart(purged, fragment);
    var ks := Keys(key, u);
    OwnKeys(purged, key, fragment);
    MergedRecords(purged, key, base, u1);
    DropMembers(gone, fragment);
    OwnOfUnheld(purged, key, base, fragment);
    var e := Emission(key, u1, SlotKeys(purged, key, base, Keys(key, u1)));
    MergeInterleaves(purged, key, base, u1);
    KeptRecords(purged, base);
    forall r | r in m ensures purged(r) <==> key(r) in ks { OwnKeyIs(purged, key, fragment, r); }
    forall r | r in Kept(purged, base) ensures key(r) !in ks { OwnKeyIs(purged, key, fragment, r); }
    ShuffleOnly(key, m, Kept(purged, base), e, ks);
    OnlyRegroups(key, e, u1, ks);
    forall k | k in ks ensures Group(key, m, k) == Group(key, u, k) {
      GroupOfOnly(key, m, ks, k);
      GroupOfOnly(key, e, ks, k);
      GroupOfOnly(key, u1, ks, k);
    }
  }

  /** Two tables of one key order show any keys in one order. */
  lemma OnlyRegroups<T(!new), K(!new)>(key: T -> K, e: seq<T>, s: seq<T>, ks: seq<K>)
    requires Keys(key, e) == Keys(key, s)
    ensures Keys(key, Only(key, e, ks)) == Keys(key, Only(key, s, ks))
  {
    var done := Minus(Keys(key, s), ks);
    forall r | r in e || r in s ensures key(r) in ks <==> key(r) !in done {
      if r in e { KeyOfMember(key, e, r); } else { KeyOfMember(key, s, r); }
      MinusMembers(Keys(key, s), ks, key(r));
    }
    KeysOfOnly(key, e, done, ks);
    KeysOfOnly(key, s, done, ks);
  }

  lemma OwnKeys<T(!new), K(!new)>(purged: T -> bool, key: T -> K, fragment: seq<T>)
    requires KeyWise(purged, key)
    ensures forall r :: r in fragment ==> (key(r) in Keys(key, OwnPart(purged, fragment)) <==> purged(r))
  {
    forall r | r in fragment ensures key(r) in Keys(key, OwnPart(purged, fragment)) <==> purged(r) {
      OwnKeyIs(purged, key, fragment, r);
      DropMembers((x: T) => !purged(x), fragment);
      if purged(r) { KeyOfMember(key, OwnPart(purged, fragment), r); }
    }
  }

  /** A record under one of the fragment's own keys is superseded; and, if it is the fragment's, the
      other way round. */
  lemma OwnKeyIs<T(!new), K(!new)>(purged: T -> bool, key: T -> K, fragment: seq<T>, r: T)
    requires KeyWise(purged, key)
    ensures key(r) in Keys(key, OwnPart(purged, fragment)) ==> purged(r)
    ensures r in fragment && purged(r) ==> key(r) in Keys(key, OwnPart(purged, fragment))
  {
    var u := OwnPart(purged, fragment);
    DropMembers((x: T) => !purged(x), fragment);
    if key(r) in Keys(key, u) {
      KeyWitness(key, u, key(r));
      var i :| 0 <= i < |u| && key(u[i]) == key(r);
      assert u[i] in u;
    }
    if r in u { KeyOfMember(key, u, r); }
  }

  /** What a fragment repeats is none of its own. */
  lemma OwnOfUnheld<T(!new), K(!new)>(purged: T -> bool, key: T -> K, base: seq<T>, fragment: seq<T>)
    requires KeyWise(purged, key)
    ensures Only(key, Unheld(purged, key, base, fragment), Keys(key, OwnPart(purged, fragment))) ==
      OwnPart(purged, fragment)
  {
    var gone, u := Repeats(purged, key, base, fragment), OwnPart(purged, fragment);
    var ks := Keys(key, u);
    OwnKeys(purged, key, fragment);
    OnlyDrop(gone, key, fragment, ks, ks);
    OnlyIsDrop((r: T) => !purged(r), key, fragment, ks);
    DropMembers((r: T) => !purged(r), fragment);
    KeptRecords(purged, base);
    DropNone(gone, u);
  }

  /** With its own records in the table already, in their order, a fragment's own part merges to nothing new
      exactly when those stand together there. */
  lemma OwnRemerge<T(!new), K(!new)>(purged: T -> bool, key: T -> K, m: seq<T>, u: seq<T>)
    requires var ks := Keys(key, u);
             && (forall r :: r in m ==> (purged(r) <==> key(r) in ks))
             && Keys(key, Only(key, m, ks)) == ks
             && forall k :: k in ks ==> Group(key, m, k) == Group(key, u, k)
    ensures Merged(purged, key, m, u) == m <==> Together(key, m, Keys(key, u))
  {
    var ks := Keys(key, u);
    SlotsAreKeys(purged, key, m, ks);
    InPlace(purged, key, m, u);
    if Together(key, m, ks) {
      assert m[..|m|] == m;
      ReplacedIsSelf(purged, key, m, |m|, u, ks);
    }
    if Merged(purged, key, m, u) == m {
      PlanOfAllSlots(ks, ks);
      OnlyNone(key, u);
      MergedTogether(purged, key, m, u, ks);
    }
  }

  /** **Installing a set-like fragment again changes nothing** exactly when no surviving record is placed
      through a slot the second time, and what the first install appended of the fragment's own records
      stands together. */
  lemma SetRemergeIs<T(!new), K(!new)>(purged: T -> bool, key: T -> K, base: seq<T>, fragment: seq<T>)
    requires Distinct(fragment) && KeyWise(purged, key)
    ensures var m := MergedSet(purged, key, base, fragment);
            MergedSet(purged, key, m, fragment) == m <==>
              && PlacesNoSurvivor(purged, key, m, fragment)
              && Together(key, Appended(purged, key, base, Unheld(purged, key, base, fragment)),
                          Keys(key, OwnPart(purged, fragment)))
  {
    var m, u1, u := MergedSet(purged, key, base, fragment), Unheld(purged, key, base, fragment),
      OwnPart(purged, fragment);
    SetMergeIsUnheldMerge(purged, key, base, fragment);
    SetMergeIsUnheldMerge(purged, key, m, fragment);
    MergedSetRecords(purged, key, base, fragment);
    SecondUnheld(purged, key, m, fragment);
    OwnInTable(purged, key, base, fragment);
    OwnRemerge(purged, key, m, u);
    if MergedSet(purged, key, m, fragment) == m { UnchangedOwns(purged, key, m, Unheld(purged, key, m, fragment)); }
    forall r | r in base && key(r) in Keys(key, u) ensures purged(r) { OwnKeyIs(purged, key, fragment, r); }
    if Together(key, Appended(purged, key, base, u1), Keys(key, u)) {
      MergedTogether(purged, key, base, u1, Keys(key, u));
    }
    if Together(key, m, Keys(key, u)) { TailTogether(purged, key, base, u1, Keys(key, u)); }
  }
}
