/** The merge as it runs: slots counted, cells taken, and the rest appended. */
module MergeRun {
  import opened Wrappers
  import opened KeyedMerge
  import opened MergeConservation
  import opened MergeInPlace
  import opened MergeSets

  // ----- The merge, as it runs -----

  /** The fragment's keys: a list for their order, a set for their membership. */
  method DistinctKeys<T(!new), K(==, !new)>(key: T -> K, fragment: seq<T>) returns (fkeys: seq<K>, fset: set<K>)
    ensures fkeys == Keys(key, fragment) && forall k :: k in fset <==> k in fkeys
  {
    fkeys, fset := [], {};
    for i := 0 to |fragment|
      invariant fkeys == Keys(key, fragment[..i]) && forall k :: k in fset <==> k in fkeys
    {
      assert fragment[..i + 1][..i] == fragment[..i];
      var k := key(fragment[i]);
      if k !in fset {
        fset, fkeys := fset + {k}, fkeys + [k];
      }
    }
    assert fragment[..|fragment|] == fragment;
  }

  /** The slots: counted, and kept as a set. */
  method FindSlots<T(!new), K(==, !new)>(
    purged: T -> bool, key: T -> K, base: seq<T>, fset: set<K>, ghost fkeys: seq<K>)
    returns (slotCount: nat, slotSet: set<K>)
    requires forall k :: k in fset <==> k in fkeys
    ensures slotCount == |SlotKeys(purged, key, base, fkeys)|
    ensures forall k :: k in slotSet <==> k in SlotKeys(purged, key, base, fkeys)
  {
    slotCount, slotSet := 0, {};
    for i := 0 to |base|
      invariant slotCount == |SlotKeys(purged, key, base[..i], fkeys)|
      invariant forall k :: k in slotSet <==> k in SlotKeys(purged, key, base[..i], fkeys)
    {
      assert base[..i + 1][..i] == base[..i];
      if purged(base[i]) {
        var k := key(base[i]);
        if k in fset && k !in slotSet {
          slotSet, slotCount := slotSet + {k}, slotCount + 1;
        }
      }
    }
    assert base[..|base|] == base;
  }

  /** Hand the slots out by walking the fragment's keys; `next` never runs past the slot count. */
  method AssignSlots<K(==, !new)>(fkeys: seq<K>, slotSet: set<K>, slotCount: nat, ghost slots: seq<K>)
    returns (emitted: seq<seq<K>>, pending: seq<K>)
    requires forall k :: k in slotSet <==> k in slots
    requires |PlanOf(fkeys, slots).emitted| == slotCount
    ensures Plan(emitted, pending) == PlanOf(fkeys, slots)
  {
    emitted, pending := seq(slotCount, _ => []), [];
    var next := 0;
    for i := 0 to |fkeys|
      invariant next == |PlanOf(fkeys[..i], slots).emitted| <= slotCount == |emitted|
      invariant emitted[..next] == PlanOf(fkeys[..i], slots).emitted && pending == PlanOf(fkeys[..i], slots).pending
      invariant forall j :: next <= j < slotCount ==> emitted[j] == []
    {
      PlanGrows(fkeys, slots, i + 1);
      assert fkeys[..i + 1][..i] == fkeys[..i];
      var k := fkeys[i];
      if k in slotSet {
        emitted := emitted[next := emitted[next] + pending + [k]];
        pending := [];
        assert [] + PlanOf(fkeys[..i], slots).pending == PlanOf(fkeys[..i], slots).pending;
        next := next + 1;
      } else {
        pending := pending + [k];
      }
    }
    assert fkeys[..|fkeys|] == fkeys;
  }

  lemma {:induction false} PlanGrows<K(!new)>(fkeys: seq<K>, slots: seq<K>, n: nat)
    requires n <= |fkeys|
    ensures |PlanOf(fkeys[..n], slots).emitted| <= |PlanOf(fkeys, slots).emitted|
    decreases |fkeys| - n
  {
    if n < |fkeys| {
      PlanGrows(fkeys, slots, n + 1);
      assert fkeys[..n + 1][..n] == fkeys[..n];
    } else {
      assert fkeys[..n] == fkeys;
    }
  }

  /** The cells of `incoming` once the groups of `taken` have been moved out. */
  ghost predicate Untaken<T(!new), K(!new)>(key: T -> K, fragment: seq<T>, cells: seq<Option<T>>, taken: seq<K>) {
    |cells| == |fragment| &&
    forall i :: 0 <= i < |cells| ==> cells[i] == if key(fragment[i]) in taken then None else Some(fragment[i])
  }

  /** Move one group's records out of their cells, onto the merged table. */
  method PlaceGroup<T(!new), K(==, !new)>(
    key: T -> K, incoming: array<Option<T>>, group: K, merged: seq<T>, ghost fragment: seq<T>, ghost taken: seq<K>)
    returns (merged': seq<T>)
    requires Untaken(key, fragment, incoming[..], taken) && group !in taken
    modifies incoming
    ensures Untaken(key, fragment, incoming[..], taken + [group])
    ensures merged' == merged + Group(key, fragment, group)
  {
    merged' := merged;
    for j := 0 to incoming.Length
      invariant merged' == merged + Group(key, fragment[..j], group)
      invariant forall i :: 0 <= i < j ==>
        incoming[i] == if key(fragment[i]) in taken + [group] then None else Some(fragment[i])
      invariant forall i :: j <= i < incoming.Length ==>
        incoming[i] == if key(fragment[i]) in taken then None else Some(fragment[i])
    {
      assert fragment[..j + 1][..j] == fragment[..j];
      if incoming[j].Some? && key(incoming[j].value) == group {
        merged' := merged' + [incoming[j].value];
        incoming[j] := None;
      }
    }
    assert fragment[..|fragment|] == fragment;
  }

  /** Move out every group of one slot. */
  method PlaceGroups<T(!new), K(==, !new)>(
    key: T -> K, incoming: array<Option<T>>, groups: seq<K>, merged: seq<T>, ghost fragment: seq<T>,
    ghost taken: seq<K>)
    returns (merged': seq<T>)
    requires Untaken(key, fragment, incoming[..], taken)
    requires Distinct(groups) && forall k :: k in groups ==> k !in taken
    modifies incoming
    ensures Untaken(key, fragment, incoming[..], taken + groups)
    ensures merged' == merged + FlatGroups(key, fragment, groups)
  {
    merged' := merged;
    assert taken + groups[..0] == taken;
    for g := 0 to |groups|
      invariant Untaken(key, fragment, incoming[..], taken + groups[..g])
      invariant merged' == merged + FlatGroups(key, fragment, groups[..g])
    {
      assert groups[..g + 1][..g] == groups[..g];
      assert (taken + groups[..g]) + [groups[g]] == taken + groups[..g + 1];
      merged' := PlaceGroup(key, incoming, groups[g], merged', fragment, taken + groups[..g]);
    }
    assert groups[..|groups|] == groups;
  }

  /** Walk the base: keep what is not superseded, and at each superseded key's first record open the
      next slot. `slot` never runs past the slot count, and every slot is opened. */
  method PlaceSlots<T(!new), K(==, !new)>(
    purged: T -> bool, key: T -> K, base: seq<T>, incoming: array<Option<T>>,
    emitted: seq<seq<K>>, slotSet: set<K>, ghost fragment: seq<T>, ghost fkeys: seq<K>)
    returns (merged: seq<T>)
    requires Untaken(key, fragment, incoming[..], []) && Distinct(Concat(emitted))
    requires |emitted| == |SlotKeys(purged, key, base, fkeys)|
    requires forall k :: k in slotSet <==> k in SlotKeys(purged, key, base, fkeys)
    modifies incoming
    ensures Untaken(key, fragment, incoming[..], Concat(emitted))
    ensures merged == Walk(purged, key, base, fragment, fkeys, emitted)
  {
    merged := [];
    var anchored: set<K> := {};
    var slot := 0;
    for i := 0 to |base|
      invariant slot == |SlotKeys(purged, key, base[..i], fkeys)| <= |emitted|
      invariant forall k :: k in anchored <==> Superseded(purged, key, base[..i], k)
      invariant merged == Walk(purged, key, base[..i], fragment, fkeys, emitted)
      invariant Untaken(key, fragment, incoming[..], Concat(emitted[..slot]))
    {
      assert base[..i + 1][..i] == base[..i];
      SlotKeysGrow(purged, key, base, fkeys, i + 1);
      if !purged(base[i]) {
        SupersededSnoc(purged, key, base, i);
        merged := merged + [base[i]];
      } else {
        var k := key(base[i]);
        SupersededSnoc(purged, key, base, i);
        SlotMembers(purged, key, base, fkeys, k);
        SlotMembers(purged, key, base[..i], fkeys, k);
        SupersededPrefixes(purged, key, base, i + 1, k);
        var first := k !in anchored;
        anchored := anchored + {k};
        if first && k in slotSet {
          BlocksDisjoint(emitted, slot);
          merged := PlaceGroups(key, incoming, emitted[slot], merged, fragment, Concat(emitted[..slot]));
          slot := slot + 1;
        }
      }
    }
    assert base[..|base|] == base && emitted[..slot] == emitted;
  }

  lemma SupersededSnoc<T(!new), K(!new)>(purged: T -> bool, key: T -> K, base: seq<T>, i: nat)
    requires i < |base|
    ensures forall k :: Superseded(purged, key, base[..i + 1], k) <==>
                        Superseded(purged, key, base[..i], k) || (purged(base[i]) && key(base[i]) == k)
  {
    forall k ensures Superseded(purged, key, base[..i + 1], k) <==>
                     Superseded(purged, key, base[..i], k) || (purged(base[i]) && key(base[i]) == k)
    {
      assert forall j :: 0 <= j < i ==> base[..i + 1][j] == base[..i][j];
      assert base[..i + 1][i] == base[i];
    }
  }

  lemma SupersededPrefixes<T(!new), K(!new)>(purged: T -> bool, key: T -> K, base: seq<T>, n: nat, k: K)
    requires n <= |base| && Superseded(purged, key, base[..n], k)
    ensures Superseded(purged, key, base, k)
  {
    var i :| 0 <= i < n && purged(base[..n][i]) && key(base[..n][i]) == k;
    assert base[i] == base[..n][i];
  }

  lemma {:induction false} SlotKeysGrow<T(!new), K(!new)>(
    purged: T -> bool, key: T -> K, base: seq<T>, fkeys: seq<K>, n: nat)
    requires n <= |base|
    ensures SlotKeys(purged, key, base[..n], fkeys) <= SlotKeys(purged, key, base, fkeys)
    decreases |base| - n
  {
    if n < |base| {
      SlotKeysGrow(purged, key, base, fkeys, n + 1);
      assert base[..n + 1][..n] == base[..n];
    } else {
      assert base[..n] == base;
    }
  }

  /** Append what is left of `incoming`, in the fragment's order. */
  method AppendRest<T(!new), K(!new)>(
    held: (seq<T>, T) -> bool, key: T -> K, incoming: array<Option<T>>, merged: seq<T>,
    ghost fragment: seq<T>, ghost taken: seq<K>, ghost pending: seq<K>)
    returns (merged': seq<T>)
    requires Untaken(key, fragment, incoming[..], taken)
    requires forall r :: r in fragment ==> (key(r) in pending <==> key(r) !in taken)
    ensures merged' == AppendUnless(held, merged, Only(key, fragment, pending))
  {
    merged' := merged;
    for i := 0 to incoming.Length
      invariant merged' == AppendUnless(held, merged, Only(key, fragment[..i], pending))
    {
      assert fragment[i] in fragment;
      OnlyNext(key, fragment, i, pending);
      match incoming[i]
      case None =>
      case Some(record) =>
        AppendNext(held, merged, Only(key, fragment[..i], pending), record);
        if !held(merged', record) {
          merged' := merged' + [record];
        }
    }
    assert fragment[..|fragment|] == fragment;
  }

  lemma OnlyNext<T(!new), K(!new)>(key: T -> K, s: seq<T>, i: nat, ks: seq<K>)
    requires i < |s|
    ensures Only(key, s[..i + 1], ks) == if key(s[i]) in ks then Only(key, s[..i], ks) + [s[i]]
      else Only(key, s[..i], ks)
  {
    assert s[..i + 1][..i] == s[..i];
  }

  lemma AppendNext<T(!new)>(held: (seq<T>, T) -> bool, table: seq<T>, rest: seq<T>, r: T)
    ensures AppendUnless(held, table, rest + [r]) ==
            var t := AppendUnless(held, table, rest); if held(t, r) then t else t + [r]
  {
    assert (rest + [r])[..|rest|] == rest;
  }

  /** Merge `fragment` into `base`. */
  method Merge<T(!new), K(==, !new)>(
    base: seq<T>, fragment: seq<T>, purged: T -> bool, key: T -> K, alreadyHeld: (seq<T>, T) -> bool)
    returns (merged: seq<T>)
    ensures merged == MergedUnless(alreadyHeld, purged, key, base, fragment)
  {
    var incoming := new Option<T>[|fragment|](i requires 0 <= i < |fragment| => Some(fragment[i]));
    var fkeys, fset := DistinctKeys(key, fragment);
    var slotCount, slotSet := FindSlots(purged, key, base, fset, fkeys);
    ghost var slots := SlotKeys(purged, key, base, fkeys);
    KeysDistinct(key, fragment);
    PlanFits(purged, key, base, fkeys);
    var emitted, pending := AssignSlots(fkeys, slotSet, slotCount, slots);
    PlanShape(fkeys, slots);
    SplitDistinct(fkeys, Concat(emitted), pending);
    merged := PlaceSlots(purged, key, base, incoming, emitted, slotSet, fragment, fkeys);
    forall r | r in fragment ensures key(r) in pending <==> key(r) !in Concat(emitted) {
      KeyOfMember(key, fragment, r);
    }
    merged := AppendRest(alreadyHeld, key, incoming, merged, fragment, Concat(emitted), pending);
  }

  /** Merge into a sequence-like table, which may hold equal records. */
  method Supersede<T(!new), K(==, !new)>(
    base: seq<T>, fragment: seq<T>, purged: T -> bool, key: T -> K) returns (merged: seq<T>)
    ensures merged == Merged(purged, key, base, fragment)
  {
    var never := (table: seq<T>, r: T) => false;
    merged := Merge(base, fragment, purged, key, never);
    ghost var fkeys := Keys(key, fragment);
    ghost var plan := PlanOf(fkeys, SlotKeys(purged, key, base, fkeys));
    KeysDistinct(key, fragment);
    PlanFits(purged, key, base, fkeys);
    AppendUnlessNever(never, Walk(purged, key, base, fragment, fkeys, plan.emitted), Only(key, fragment, plan.pending));
  }

  /** Merge into a set-like table, one re-supplied in full on every install. */
  method SupersedeSet<T(==, !new), K(==, !new)>(
    base: seq<T>, fragment: seq<T>, purged: T -> bool, key: T -> K) returns (merged: seq<T>)
    ensures merged == MergedSet(purged, key, base, fragment)
  {
    var held := (table: seq<T>, r: T) => r in table;
    merged := Merge(base, fragment, purged, key, held);
    ghost var fkeys := Keys(key, fragment);
    ghost var plan := PlanOf(fkeys, SlotKeys(purged, key, base, fkeys));
    KeysDistinct(key, fragment);
    PlanFits(purged, key, base, fkeys);
    AppendUnlessAgree(held, (table: seq<T>, r: T) => r in table,
                      Walk(purged, key, base, fragment, fkeys, plan.emitted), Only(key, fragment, plan.pending));
  }

  lemma {:induction false} AppendUnlessAgree<T(!new)>(
    held: (seq<T>, T) -> bool, held': (seq<T>, T) -> bool, table: seq<T>, rest: seq<T>)
    requires forall t, r :: held(t, r) == held'(t, r)
    ensures AppendUnless(held, table, rest) == AppendUnless(held', table, rest)
  {
    if rest != [] { AppendUnlessAgree(held, held', table, rest[..|rest| - 1]); }
  }
}
