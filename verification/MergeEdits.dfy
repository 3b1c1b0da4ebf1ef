/** Where a new declaration lands: three ways to supply it, and when each is where a cold compile has it. */
module MergeEdits {
  import opened KeyedMerge
  import opened MergeTables
  import opened MergeConservation
  import opened MergeCold
  import opened MergeInPlace
  import opened MergeHeld

  /** None of the keys is superseded in the base. */
  ghost predicate NewKeys<T(!new), K(!new)>(purged: T -> bool, key: T -> K, base: seq<T>, ks: seq<K>) {
    forall k :: k in ks ==> !Superseded(purged, key, base, k)
  }

  /** The first record of `k` that the fragment supersedes is `b`, between `front` and `back`. */
  ghost predicate FirstOf<T(!new), K(!new)>(purged: T -> bool, key: T -> K, front: seq<T>, b: T, k: K) {
    purged(b) && key(b) == k && !Superseded(purged, key, front, k)
  }

  lemma {:induction false} NoNewSlots<T(!new), K(!new)>(
    purged: T -> bool, key: T -> K, base: seq<T>, fkeys: seq<K>)
    requires NewKeys(purged, key, base, fkeys)
    ensures SlotKeys(purged, key, base, fkeys) == []
  {
    forall k ensures k !in SlotKeys(purged, key, base, fkeys) { SlotMembers(purged, key, base, fkeys, k); }
    if SlotKeys(purged, key, base, fkeys) != [] {
      assert SlotKeys(purged, key, base, fkeys)[0] in SlotKeys(purged, key, base, fkeys);
    }
  }

  /** Past records that open no slot, the walk keeps what survives. */
  lemma {:induction false} QuietWalk<T(!new), K(!new)>(
    purged: T -> bool, key: T -> K, front: seq<T>, back: seq<T>, s: seq<T>, fkeys: seq<K>, emitted: seq<seq<K>>)
    requires |SlotKeys(purged, key, front, fkeys)| <= |emitted|
    requires forall b :: b in back && purged(b) && key(b) in fkeys ==> key(b) in SlotKeys(purged, key, front, fkeys)
    ensures SlotKeys(purged, key, front + back, fkeys) == SlotKeys(purged, key, front, fkeys)
    ensures Walk(purged, key, front + back, s, fkeys, emitted) ==
              Walk(purged, key, front, s, fkeys, emitted) + Kept(purged, back)
  {
    if back == [] {
      assert front + back == front;
      assert Walk(purged, key, front, s, fkeys, emitted) + [] == Walk(purged, key, front, s, fkeys, emitted);
    } else {
      var init, b := back[..|back| - 1], back[|back| - 1];
      assert b in back && (front + back)[..|front + back| - 1] == front + init;
      QuietWalk(purged, key, front, init, s, fkeys, emitted);
      var w, k := Walk(purged, key, front, s, fkeys, emitted), Kept(purged, init);
      assert (w + k) + [b] == w + (k + [b]);
      assert (w + k) + [] == w + k && k + [] == k;
    }
  }

  /** **Supplied alone, new declarations land last**, wherever the source has them: nothing is superseded, so
      there is no slot to stand ahead of. */
  lemma AloneLandsLast<T(!new), K(!new)>(purged: T -> bool, key: T -> K, base: seq<T>, fragment: seq<T>)
    requires NewKeys(purged, key, base, Keys(key, fragment))
    ensures Merged(purged, key, base, fragment) == Kept(purged, base) + fragment
  {
    var fkeys := Keys(key, fragment);
    NoNewSlots(purged, key, base, fkeys);
    NoSlots(fkeys);
    NoNewSlotsAnywhere(purged, key, base, fkeys);
    QuietWalk(purged, key, [], base, fragment, fkeys, []);
    assert [] + base == base && [] + Kept(purged, base) == Kept(purged, base);
    OnlyAll(key, fragment, fragment);
  }

  lemma NoNewSlotsAnywhere<T(!new), K(!new)>(purged: T -> bool, key: T -> K, base: seq<T>, fkeys: seq<K>)
    requires NewKeys(purged, key, base, fkeys)
    ensures forall b :: b in base && purged(b) ==> key(b) !in fkeys
  {
    forall b | b in base && purged(b) ensures key(b) !in fkeys {
      var i :| 0 <= i < |base| && base[i] == b;
      assert purged(base[i]) && key(base[i]) == key(b);
    }
  }

  /** **Supplied with what follows it**, a new declaration lands right before that: `g` new, `h` the records of a
      key `k` the fragment supersedes. */
  lemma LandsBeforeNext<T(!new), K(!new)>(
    purged: T -> bool, key: T -> K, front: seq<T>, b: T, back: seq<T>, g: seq<T>, h: seq<T>, k: K)
    requires FirstOf(purged, key, front, b, k) && NewKeys(purged, key, front + [b] + back, Keys(key, g))
    requires Contiguous(key, g) && h != [] && (forall r :: r in h ==> key(r) == k)
    ensures Merged(purged, key, front + [b] + back, g + h) == Kept(purged, front) + g + h + Kept(purged, back)
  {
    var base, f, ks := front + [b] + back, g + h, Keys(key, g);
    KeyIsNew(purged, key, front, b, back, ks, k);
    KeysOfBoth(key, g, h, k);
    SlotsOfOne(purged, key, front, b, back, ks, k, ks + [k]);
    OnePlan(ks, k);
    WalkOneSlot(purged, key, front, b, back, f, ks + [k], ks + [k], k);
    GroupsOfBoth(key, g, h, k);
    OnlyNone(key, f);
    Assoc(Kept(purged, front), g, h, Kept(purged, back));
  }

  /** New keys ahead of the re-supplied one share its slot. */
  lemma OnePlan<K(!new)>(ks: seq<K>, k: K)
    requires k !in ks
    ensures PlanOf(ks + [k], [k]) == Plan([ks + [k]], [])
  {
    NoSlotsIn(ks, [k]);
    assert (ks + [k])[..|ks|] == ks;
    assert [] + [ks + [k]] == [ks + [k]];
  }

  /** The walk over a base with one slot: what survives before it, its groups, what survives after it. */
  lemma WalkOneSlot<T(!new), K(!new)>(
    purged: T -> bool, key: T -> K, front: seq<T>, b: T, back: seq<T>, f: seq<T>, fkeys: seq<K>, emits: seq<K>, k: K)
    requires purged(b) && key(b) == k && k in fkeys
    requires SlotKeys(purged, key, front, fkeys) == [] && SlotKeys(purged, key, front + [b], fkeys) == [k]
    requires SlotKeys(purged, key, front + [b] + back, fkeys) == [k]
    requires forall r :: r in front && purged(r) ==> key(r) !in fkeys
    requires forall r :: r in back && purged(r) && key(r) in fkeys ==> key(r) == k
    ensures Walk(purged, key, front + [b] + back, f, fkeys, [emits]) ==
              Kept(purged, front) + FlatGroups(key, f, emits) + Kept(purged, back)
  {
    QuietWalk(purged, key, [], front, f, fkeys, [emits]);
    assert [] + front == front && [] + Kept(purged, front) == Kept(purged, front);
    WalkOpens(purged, key, front, b, f, fkeys, emits);
    QuietWalk(purged, key, front + [b], back, f, fkeys, [emits]);
  }

  lemma WalkOpens<T(!new), K(!new)>(
    purged: T -> bool, key: T -> K, front: seq<T>, b: T, f: seq<T>, fkeys: seq<K>, emits: seq<K>)
    requires purged(b) && key(b) in fkeys && SlotKeys(purged, key, front, fkeys) == []
    requires |SlotKeys(purged, key, front + [b], fkeys)| <= 1
    ensures Walk(purged, key, front + [b], f, fkeys, [emits]) ==
              Walk(purged, key, front, f, fkeys, [emits]) + FlatGroups(key, f, emits)
  {
    assert (front + [b])[..|front|] == front;
  }

  lemma Assoc<A>(a: seq<A>, b: seq<A>, c: seq<A>, d: seq<A>)
    ensures (a + (b + c)) + d == a + b + c + d
    ensures a + b + c + d + [] == a + b + c + d
  {
  }

  lemma KeyIsNew<T(!new), K(!new)>(purged: T -> bool, key: T -> K, front: seq<T>, b: T, back: seq<T>, ks: seq<K>, k: K)
    requires FirstOf(purged, key, front, b, k) && NewKeys(purged, key, front + [b] + back, ks)
    ensures k !in ks
  {
    var base := front + [b] + back;
    assert base[|front|] == b;
    assert Superseded(purged, key, base, k);
  }

  /** The fragment's keys: the new ones, then the one re-supplied. */
  lemma {:induction false} KeysOfBoth<T(!new), K(!new)>(key: T -> K, g: seq<T>, h: seq<T>, k: K)
    requires k !in Keys(key, g) && h != [] && forall r :: r in h ==> key(r) == k
    ensures Keys(key, g + h) == Keys(key, g) + [k]
  {
    KeysAppend(key, g, h);
    KeysOfUniform(key, h, k);
    MinusDisjoint([k], Keys(key, g));
  }

  lemma GroupsOfBoth<T(!new), K(!new)>(key: T -> K, g: seq<T>, h: seq<T>, k: K)
    requires Contiguous(key, g) && k !in Keys(key, g) && forall r :: r in h ==> key(r) == k
    ensures FlatGroups(key, g + h, Keys(key, g) + [k]) == g + h
  {
    var ks := Keys(key, g);
    forall j | j in ks ensures Group(key, g + h, j) == Group(key, g, j) {
      GroupAppend(key, g, h, j);
      GroupOfUniform(key, h, k, j);
      assert Group(key, g, j) + [] == Group(key, g, j);
    }
    FlatGroupsAgree(key, g + h, g, ks);
    ContiguousIsFlat(key, g);
    GroupOfLast(key, g, h, k);
    assert (ks + [k])[..|ks|] == ks;
  }

  lemma GroupOfLast<T(!new), K(!new)>(key: T -> K, g: seq<T>, h: seq<T>, k: K)
    requires k !in Keys(key, g) && forall r :: r in h ==> key(r) == k
    ensures Group(key, g + h, k) == h && Group(key, h + g, k) == h
  {
    forall i | 0 <= i < |g| ensures key(g[i]) != k { KeyOfMember(key, g, g[i]); }
    NoGroup(key, g, k);
    GroupOfUniform(key, h, k, k);
    GroupAppend(key, g, h, k);
    GroupAppend(key, h, g, k);
    assert [] + h == h && h + [] == h;
  }

  /** Only the re-supplied key has a slot, and it opens at `b`. */
  lemma SlotsOfOne<T(!new), K(!new)>(
    purged: T -> bool, key: T -> K, front: seq<T>, b: T, back: seq<T>, ks: seq<K>, k: K, fkeys: seq<K>)
    requires FirstOf(purged, key, front, b, k) && NewKeys(purged, key, front + [b] + back, ks)
    requires forall j :: j in fkeys <==> j in ks || j == k
    ensures SlotKeys(purged, key, front, fkeys) == [] && SlotKeys(purged, key, front + [b], fkeys) == [k]
    ensures SlotKeys(purged, key, front + [b] + back, fkeys) == [k]
    ensures forall r :: r in front && purged(r) ==> key(r) !in fkeys
    ensures forall r :: r in back && purged(r) && key(r) in fkeys ==> key(r) == k
  {
    var base := front + [b] + back;
    NoNewSlotsAnywhere(purged, key, base, ks);
    forall j | j in fkeys ensures !Superseded(purged, key, front, j) {
      if j != k {
        assert front + ([b] + back) == base;
        PartNotSuperseded(purged, key, front, [b] + back, j);
      }
    }
    NoNewSlotsAnywhere(purged, key, front, fkeys);
    forall r | r in back && purged(r) && key(r) in fkeys ensures key(r) == k { assert r in base; }
    NoNewSlots(purged, key, front, fkeys);
    assert (front + [b])[..|front|] == front;
    SlotsStay(purged, key, front + [b], back, fkeys, k);
  }

  lemma PartNotSuperseded<T(!new), K(!new)>(purged: T -> bool, key: T -> K, front: seq<T>, rest: seq<T>, j: K)
    requires !Superseded(purged, key, front + rest, j)
    ensures !Superseded(purged, key, front, j)
  {
    assert forall i :: 0 <= i < |front| ==> (front + rest)[i] == front[i];
  }

  lemma {:induction false} SlotsStay<T(!new), K(!new)>(
    purged: T -> bool, key: T -> K, front: seq<T>, back: seq<T>, fkeys: seq<K>, k: K)
    requires SlotKeys(purged, key, front, fkeys) == [k]
    requires forall r :: r in back && purged(r) && key(r) in fkeys ==> key(r) == k
    ensures SlotKeys(purged, key, front + back, fkeys) == [k]
  {
    if back == [] {
      assert front + back == front;
    } else {
      assert back[|back| - 1] in back && (front + back)[..|front + back| - 1] == front + back[..|back| - 1];
      SlotsStay(purged, key, front, back[..|back| - 1], fkeys, k);
    }
  }

  lemma {:induction false} NoSlotsIn<K(!new)>(ks: seq<K>, slots: seq<K>)
    requires forall k :: k in ks ==> k !in slots
    ensures PlanOf(ks, slots) == Plan([], ks)
  {
    if ks != [] {
      assert ks[|ks| - 1] in ks;
      NoSlotsIn(ks[..|ks| - 1], slots);
      assert ks == ks[..|ks| - 1] + [ks[|ks| - 1]];
    }
  }

  /** **Supplied with what precedes it**, a new declaration still lands last. */
  lemma AfterLandsLast<T(!new), K(!new)>(
    purged: T -> bool, key: T -> K, front: seq<T>, b: T, back: seq<T>, g: seq<T>, h: seq<T>, k: K)
    requires FirstOf(purged, key, front, b, k) && NewKeys(purged, key, front + [b] + back, Keys(key, g))
    requires h != [] && forall r :: r in h ==> key(r) == k
    ensures Merged(purged, key, front + [b] + back, h + g) == Kept(purged, front) + h + Kept(purged, back) + g
  {
    var base, f, ks := front + [b] + back, h + g, Keys(key, g);
    KeyIsNew(purged, key, front, b, back, ks, k);
    KeysAppend(key, h, g);
    KeysOfUniform(key, h, k);
    MinusDisjoint(ks, [k]);
    SlotsOfOne(purged, key, front, b, back, ks, k, [k] + ks);
    SlotThenNew(ks, k);
    WalkOneSlot(purged, key, front, b, back, f, [k] + ks, [k], k);
    GroupOfLast(key, g, h, k);
    FlatGroupsOne(key, f, k);
    OnlyTail(key, h, g, ks);
  }

  /** New keys after the re-supplied one wait for a slot that does not come. */
  lemma SlotThenNew<K(!new)>(ks: seq<K>, k: K)
    requires k !in ks
    ensures PlanOf([k] + ks, [k]) == Plan([[k]], ks)
  {
    PlanTail([k], ks, [k]);
    assert [k][..0] == [] && [] + [k] == [k] && [] + [[k]] == [[k]] && [] + ks == ks;
    assert PlanOf([k], [k]) == Plan([] + [[] + [k]], []);
  }

  lemma OnlyTail<T(!new), K(!new)>(key: T -> K, h: seq<T>, g: seq<T>, ks: seq<K>)
    requires ks == Keys(key, g) && forall r :: r in h ==> key(r) !in ks
    ensures Only(key, h + g, ks) == g
  {
    OnlyAppend(key, h, g, ks);
    OnlyMissing(key, h, ks);
    OnlyAll(key, g, g);
    assert [] + g == g;
  }

  lemma {:induction false} OnlyMissing<T(!new), K(!new)>(key: T -> K, h: seq<T>, ks: seq<K>)
    requires forall r :: r in h ==> key(r) !in ks
    ensures Only(key, h, ks) == []
  {
    if h != [] {
      assert h[|h| - 1] in h;
      OnlyMissing(key, h[..|h| - 1], ks);
    }
  }

  // ----- Against a cold compile -----

  /** Where the records of `g`, none of them in `s`, stand in a table settles the table. */
  lemma PlaceSettles<T(!new)>(a: seq<T>, b: seq<T>, c: seq<T>, d: seq<T>, g: seq<T>)
    requires g != [] && a + b == c + d && forall r :: r in g ==> r !in a + b
    ensures a + g + b == c + g + d <==> |a| == |c|
  {
    if |a| == |c| {
      assert a == (a + b)[..|a|] == (c + d)[..|a|] == c;
      assert b == (a + b)[|a|..] == (c + d)[|a|..] == d;
    } else if |a| < |c| {
      assert (a + g + b)[|a|] == g[0] && (c + g + d)[|a|] == c[|a|] == (c + d)[|a|];
      assert g[0] in g && (a + b)[|a|] in a + b;
    } else {
      assert (c + g + d)[|c|] == g[0] && (a + g + b)[|c|] == a[|c|] == (a + b)[|c|];
      assert g[0] in g && (a + b)[|c|] in a + b;
    }
  }

  /** **Supplied alone it is where a cold compile has it** exactly when nothing follows it there. */
  lemma AloneIsCold<T(!new), K(!new)>(
    purged: T -> bool, key: T -> K, base: seq<T>, g: seq<T>, before: seq<T>, after: seq<T>)
    requires g != [] && NewKeys(purged, key, base, Keys(key, g))
    requires Kept(purged, base) == before + after && forall r :: r in g ==> r !in Kept(purged, base)
    ensures Merged(purged, key, base, g) == before + g + after <==> after == []
  {
    AloneLandsLast(purged, key, base, g);
    var kept := Kept(purged, base);
    assert kept + [] == kept && kept + g + [] == kept + g;
    PlaceSettles(kept, [], before, after, g);
  }

  /** **Supplied with what follows it, it is where a cold compile has it** exactly when the cold one has it
      right before that. */
  lemma BeforeNextIsCold<T(!new), K(!new)>(
    purged: T -> bool, key: T -> K, front: seq<T>, b: T, back: seq<T>, g: seq<T>, h: seq<T>, k: K,
    before: seq<T>, after: seq<T>)
    requires FirstOf(purged, key, front, b, k) && NewKeys(purged, key, front + [b] + back, Keys(key, g))
    requires Contiguous(key, g) && g != [] && h != [] && (forall r :: r in h ==> key(r) == k)
    requires Kept(purged, front) + (h + Kept(purged, back)) == before + after
    requires forall r :: r in g ==> r !in before + after
    ensures Merged(purged, key, front + [b] + back, g + h) == before + g + after <==> |before| == |Kept(purged, front)|
  {
    LandsBeforeNext(purged, key, front, b, back, g, h, k);
    PlaceAmong(Kept(purged, front), h, Kept(purged, back), before, after, g);
  }

  lemma PlaceAmong<T(!new)>(x: seq<T>, h: seq<T>, z: seq<T>, before: seq<T>, after: seq<T>, g: seq<T>)
    requires g != [] && x + (h + z) == before + after && forall r :: r in g ==> r !in before + after
    ensures x + g + h + z == before + g + after <==> |before| == |x|
  {
    assert x + g + h + z == x + g + (h + z);
    PlaceSettles(x, h + z, before, after, g);
  }
}
