/** The keyed, ordered splice behind `ReflectionInfo::accumulate`: a fragment's records replace the
    records they supersede, where those records stood, and everything else is appended. */
module KeyedMerge {

  // ----- Vocabulary: the distinct keys of a table, and a table seen through its keys -----

  ghost predicate Distinct<A>(xs: seq<A>) {
    forall i, j :: 0 <= i < j < |xs| ==> xs[i] != xs[j]
  }

  /** The distinct keys of `s`, in order of first appearance. */
  function Keys<T(!new), K(==, !new)>(key: T -> K, s: seq<T>): seq<K> {
    if s == [] then []
    else
      var ks := Keys(key, s[..|s| - 1]);
      var k := key(s[|s| - 1]);
      if k in ks then ks else ks + [k]
  }

  /** The records of `s` filed under `k`, in order. */
  function Group<T(!new), K(==, !new)>(key: T -> K, s: seq<T>, k: K): seq<T> {
    if s == [] then []
    else Group(key, s[..|s| - 1], k) + if key(s[|s| - 1]) == k then [s[|s| - 1]] else []
  }

  /** The groups named by `ks`, one after another. */
  function FlatGroups<T(!new), K(==, !new)>(key: T -> K, s: seq<T>, ks: seq<K>): seq<T> {
    if ks == [] then []
    else FlatGroups(key, s, ks[..|ks| - 1]) + Group(key, s, ks[|ks| - 1])
  }

  /** The records of `s` whose key is in `ks`. */
  function Only<T(!new), K(==, !new)>(key: T -> K, s: seq<T>, ks: seq<K>): seq<T> {
    if s == [] then []
    else Only(key, s[..|s| - 1], ks) + if key(s[|s| - 1]) in ks then [s[|s| - 1]] else []
  }

  /** The records of `s` whose key is not in `ks`. */
  function Without<T(!new), K(==, !new)>(key: T -> K, s: seq<T>, ks: seq<K>): seq<T> {
    if s == [] then []
    else Without(key, s[..|s| - 1], ks) + if key(s[|s| - 1]) in ks then [] else [s[|s| - 1]]
  }

  /** For each record of `s` with a key in `ks`: how many records of other keys stand before it. */
  function Offsets<T(!new), K(==, !new)>(key: T -> K, s: seq<T>, ks: seq<K>): seq<nat> {
    if s == [] then []
    else
      var init := s[..|s| - 1];
      Offsets(key, init, ks) + if key(s[|s| - 1]) in ks then [|Without(key, init, ks)|] else []
  }

  /** Every key's records stand together. */
  ghost predicate Contiguous<T(!new), K(!new)>(key: T -> K, s: seq<T>) {
    forall i, j, k :: 0 <= i < j < k < |s| && key(s[i]) == key(s[k]) ==> key(s[j]) == key(s[i])
  }

  /** The records of `base` that no incoming record supersedes. */
  function Kept<T>(purged: T -> bool, base: seq<T>): seq<T> {
    if base == [] then []
    else Kept(purged, base[..|base| - 1]) + if purged(base[|base| - 1]) then [] else [base[|base| - 1]]
  }

  /** `s` is an interleaving of `a` and `b`, each in its own order. */
  ghost predicate Shuffle<T>(s: seq<T>, a: seq<T>, b: seq<T>) {
    if s == [] then a == [] && b == []
    else
      || (a != [] && a[|a| - 1] == s[|s| - 1] && Shuffle(s[..|s| - 1], a[..|a| - 1], b))
      || (b != [] && b[|b| - 1] == s[|s| - 1] && Shuffle(s[..|s| - 1], a, b[..|b| - 1]))
  }

  // ----- The merge, as a value -----

  /** The slots a fragment with keys `fkeys` finds in `base`: the superseded keys it re-supplies. */
  function SlotKeys<T(!new), K(==, !new)>(purged: T -> bool, key: T -> K, base: seq<T>, fkeys: seq<K>): seq<K> {
    if base == [] then []
    else
      var init := base[..|base| - 1];
      var slots := SlotKeys(purged, key, init, fkeys);
      var b := base[|base| - 1];
      if purged(b) && key(b) in fkeys && key(b) !in slots then slots + [key(b)] else slots
  }

  /** What each slot emits, and the keys left waiting after the last slot. */
  datatype Plan<K> = Plan(emitted: seq<seq<K>>, pending: seq<K>)

  /** Hand the slots out along the fragment's keys: the i-th re-supplied key fills the i-th slot,
      preceded by the new keys declared just before it. */
  function PlanOf<K(==, !new)>(fkeys: seq<K>, slots: seq<K>): Plan<K> {
    if fkeys == [] then Plan([], [])
    else
      var p := PlanOf(fkeys[..|fkeys| - 1], slots);
      var k := fkeys[|fkeys| - 1];
      if k in slots then Plan(p.emitted + [p.pending + [k]], []) else Plan(p.emitted, p.pending + [k])
  }

  function Concat<A>(xs: seq<seq<A>>): seq<A> {
    if xs == [] then [] else Concat(xs[..|xs| - 1]) + xs[|xs| - 1]
  }

  /** The base walked front to back: kept records stay, each slot emits its keys' groups. */
  function Walk<T(!new), K(==, !new)>(
    purged: T -> bool, key: T -> K, base: seq<T>, fragment: seq<T>, fkeys: seq<K>, emitted: seq<seq<K>>): seq<T>
    requires |SlotKeys(purged, key, base, fkeys)| <= |emitted|
  {
    if base == [] then []
    else
      var init, b := base[..|base| - 1], base[|base| - 1];
      var slots := SlotKeys(purged, key, init, fkeys);
      Walk(purged, key, init, fragment, fkeys, emitted) +
      if !purged(b) then [b]
      else if key(b) in fkeys && key(b) !in slots then FlatGroups(key, fragment, emitted[|slots|])
      else []
  }

  /** The merged table when every record left over is appended. */
  function Merged<T(!new), K(==, !new)>(purged: T -> bool, key: T -> K, base: seq<T>, fragment: seq<T>): seq<T> {
    var fkeys := Keys(key, fragment);
    var plan := PlanOf(fkeys, SlotKeys(purged, key, base, fkeys));
    KeysDistinct(key, fragment);
    PlanFits(purged, key, base, fkeys);
    Walk(purged, key, base, fragment, fkeys, plan.emitted) + Only(key, fragment, plan.pending)
  }

  /** Append the records of `rest`, leaving out each one `held` recognises in the table by then. */
  function AppendUnless<T>(held: (seq<T>, T) -> bool, table: seq<T>, rest: seq<T>): seq<T> {
    if rest == [] then table
    else
      var t := AppendUnless(held, table, rest[..|rest| - 1]);
      if held(t, rest[|rest| - 1]) then t else t + [rest[|rest| - 1]]
  }

  /** The merged table under a rule for recognising records already held. */
  function MergedUnless<T(!new), K(==, !new)>(
    held: (seq<T>, T) -> bool, purged: T -> bool, key: T -> K, base: seq<T>, fragment: seq<T>): seq<T> {
    var fkeys := Keys(key, fragment);
    var plan := PlanOf(fkeys, SlotKeys(purged, key, base, fkeys));
    KeysDistinct(key, fragment);
    PlanFits(purged, key, base, fkeys);
    AppendUnless(held, Walk(purged, key, base, fragment, fkeys, plan.emitted), Only(key, fragment, plan.pending))
  }

  /** The merged table of a set-like table: a left-over record already held is dropped. */
  function MergedSet<T(==, !new), K(==, !new)>(purged: T -> bool, key: T -> K, base: seq<T>, fragment: seq<T>): seq<T> {
    MergedUnless((table: seq<T>, r: T) => r in table, purged, key, base, fragment)
  }

  lemma {:induction false} KeysDistinct<T(!new), K(!new)>(key: T -> K, s: seq<T>)
    ensures Distinct(Keys(key, s))
  {
    if s != [] { KeysDistinct(key, s[..|s| - 1]); }
  }

  lemma {:induction false} SlotKeysDistinct<T(!new), K(!new)>(
    purged: T -> bool, key: T -> K, base: seq<T>, fkeys: seq<K>)
    ensures Distinct(SlotKeys(purged, key, base, fkeys))
    ensures forall k :: k in SlotKeys(purged, key, base, fkeys) ==> k in fkeys
  {
    if base != [] { SlotKeysDistinct(purged, key, base[..|base| - 1], fkeys); }
  }

  // ----- The plan: one emitted block per slot, blocks tile the fragment's keys -----

  /** How many keys of `ks` are slots. */
  function Hits<K(==, !new)>(ks: seq<K>, slots: seq<K>): nat {
    if ks == [] then 0 else Hits(ks[..|ks| - 1], slots) + if ks[|ks| - 1] in slots then 1 else 0
  }

  lemma {:induction false} HitsOfDistinct<K(!new)>(ks: seq<K>, slots: seq<K>)
    requires Distinct(ks)
    requires Distinct(slots)
    requires forall k :: k in slots ==> k in ks
    ensures Hits(ks, slots) == |slots|
  {
    if ks == [] {
      SomeMember(slots);
    } else {
      var init, k := ks[..|ks| - 1], ks[|ks| - 1];
      if k in slots {
        var i :| 0 <= i < |slots| && slots[i] == k;
        var rest := slots[..i] + slots[i + 1..];
        assert forall x :: x in rest ==> x in slots && x != k;
        assert forall x :: x in slots && x != k ==> x in rest;
        HitsOfDistinct(init, rest);
        HitsAgree(init, slots, rest);
      } else {
        HitsOfDistinct(init, slots);
      }
    }
  }

  lemma SomeMember<K(!new)>(xs: seq<K>)
    ensures xs == [] || exists x :: x in xs
  {
    if xs != [] { assert xs[0] in xs; }
  }

  lemma {:induction false} HitsAgree<K(!new)>(ks: seq<K>, a: seq<K>, b: seq<K>)
    requires forall k :: k in ks ==> (k in a <==> k in b)
    ensures Hits(ks, a) == Hits(ks, b)
  {
    if ks != [] {
      assert ks[|ks| - 1] in ks;
      HitsAgree(ks[..|ks| - 1], a, b);
    }
  }

  lemma {:induction false} PlanShape<K(!new)>(fkeys: seq<K>, slots: seq<K>)
    ensures var p := PlanOf(fkeys, slots);
            |p.emitted| == Hits(fkeys, slots) && Concat(p.emitted) + p.pending == fkeys
  {
    if fkeys != [] {
      var init, k := fkeys[..|fkeys| - 1], fkeys[|fkeys| - 1];
      var q := PlanOf(init, slots);
      var p := PlanOf(fkeys, slots);
      PlanShape(init, slots);
      if k in slots {
        assert p.emitted[..|p.emitted| - 1] == q.emitted;
        assert Concat(p.emitted) == Concat(q.emitted) + (q.pending + [k]);
      }
      assert fkeys == init + [k];
    }
  }

  /** `emitted` has exactly one block per slot of the base, so the walk's slot counter stays in
      range and ends at the slot count. */
  lemma PlanFits<T(!new), K(!new)>(purged: T -> bool, key: T -> K, base: seq<T>, fkeys: seq<K>)
    requires Distinct(fkeys)
    ensures var slots := SlotKeys(purged, key, base, fkeys);
            |PlanOf(fkeys, slots).emitted| == |slots|
  {
    var slots := SlotKeys(purged, key, base, fkeys);
    SlotKeysDistinct(purged, key, base, fkeys);
    PlanShape(fkeys, slots);
    HitsOfDistinct(fkeys, slots);
  }
}
