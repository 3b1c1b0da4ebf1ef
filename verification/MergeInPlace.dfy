/** Groups replaced where they stand, and the same fragment merged twice. */
module MergeInPlace {
  import opened KeyedMerge
  import opened MergeTables
  import opened MergeConservation
  import opened MergeCold

  // ----- Replacing in place -----

  /** Some superseded record of `base` is filed under `k`. */
  predicate Superseded<T(!new), K(==, !new)>(purged: T -> bool, key: T -> K, base: seq<T>, k: K) {
    exists i | 0 <= i < |base| :: purged(base[i]) && key(base[i]) == k
  }

  /** Each superseded group replaced where its first record stood; nothing else moves. */
  function Replaced<T(!new), K(==, !new)>(purged: T -> bool, key: T -> K, base: seq<T>, fragment: seq<T>): seq<T> {
    if base == [] then []
    else
      var init, b := base[..|base| - 1], base[|base| - 1];
      Replaced(purged, key, init, fragment) +
      if !purged(b) then [b]
      else if Superseded(purged, key, init, key(b)) then []
      else Group(key, fragment, key(b))
  }

  lemma {:induction false} SlotMembers<T(!new), K(!new)>(
    purged: T -> bool, key: T -> K, base: seq<T>, fkeys: seq<K>, k: K)
    ensures k in SlotKeys(purged, key, base, fkeys) <==> k in fkeys && Superseded(purged, key, base, k)
  {
    if base != [] {
      var init, b := base[..|base| - 1], base[|base| - 1];
      SlotMembers(purged, key, init, fkeys, k);
      SlotMembers(purged, key, init, fkeys, key(b));
      if Superseded(purged, key, init, k) {
        var i :| 0 <= i < |init| && purged(init[i]) && key(init[i]) == k;
        assert base[i] == init[i];
      }
      if Superseded(purged, key, base, k) && !Superseded(purged, key, init, k) {
        var i :| 0 <= i < |base| && purged(base[i]) && key(base[i]) == k;
        assert i < |init| ==> base[i] == init[i];
      }
      if purged(b) && key(b) == k { assert Superseded(purged, key, base, k) by { assert base[|base| - 1] == b; } }
    }
  }

  function Singles<K>(ks: seq<K>): seq<seq<K>> {
    if ks == [] then [] else Singles(ks[..|ks| - 1]) + [[ks[|ks| - 1]]]
  }

  lemma {:induction false} SinglesAt<K(!new)>(ks: seq<K>)
    ensures |Singles(ks)| == |ks| && forall i :: 0 <= i < |ks| ==> Singles(ks)[i] == [ks[i]]
  {
    if ks != [] { SinglesAt(ks[..|ks| - 1]); }
  }

  lemma {:induction false} PlanOfAllSlots<K(!new)>(ks: seq<K>, slots: seq<K>)
    requires forall k :: k in ks ==> k in slots
    ensures PlanOf(ks, slots) == Plan(Singles(ks), [])
  {
    if ks != [] {
      var k := ks[|ks| - 1];
      assert k in ks && [] + [k] == [k];
      PlanOfAllSlots(ks[..|ks| - 1], slots);
    }
  }

  lemma {:induction false} WalkReplaces<T(!new), K(!new)>(
    purged: T -> bool, key: T -> K, base: seq<T>, fragment: seq<T>, fkeys: seq<K>)
    requires fkeys == Keys(key, fragment) && SlotKeys(purged, key, base, fkeys) <= fkeys
    requires |SlotKeys(purged, key, base, fkeys)| <= |Singles(fkeys)|
    ensures Walk(purged, key, base, fragment, fkeys, Singles(fkeys)) == Replaced(purged, key, base, fragment)
  {
    if base != [] {
      var init, b := base[..|base| - 1], base[|base| - 1];
      var slots := SlotKeys(purged, key, init, fkeys);
      SinglesAt(fkeys);
      assert slots <= SlotKeys(purged, key, base, fkeys);
      WalkReplaces(purged, key, init, fragment, fkeys);
      SlotMembers(purged, key, init, fkeys, key(b));
      GroupKeys(key, fragment, key(b));
      if purged(b) && key(b) in fkeys && key(b) !in slots {
        assert SlotKeys(purged, key, base, fkeys)[|slots|] == key(b) == fkeys[|slots|];
        FlatGroupsOne(key, fragment, key(b));
      }
    }
  }

  lemma FlatGroupsOne<T(!new), K(!new)>(key: T -> K, s: seq<T>, k: K)
    ensures FlatGroups(key, s, [k]) == Group(key, s, k)
  {
    assert [k][..0] == [];
    assert FlatGroups(key, s, []) + Group(key, s, k) == Group(key, s, k);
  }

  /** **A body edit moves nothing.** When the base holds the fragment's keys in the fragment's order,
      every superseded group is replaced where it stood. */
  lemma InPlace<T(!new), K(!new)>(purged: T -> bool, key: T -> K, base: seq<T>, fragment: seq<T>)
    requires SlotKeys(purged, key, base, Keys(key, fragment)) == Keys(key, fragment)
    ensures Merged(purged, key, base, fragment) == Replaced(purged, key, base, fragment)
  {
    var fkeys := Keys(key, fragment);
    PlanOfAllSlots(fkeys, fkeys);
    SinglesAt(fkeys);
    WalkReplaces(purged, key, base, fragment, fkeys);
    OnlyNone(key, fragment);
  }

  lemma {:induction false} OnlyNone<T(!new), K(!new)>(key: T -> K, s: seq<T>)
    ensures Only(key, s, []) == []
  {
    if s != [] { OnlyNone(key, s[..|s| - 1]); }
  }

  // ----- Merging the same fragment again -----

  /** When exactly the fragment's keys are superseded, the slots of a table are its own keys. */
  lemma {:induction false} SlotsAreKeys<T(!new), K(!new)>(purged: T -> bool, key: T -> K, s: seq<T>, fkeys: seq<K>)
    requires forall r :: r in s ==> (purged(r) <==> key(r) in fkeys)
    ensures SlotKeys(purged, key, s, fkeys) == Keys(key, Only(key, s, fkeys))
    ensures Kept(purged, s) == Without(key, s, fkeys)
  {
    if s != [] {
      var init, x := s[..|s| - 1], s[|s| - 1];
      assert x in s;
      SlotsAreKeys(purged, key, init, fkeys);
      if key(x) in fkeys {
        KeysSnoc(key, Only(key, init, fkeys), x);
      } else {
        assert Only(key, s, fkeys) == Only(key, init, fkeys);
      }
    }
  }

  /** What is left of the open group after `n` records of `m`, the open group being the one the last
      of those records belongs to. */
  function OpenTail<T(!new), K(==, !new)>(key: T -> K, m: seq<T>, n: nat, fkeys: seq<K>): seq<T>
    requires n <= |m|
  {
    if n == 0 || key(m[n - 1]) !in fkeys then []
    else
      var k := key(m[n - 1]);
      var shown := |Group(key, m[..n], k)|;
      if shown <= |Group(key, m, k)| then Group(key, m, k)[shown..] else []
  }

  /** What a table is replaced by, midway: the prefix, ahead by what is left of the open group. */
  ghost predicate ReplacedByItself<T(!new), K(!new)>(
    purged: T -> bool, key: T -> K, m: seq<T>, n: nat, fragment: seq<T>, fkeys: seq<K>)
    requires n <= |m|
  {
    Replaced(purged, key, m[..n], fragment) == m[..n] + OpenTail(key, m, n, fkeys)
  }

  /** A table whose groups stand together, and match the fragment's, is its own replacement. */
  lemma {:induction false} ReplacedIsSelf<T(!new), K(!new)>(
    purged: T -> bool, key: T -> K, m: seq<T>, n: nat, fragment: seq<T>, fkeys: seq<K>)
    requires n <= |m|
    requires forall r :: r in m ==> (purged(r) <==> key(r) in fkeys)
    requires Together(key, m, fkeys)
    requires forall k :: k in fkeys ==> Group(key, m, k) == Group(key, fragment, k)
    ensures ReplacedByItself(purged, key, m, n, fragment, fkeys)
  {
    if n > 0 {
      ReplacedIsSelf(purged, key, m, n - 1, fragment, fkeys);
      ReplacedStep(purged, key, m, n, fragment, fkeys);
      var before, tail := OpenTail(key, m, n - 1, fkeys), OpenTail(key, m, n, fkeys);
      ShowNextAt(purged, key, m, n, fragment, before, tail);
    } else {
      assert m[..0] == [];
    }
  }

  lemma ShowNextAt<T(!new), K(!new)>(
    purged: T -> bool, key: T -> K, m: seq<T>, n: nat, fragment: seq<T>, before: seq<T>, tail: seq<T>)
    requires 0 < n <= |m| && Replaced(purged, key, m[..n - 1], fragment) == m[..n - 1] + before
    requires !purged(m[n - 1]) ==> tail == [] && before == []
    requires purged(m[n - 1]) && Superseded(purged, key, m[..n - 1], key(m[n - 1])) ==> before == [m[n - 1]] + tail
    requires purged(m[n - 1]) && !Superseded(purged, key, m[..n - 1], key(m[n - 1])) ==>
               before == [] && Group(key, fragment, key(m[n - 1])) == [m[n - 1]] + tail
    ensures Replaced(purged, key, m[..n], fragment) == m[..n] + tail
  {
    ShowNext(purged, key, m[..n - 1], m[n - 1], fragment, before, tail);
    assert m[..n - 1] + [m[n - 1]] == m[..n];
  }

  lemma ShowNext<T(!new), K(!new)>(
    purged: T -> bool, key: T -> K, done: seq<T>, b: T, fragment: seq<T>, before: seq<T>, tail: seq<T>)
    requires Replaced(purged, key, done, fragment) == done + before
    requires !purged(b) ==> tail == [] && before == []
    requires purged(b) && Superseded(purged, key, done, key(b)) ==> before == [b] + tail
    requires purged(b) && !Superseded(purged, key, done, key(b)) ==>
               before == [] && Group(key, fragment, key(b)) == [b] + tail
    ensures Replaced(purged, key, done + [b], fragment) == (done + [b]) + tail
  {
    ReplacedSnoc(purged, key, done, b, fragment);
    NextShown(done, b, before, tail,
              if !purged(b) then [b]
              else if Superseded(purged, key, done, key(b)) then []
              else Group(key, fragment, key(b)));
  }

  /** Whichever way the next record is shown, the table is the prefix with it and the new open tail. */
  lemma NextShown<T>(done: seq<T>, b: T, before: seq<T>, tail: seq<T>, shown: seq<T>)
    requires || (shown == [b] && tail == [] && before == [])
             || (shown == [] && before == [b] + tail)
             || (shown == [b] + tail && before == [])
    ensures (done + before) + shown == (done + [b]) + tail
  {
  }

  lemma ReplacedStep<T(!new), K(!new)>(
    purged: T -> bool, key: T -> K, m: seq<T>, n: nat, fragment: seq<T>, fkeys: seq<K>)
    requires 0 < n <= |m| && Together(key, m, fkeys)
    requires forall r :: r in m ==> (purged(r) <==> key(r) in fkeys)
    requires forall k :: k in fkeys ==> Group(key, m, k) == Group(key, fragment, k)
    ensures var b := m[n - 1];
            var again := n > 1 && key(m[n - 2]) == key(b);
            var tail, before := OpenTail(key, m, n, fkeys), OpenTail(key, m, n - 1, fkeys);
            && (!purged(b) ==> tail == [] && before == [])
            && (purged(b) && again ==> Superseded(purged, key, m[..n - 1], key(b)) && before == [b] + tail)
            && (purged(b) && !again ==> !Superseded(purged, key, m[..n - 1], key(b)) && before == []
                                        && Group(key, fragment, key(b)) == [b] + tail)
  {
    var b := m[n - 1];
    assert b in m;
    if !purged(b) {
      TailClosed(key, m, n, fkeys);
    } else if n > 1 && key(m[n - 2]) == key(b) {
      SupersededAgain(purged, key, m, n);
      TailAgain(key, m, n, fkeys);
    } else {
      FreshGroup(key, m, n, fkeys);
      NotSuperseded(purged, key, m, n - 1, key(b));
      TailClosed(key, m, n, fkeys);
      TailFresh(key, m, n, fkeys);
    }
  }

  lemma SupersededAgain<T(!new), K(!new)>(purged: T -> bool, key: T -> K, m: seq<T>, n: nat)
    requires 1 < n <= |m| && key(m[n - 2]) == key(m[n - 1]) && forall r :: r in m && key(r) == key(m[n - 1]) ==>
      purged(r)
    ensures Superseded(purged, key, m[..n - 1], key(m[n - 1]))
  {
    SupersededPrefix(purged, key, m, n - 1, key(m[n - 1]));
  }

  lemma NotSuperseded<T(!new), K(!new)>(purged: T -> bool, key: T -> K, m: seq<T>, n: nat, k: K)
    requires n <= |m| && forall i :: 0 <= i < n ==> key(m[i]) != k
    ensures !Superseded(purged, key, m[..n], k)
  {
  }

  lemma ReplacedSnoc<T(!new), K(!new)>(purged: T -> bool, key: T -> K, done: seq<T>, b: T, fragment: seq<T>)
    ensures Replaced(purged, key, done + [b], fragment) == Replaced(purged, key, done, fragment) +
            if !purged(b) then [b]
            else if Superseded(purged, key, done, key(b)) then []
            else Group(key, fragment, key(b))
  {
    assert (done + [b])[..|done + [b]| - 1] == done;
  }

  /** Showing a further record of the open group takes it off the open tail. */
  lemma TailAgain<T(!new), K(!new)>(key: T -> K, m: seq<T>, n: nat, fkeys: seq<K>)
    requires 1 < n <= |m| && key(m[n - 1]) in fkeys && key(m[n - 2]) == key(m[n - 1])
    ensures OpenTail(key, m, n - 1, fkeys) == [m[n - 1]] + OpenTail(key, m, n, fkeys)
  {
    GroupNext(key, m, n);
    HeadOf(Group(key, m, key(m[n - 1])), |Group(key, m[..n - 1], key(m[n - 1]))|);
  }

  /** Showing the first record of a group opens that group. */
  lemma TailFresh<T(!new), K(!new)>(key: T -> K, m: seq<T>, n: nat, fkeys: seq<K>)
    requires 0 < n <= |m| && key(m[n - 1]) in fkeys && Group(key, m[..n - 1], key(m[n - 1])) == []
    ensures Group(key, m, key(m[n - 1])) == [m[n - 1]] + OpenTail(key, m, n, fkeys)
  {
    GroupNext(key, m, n);
    HeadOf(Group(key, m, key(m[n - 1])), 0);
  }

  lemma HeadOf<T>(g: seq<T>, c: nat)
    requires c < |g|
    ensures g[c..] == [g[c]] + g[c + 1..]
  {
  }

  /** The n-th record is the next one of its group. */
  lemma GroupNext<T(!new), K(!new)>(key: T -> K, m: seq<T>, n: nat)
    requires 0 < n <= |m|
    ensures var k := key(m[n - 1]);
            var g, c := Group(key, m, k), |Group(key, m[..n - 1], k)|;
            c < |g| && g[c] == m[n - 1] && |Group(key, m[..n], k)| == c + 1
  {
    GroupPrefix(key, m, n, key(m[n - 1]));
  }

  /** A key other than the previous record's has not been seen before. */
  lemma FreshGroup<T(!new), K(!new)>(key: T -> K, m: seq<T>, n: nat, fkeys: seq<K>)
    requires 0 < n <= |m| && Together(key, m, fkeys) && key(m[n - 1]) in fkeys
    requires n > 1 ==> key(m[n - 2]) != key(m[n - 1])
    ensures Group(key, m[..n - 1], key(m[n - 1])) == []
    ensures forall i :: 0 <= i < n - 1 ==> key(m[i]) != key(m[n - 1])
  {
    NoGroup(key, m[..n - 1], key(m[n - 1]));
  }

  /** When the key changes, nothing is left of the group before. */
  lemma TailClosed<T(!new), K(!new)>(key: T -> K, m: seq<T>, n: nat, fkeys: seq<K>)
    requires 0 < n <= |m| && Together(key, m, fkeys)
    requires n > 1 && key(m[n - 2]) in fkeys ==> key(m[n - 2]) != key(m[n - 1])
    ensures OpenTail(key, m, n - 1, fkeys) == []
  {
    if n > 1 && key(m[n - 2]) in fkeys { GroupComplete(key, m, n - 1, fkeys); }
  }

  lemma SupersededPrefix<T(!new), K(!new)>(purged: T -> bool, key: T -> K, m: seq<T>, n: nat, k: K)
    requires n <= |m| && forall r :: r in m && key(r) == k ==> purged(r)
    ensures Superseded(purged, key, m[..n], k) <==> exists i :: 0 <= i < n && key(m[i]) == k
  {
    if i :| 0 <= i < n && key(m[i]) == k {
      assert m[..n][i] == m[i] && m[i] in m;
    }
  }

  lemma {:induction false} NoGroup<T(!new), K(!new)>(key: T -> K, s: seq<T>, k: K)
    requires forall i :: 0 <= i < |s| ==> key(s[i]) != k
    ensures Group(key, s, k) == []
  {
    if s != [] { NoGroup(key, s[..|s| - 1], k); }
  }

  /** A group read off a prefix is a prefix of the whole group. */
  lemma GroupPrefix<T(!new), K(!new)>(key: T -> K, m: seq<T>, n: nat, k: K)
    requires 0 < n <= |m|
    ensures Group(key, m, k) == Group(key, m[..n], k) + Group(key, m[n..], k)
    ensures Group(key, m[..n], k) == Group(key, m[..n - 1], k) + if key(m[n - 1]) == k then [m[n - 1]] else []
  {
    var front, back := m[..n], m[n..];
    assert m == front + back && front[..n - 1] == m[..n - 1] && front[n - 1] == m[n - 1];
    GroupAppend(key, front, back, k);
  }

  /** Once the next record has another key, the open group has been shown in full. */
  lemma GroupComplete<T(!new), K(!new)>(key: T -> K, m: seq<T>, n: nat, fkeys: seq<K>)
    requires 0 < n < |m| && Together(key, m, fkeys)
    requires key(m[n - 1]) in fkeys && key(m[n]) != key(m[n - 1])
    ensures Group(key, m[..n], key(m[n - 1])) == Group(key, m, key(m[n - 1]))
  {
    var k := key(m[n - 1]);
    GroupPrefix(key, m, n, k);
    forall i | 0 <= i < |m[n..]| ensures key(m[n..][i]) != k {
      assert m[n..][i] == m[n + i];
    }
    NoGroup(key, m[n..], k);
  }

  lemma {:induction false} WalkTogether<T(!new), K(!new)>(
    purged: T -> bool, key: T -> K, base: seq<T>, fragment: seq<T>, fkeys: seq<K>, emitted: seq<seq<K>>, ks: seq<K>)
    requires fkeys == Keys(key, fragment) && |SlotKeys(purged, key, base, fkeys)| <= |emitted|
    requires Distinct(Concat(emitted)) && forall r :: r in base && key(r) in ks ==> purged(r)
    ensures var w := Walk(purged, key, base, fragment, fkeys, emitted);
            && Together(key, w, ks)
            && forall r :: r in w && key(r) in ks ==>
              key(r) in Concat(emitted[..|SlotKeys(purged, key, base, fkeys)|])
  {
    if base != [] {
      var init, b := base[..|base| - 1], base[|base| - 1];
      assert b in base;
      var slots := SlotKeys(purged, key, init, fkeys);
      var n := |slots|;
      var w := Walk(purged, key, init, fragment, fkeys, emitted);
      WalkTogether(purged, key, init, fragment, fkeys, emitted, ks);
      if !purged(b) {
        TogetherAppend(key, w, [b], ks);
      } else if key(b) in fkeys && key(b) !in slots {
        OpenSlotTogether(key, fragment, ks, emitted, n, w);
        assert |SlotKeys(purged, key, base, fkeys)| == n + 1;
      } else {
        assert Walk(purged, key, base, fragment, fkeys, emitted) == w;
      }
    }
  }

  lemma OpenSlotTogether<T(!new), K(!new)>(
    key: T -> K, fragment: seq<T>, ks: seq<K>, emitted: seq<seq<K>>, n: nat, w: seq<T>)
    requires n < |emitted| && Distinct(Concat(emitted)) && Together(key, w, ks)
    requires forall r :: r in w && key(r) in ks ==> key(r) in Concat(emitted[..n])
    ensures var w' := w + FlatGroups(key, fragment, emitted[n]);
            && Together(key, w', ks)
            && forall r :: r in w' && key(r) in ks ==> key(r) in Concat(emitted[..n + 1])
  {
    BlocksDisjoint(emitted, n);
    FlatGroupsKeys(key, fragment, emitted[n]);
    FlatGroupsTogether(key, fragment, emitted[n], ks);
    TogetherAppend(key, w, FlatGroups(key, fragment, emitted[n]), ks);
  }

  lemma BlocksDisjoint<K(!new)>(emitted: seq<seq<K>>, n: nat)
    requires n < |emitted| && Distinct(Concat(emitted))
    ensures Distinct(emitted[n]) && forall k :: k in emitted[n] ==> k !in Concat(emitted[..n])
    ensures Concat(emitted[..n + 1]) == Concat(emitted[..n]) + emitted[n]
  {
    ConcatPieces(emitted, n);
    DistinctPieces(Concat(emitted), Concat(emitted[..n]), emitted[n], Concat(emitted[n + 1..]));
  }

  lemma ConcatPieces<K(!new)>(emitted: seq<seq<K>>, n: nat)
    requires n < |emitted|
    ensures Concat(emitted[..n + 1]) == Concat(emitted[..n]) + emitted[n]
    ensures Concat(emitted) == (Concat(emitted[..n]) + emitted[n]) + Concat(emitted[n + 1..])
  {
    SplitAround(emitted, n);
    ConcatMiddle(emitted[..n], emitted[n], emitted[n + 1..]);
  }

  lemma SplitAround<A>(xs: seq<A>, n: nat)
    requires n < |xs|
    ensures xs[..n + 1] == xs[..n] + [xs[n]] && xs == (xs[..n] + [xs[n]]) + xs[n + 1..]
  {
  }

  lemma ConcatMiddle<K(!new)>(front: seq<seq<K>>, x: seq<K>, back: seq<seq<K>>)
    ensures Concat(front + [x]) == Concat(front) + x
    ensures Concat((front + [x]) + back) == (Concat(front) + x) + Concat(back)
  {
    ConcatSnoc(front, x);
    ConcatAppend(front + [x], back);
  }

  lemma DistinctPieces<K(!new)>(all: seq<K>, a: seq<K>, b: seq<K>, c: seq<K>)
    requires Distinct(all) && all == (a + b) + c
    ensures Distinct(b) && forall k :: k in b ==> k !in a
  {
    SplitDistinct(all, a + b, c);
    SplitDistinct(a + b, a, b);
  }

  lemma {:induction false} ConcatAppend<A>(xs: seq<seq<A>>, ys: seq<seq<A>>)
    ensures Concat(xs + ys) == Concat(xs) + Concat(ys)
  {
    if ys == [] {
      assert xs + ys == xs;
    } else {
      assert (xs + ys)[..|xs + ys| - 1] == xs + ys[..|ys| - 1];
      ConcatAppend(xs, ys[..|ys| - 1]);
    }
  }

  /** The records a merge appends at the end: those whose keys found no slot to precede. */
  function Appended<T(!new), K(==, !new)>(purged: T -> bool, key: T -> K, base: seq<T>, fragment: seq<T>): seq<T> {
    var fkeys := Keys(key, fragment);
    Only(key, fragment, PlanOf(fkeys, SlotKeys(purged, key, base, fkeys)).pending)
  }

  /** The purge takes every record under the fragment's keys, old and incoming. */
  ghost predicate Covers<T(!new), K(!new)>(purged: T -> bool, key: T -> K, base: seq<T>, fragment: seq<T>) {
    (forall r :: r in fragment ==> purged(r)) && forall r :: r in base && key(r) in Keys(key, fragment) ==> purged(r)
  }

  /** Merging the same fragment again changes nothing exactly when the records that were appended stand
      together key by key, if the purge covers the fragment's keys. */
  lemma RemergeCovered<T(!new), K(!new)>(purged: T -> bool, key: T -> K, base: seq<T>, fragment: seq<T>)
    requires Covers(purged, key, base, fragment)
    ensures var m := Merged(purged, key, base, fragment);
            Merged(purged, key, m, fragment) == m <==> Contiguous(key, Appended(purged, key, base, fragment))
  {
    var fkeys := Keys(key, fragment);
    var m := Merged(purged, key, base, fragment);
    MergedFindsItsSlots(purged, key, base, fragment);
    if Contiguous(key, Appended(purged, key, base, fragment)) {
      RemergeKeeps(purged, key, base, fragment);
    }
    if Merged(purged, key, m, fragment) == m {
      RemergedEmission(purged, key, m, fragment);
      SplitEmission(purged, key, base, fragment);
    }
  }

  /** After the merge every key of the fragment has a slot, in the fragment's order. */
  lemma MergedFindsItsSlots<T(!new), K(!new)>(purged: T -> bool, key: T -> K, base: seq<T>, fragment: seq<T>)
    requires Covers(purged, key, base, fragment)
    ensures var fkeys := Keys(key, fragment);
            var m := Merged(purged, key, base, fragment);
            && SlotKeys(purged, key, m, fkeys) == fkeys
            && Only(key, m, fkeys) == Emission(key, fragment, SlotKeys(purged, key, base, fkeys))
            && forall r :: r in m ==> (purged(r) <==> key(r) in fkeys)
  {
    var fkeys := Keys(key, fragment);
    MergedView(purged, key, base, fragment);
    EmissionRegroups(key, fragment, SlotKeys(purged, key, base, fkeys));
    MergedRecords(purged, key, base, fragment);
    forall r | r in fragment ensures key(r) in fkeys { KeyOfMember(key, fragment, r); }
    SlotsAreKeys(purged, key, Merged(purged, key, base, fragment), fkeys);
  }

  lemma RemergeKeeps<T(!new), K(!new)>(purged: T -> bool, key: T -> K, base: seq<T>, fragment: seq<T>)
    requires Covers(purged, key, base, fragment)
    requires Contiguous(key, Appended(purged, key, base, fragment))
    ensures var m := Merged(purged, key, base, fragment);
            Merged(purged, key, m, fragment) == m
  {
    var fkeys := Keys(key, fragment);
    var m := Merged(purged, key, base, fragment);
    MergedFindsItsSlots(purged, key, base, fragment);
    EmissionRegroups(key, fragment, SlotKeys(purged, key, base, fkeys));
    InPlace(purged, key, m, fragment);
    MergedTogether(purged, key, base, fragment, fkeys);
    forall k | k in fkeys ensures Group(key, m, k) == Group(key, fragment, k) {
      GroupOfOnly(key, m, fkeys, k);
    }
    assert m[..|m|] == m;
    ReplacedIsSelf(purged, key, m, |m|, fragment, fkeys);
  }

  /** An emission laid out group by group has a contiguous appended part. */
  lemma SplitEmission<T(!new), K(!new)>(purged: T -> bool, key: T -> K, base: seq<T>, fragment: seq<T>)
    requires Emission(key, fragment, SlotKeys(purged, key, base, Keys(key, fragment))) ==
      FlatGroups(key, fragment, Keys(key, fragment))
    ensures Contiguous(key, Appended(purged, key, base, fragment))
  {
    var fkeys := Keys(key, fragment);
    var slots := SlotKeys(purged, key, base, fkeys);
    var plan := PlanOf(fkeys, slots);
    var placed, rest := Concat(plan.emitted), plan.pending;
    PlanShape(fkeys, slots);
    PendingContiguous(key, fragment, placed, rest);
    FlatGroupsAppend(key, fragment, placed, rest);
    var a := FlatGroups(key, fragment, placed);
    assert (a + Only(key, fragment, rest))[|a|..] == Only(key, fragment, rest);
    assert (a + FlatGroups(key, fragment, rest))[|a|..] == FlatGroups(key, fragment, rest);
  }

  lemma RemergedEmission<T(!new), K(!new)>(purged: T -> bool, key: T -> K, m: seq<T>, fragment: seq<T>)
    requires SlotKeys(purged, key, m, Keys(key, fragment)) == Keys(key, fragment)
    requires forall r :: r in m && key(r) in Keys(key, fragment) ==> purged(r)
    ensures Only(key, Merged(purged, key, m, fragment), Keys(key, fragment)) ==
      FlatGroups(key, fragment, Keys(key, fragment))
  {
    var fkeys := Keys(key, fragment);
    MergedView(purged, key, m, fragment);
    PlanOfAllSlots(fkeys, fkeys);
    PlanShape(fkeys, fkeys);
    OnlyNone(key, fragment);
    assert Concat(Singles(fkeys)) + [] == Concat(Singles(fkeys));
  }

  lemma MergedRecords<T(!new), K(!new)>(purged: T -> bool, key: T -> K, base: seq<T>, fragment: seq<T>)
    ensures forall r :: r in Merged(purged, key, base, fragment) <==> (r in base && !purged(r)) || r in fragment
  {
    var m := Merged(purged, key, base, fragment);
    MergeConserves(purged, key, base, fragment);
    KeptRecords(purged, base);
    assert forall r :: r in m <==> r in multiset(m);
    assert forall r :: r in fragment <==> r in multiset(fragment);
    assert forall r :: r in Kept(purged, base) <==> r in multiset(Kept(purged, base));
  }

  lemma {:induction false} KeptRecords<T(!new)>(purged: T -> bool, base: seq<T>)
    ensures forall r :: r in Kept(purged, base) <==> r in base && !purged(r)
  {
    if base != [] {
      KeptRecords(purged, base[..|base| - 1]);
      assert base == base[..|base| - 1] + [base[|base| - 1]];
    }
  }

  /** What stands together in the appended part does in the whole, for keys the purge takes. */
  lemma MergedTogether<T(!new), K(!new)>(
    purged: T -> bool, key: T -> K, base: seq<T>, fragment: seq<T>, ks: seq<K>)
    requires forall r :: r in base && key(r) in ks ==> purged(r)
    requires Together(key, Appended(purged, key, base, fragment), ks)
    ensures Together(key, Merged(purged, key, base, fragment), ks)
  {
    var fkeys := Keys(key, fragment);
    var slots := SlotKeys(purged, key, base, fkeys);
    var plan := PlanOf(fkeys, slots);
    KeysDistinct(key, fragment);
    PlanFits(purged, key, base, fkeys);
    PlanShape(fkeys, slots);
    SplitDistinct(fkeys, Concat(plan.emitted), plan.pending);
    assert plan.emitted[..|slots|] == plan.emitted;
    WalkTogether(purged, key, base, fragment, fkeys, plan.emitted, ks);
    OnlyKeys(key, fragment, plan.pending);
    TogetherAppend(key, Walk(purged, key, base, fragment, fkeys, plan.emitted), Only(key, fragment, plan.pending), ks);
  }

  /** The appended part of a merge ends it. */
  lemma TailTogether<T(!new), K(!new)>(
    purged: T -> bool, key: T -> K, base: seq<T>, fragment: seq<T>, ks: seq<K>)
    requires Together(key, Merged(purged, key, base, fragment), ks)
    ensures Together(key, Appended(purged, key, base, fragment), ks)
  {
    var fkeys := Keys(key, fragment);
    var plan := PlanOf(fkeys, SlotKeys(purged, key, base, fkeys));
    KeysDistinct(key, fragment);
    PlanFits(purged, key, base, fkeys);
    SuffixTogether(key, Walk(purged, key, base, fragment, fkeys, plan.emitted),
                   Appended(purged, key, base, fragment), ks);
  }

  lemma SuffixTogether<T(!new), K(!new)>(key: T -> K, w: seq<T>, a: seq<T>, ks: seq<K>)
    requires Together(key, w + a, ks)
    ensures Together(key, a, ks)
  {
    var all := w + a;
    forall i, j, l | 0 <= i < j < l < |a| && key(a[i]) == key(a[l]) && key(a[i]) in ks ensures key(a[j]) == key(a[i]) {
      assert a[i] == all[|w| + i] && a[j] == all[|w| + j] && a[l] == all[|w| + l];
    }
  }
}
