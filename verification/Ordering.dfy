/** Total orders on composite keys, and sorting by one. */
module Ordering {
  import opened Wrappers

  ghost predicate TotalOrder<T(!new)>(le: (T, T) -> bool) {
    && (forall x, y :: le(x, y) || le(y, x))
    && (forall x, y :: le(x, y) && le(y, x) ==> x == y)
    && (forall x, y, z :: le(x, y) && le(y, z) ==> le(x, z))
  }

  function CharOrder(): (char, char) -> bool {
    (a: char, b: char) => a <= b
  }

  predicate LexLe<T(==)>(le: (T, T) -> bool, a: seq<T>, b: seq<T>) {
    if a == [] then true
    else if b == [] then false
    else if a[0] == b[0] then LexLe(le, a[1..], b[1..])
    else le(a[0], b[0])
  }

  /** Element by element, a prefix first. */
  function SeqOrder<T(==)>(le: (T, T) -> bool): (seq<T>, seq<T>) -> bool {
    (a: seq<T>, b: seq<T>) => LexLe(le, a, b)
  }

  /** First component, then second. */
  function PairOrder<A(==), B>(le0: (A, A) -> bool, le1: (B, B) -> bool): ((A, B), (A, B)) -> bool {
    (p: (A, B), q: (A, B)) => if p.0 == q.0 then le1(p.1, q.1) else le0(p.0, q.0)
  }

  /** Absent before present. */
  function OptionOrder<T>(le: (T, T) -> bool): (Option<T>, Option<T>) -> bool {
    (a: Option<T>, b: Option<T>) => a.None? || (b.Some? && le(a.value, b.value))
  }

  lemma {:induction false} LexTotal<T(!new)>(le: (T, T) -> bool, a: seq<T>, b: seq<T>)
    requires TotalOrder(le)
    ensures LexLe(le, a, b) || LexLe(le, b, a)
    ensures LexLe(le, a, b) && LexLe(le, b, a) ==> a == b
  {
    if a != [] && b != [] && a[0] == b[0] {
      LexTotal(le, a[1..], b[1..]);
      assert a == [a[0]] + a[1..] && b == [b[0]] + b[1..];
    }
  }

  lemma {:induction false} LexTransitive<T(!new)>(le: (T, T) -> bool, a: seq<T>, b: seq<T>, c: seq<T>)
    requires TotalOrder(le) && LexLe(le, a, b) && LexLe(le, b, c)
    ensures LexLe(le, a, c)
  {
    if a != [] && b != [] && c != [] {
      if a[0] == b[0] && b[0] == c[0] {
        LexTransitive(le, a[1..], b[1..], c[1..]);
      }
    }
  }

  lemma SeqOrderTotal<T(!new)>(le: (T, T) -> bool)
    requires TotalOrder(le)
    ensures TotalOrder(SeqOrder(le))
  {
    var o := SeqOrder(le);
    forall a, b ensures (o(a, b) || o(b, a)) && (o(a, b) && o(b, a) ==> a == b) { LexTotal(le, a, b); }
    forall a, b, c | o(a, b) && o(b, c) ensures o(a, c) { LexTransitive(le, a, b, c); }
  }

  lemma PairOrderTotal<A(!new), B(!new)>(le0: (A, A) -> bool, le1: (B, B) -> bool)
    requires TotalOrder(le0) && TotalOrder(le1)
    ensures TotalOrder(PairOrder(le0, le1))
  {
    var o := PairOrder(le0, le1);
    forall p, q ensures (o(p, q) || o(q, p)) && (o(p, q) && o(q, p) ==> p == q) {
      assert le0(p.0, q.0) || le0(q.0, p.0);
      assert le1(p.1, q.1) || le1(q.1, p.1);
    }
    forall p, q, r | o(p, q) && o(q, r) ensures o(p, r) {
      if p.0 == q.0 == r.0 { assert le1(p.1, q.1) && le1(q.1, r.1); }
      else if p.0 != q.0 && q.0 != r.0 { assert le0(p.0, q.0) && le0(q.0, r.0); }
    }
  }

  lemma OptionOrderTotal<T(!new)>(le: (T, T) -> bool)
    requires TotalOrder(le)
    ensures TotalOrder(OptionOrder(le))
  {
  }

  // ----- Stable sorting by a key -----

  function MapSeq<A, B>(f: A -> B, s: seq<A>): (m: seq<B>)
    ensures |m| == |s| && forall i :: 0 <= i < |s| ==> m[i] == f(s[i])
  {
    seq(|s|, i requires 0 <= i < |s| => f(s[i]))
  }

  ghost predicate Sorted<K(!new)>(le: (K, K) -> bool, s: seq<K>) {
    forall i, j :: 0 <= i < j < |s| ==> le(s[i], s[j])
  }

  /** Put `x` after every element of the sorted `s` that is not above it. */
  function Insert<T, K>(le: (K, K) -> bool, key: T -> K, s: seq<T>, x: T): seq<T> {
    if s == [] || le(key(s[|s| - 1]), key(x)) then s + [x]
    else Insert(le, key, s[..|s| - 1], x) + [s[|s| - 1]]
  }

  function SortBy<T, K>(le: (K, K) -> bool, key: T -> K, s: seq<T>): seq<T> {
    if s == [] then [] else Insert(le, key, SortBy(le, key, s[..|s| - 1]), s[|s| - 1])
  }

  lemma {:induction false} InsertKeeps<T(!new), K(!new)>(le: (K, K) -> bool, key: T -> K, s: seq<T>, x: T)
    ensures multiset(Insert(le, key, s, x)) == multiset(s) + multiset{x}
    ensures |Insert(le, key, s, x)| == |s| + 1
  {
    if !(s == [] || le(key(s[|s| - 1]), key(x))) {
      InsertKeeps(le, key, s[..|s| - 1], x);
      assert s == s[..|s| - 1] + [s[|s| - 1]];
    }
  }

  lemma {:induction false} InsertSorts<T(!new), K(!new)>(le: (K, K) -> bool, key: T -> K, s: seq<T>, x: T)
    requires TotalOrder(le) && Sorted(le, MapSeq(key, s))
    ensures Sorted(le, MapSeq(key, Insert(le, key, s, x)))
  {
    if s == [] {
    } else {
      var last := s[|s| - 1];
      var ks := MapSeq(key, s);
      if le(key(last), key(x)) {
        forall i | 0 <= i < |s| ensures le(key(s[i]), key(x)) {
          assert i < |s| - 1 ==> le(ks[i], ks[|s| - 1]);
        }
      } else {
        var init := s[..|s| - 1];
        assert forall i :: 0 <= i < |init| ==> MapSeq(key, init)[i] == ks[i];
        InsertSorts(le, key, init, x);
        InsertKeeps(le, key, init, x);
        var r := Insert(le, key, init, x);
        forall i | 0 <= i < |r| ensures le(key(r[i]), key(last)) {
          assert r[i] in multiset(r);
          if r[i] != x {
            assert r[i] in multiset(init) && r[i] in init;
            var j :| 0 <= j < |init| && init[j] == r[i];
            assert le(ks[j], ks[|s| - 1]);
          } else {
            assert le(key(x), key(last));
          }
        }
        assert forall i :: 0 <= i < |r| ==> MapSeq(key, r + [last])[i] == MapSeq(key, r)[i];
      }
    }
  }

  /** Sorting permutes, and the keys come out in order. */
  lemma {:induction false} SortBySorts<T(!new), K(!new)>(le: (K, K) -> bool, key: T -> K, s: seq<T>)
    requires TotalOrder(le)
    ensures multiset(SortBy(le, key, s)) == multiset(s) && |SortBy(le, key, s)| == |s|
    ensures Sorted(le, MapSeq(key, SortBy(le, key, s)))
  {
    if s != [] {
      var init := s[..|s| - 1];
      SortBySorts(le, key, init);
      InsertKeeps(le, key, SortBy(le, key, init), s[|s| - 1]);
      InsertSorts(le, key, SortBy(le, key, init), s[|s| - 1]);
      assert s == init + [s[|s| - 1]];
    }
  }

  /** Two sorted arrangements of the same elements are the same. */
  lemma {:induction false} SortedUnique<K(!new)>(le: (K, K) -> bool, a: seq<K>, b: seq<K>)
    requires TotalOrder(le) && Sorted(le, a) && Sorted(le, b) && multiset(a) == multiset(b)
    ensures a == b
    decreases |a|
  {
    if a == [] {
      assert |multiset(b)| == |b|;
    } else {
      assert a[0] in multiset(a);
      SameLeast(le, a, b);
      RestOf(a);
      RestOf(b);
      SortedUnique(le, a[1..], b[1..]);
      assert a == [a[0]] + a[1..] && b == [b[0]] + b[1..];
    }
  }

  lemma SameLeast<K(!new)>(le: (K, K) -> bool, a: seq<K>, b: seq<K>)
    requires TotalOrder(le) && Sorted(le, a) && Sorted(le, b) && multiset(a) == multiset(b)
    requires a != [] && b != []
    ensures a[0] == b[0]
  {
    assert a[0] in multiset(b) && b[0] in multiset(a);
    var i :| 0 <= i < |b| && b[i] == a[0];
    var j :| 0 <= j < |a| && a[j] == b[0];
    assert le(b[0], b[i]) && le(a[0], a[j]);
  }

  lemma RestOf<K(!new)>(a: seq<K>)
    requires a != []
    ensures multiset(a[1..]) == multiset(a) - multiset{a[0]}
  {
    assert a == [a[0]] + a[1..];
  }

  /** How often a value arises under an injective map is how often its origin occurs. */
  lemma {:induction false} MappedCount<A(!new), B(!new)>(f: A -> B, s: seq<A>, x: A)
    requires forall y :: y in s && f(y) == f(x) ==> y == x
    ensures multiset(MapSeq(f, s))[f(x)] == multiset(s)[x]
  {
    if s != [] {
      var init, last := s[..|s| - 1], s[|s| - 1];
      assert s == init + [last] && last in s;
      MappedCount(f, init, x);
      assert MapSeq(f, s) == MapSeq(f, init) + [f(last)];
    }
  }

  /** Under a map injective on both, two sequences hold the same elements when their images do. */
  lemma MappedMultiset<A(!new), B(!new)>(f: A -> B, s: seq<A>, t: seq<A>)
    requires forall x, y :: (x in s || x in t) && (y in s || y in t) && f(x) == f(y) ==> x == y
    ensures multiset(MapSeq(f, s)) == multiset(MapSeq(f, t)) <==> multiset(s) == multiset(t)
  {
    if multiset(MapSeq(f, s)) == multiset(MapSeq(f, t)) {
      forall x ensures multiset(s)[x] == multiset(t)[x] {
        if x in s || x in t {
          MappedCount(f, s, x);
          MappedCount(f, t, x);
        }
      }
    }
    if multiset(s) == multiset(t) {
      MappedPermutation(f, s, t);
    }
  }

  lemma MappedRemove<A(!new), B(!new)>(f: A -> B, t: seq<A>, i: nat)
    requires i < |t|
    ensures multiset(t) == multiset(t[..i] + t[i + 1..]) + multiset{t[i]}
    ensures multiset(MapSeq(f, t)) == multiset(MapSeq(f, t[..i] + t[i + 1..])) + multiset{f(t[i])}
  {
    var a, b, x := t[..i], t[i + 1..], t[i];
    assert t == a + [x] + b;
    AroundOne(a, x, b);
    AroundOne(MapSeq(f, a), f(x), MapSeq(f, b));
    MapSeqJoin(f, a, b);
    MapSeqJoin(f, a + [x], b);
    MapSeqJoin(f, a, [x]);
    assert MapSeq(f, [x]) == [f(x)];
  }

  lemma AroundOne<A(!new)>(a: seq<A>, x: A, b: seq<A>)
    ensures multiset(a + [x] + b) == multiset(a + b) + multiset{x}
  {
  }

  lemma MapSeqJoin<A(!new), B(!new)>(f: A -> B, a: seq<A>, b: seq<A>)
    ensures MapSeq(f, a + b) == MapSeq(f, a) + MapSeq(f, b)
  {
  }

  /** Permuting a sequence permutes its image. */
  lemma {:induction false} MappedPermutation<A(!new), B(!new)>(f: A -> B, s: seq<A>, t: seq<A>)
    requires multiset(s) == multiset(t)
    ensures multiset(MapSeq(f, s)) == multiset(MapSeq(f, t))
    decreases |s|
  {
    if s == [] {
      assert |multiset(t)| == |t|;
    } else {
      var last := |s| - 1;
      MappedRemove(f, s, last);
      assert s[..last] + s[last + 1..] == s[..last];
      assert s[last] in multiset(t);
      var i :| 0 <= i < |t| && t[i] == s[last];
      MappedRemove(f, t, i);
      assert multiset(s[..last]) == multiset(s) - multiset{s[last]};
      assert multiset(t[..i] + t[i + 1..]) == multiset(t) - multiset{t[i]};
      MappedPermutation(f, s[..last], t[..i] + t[i + 1..]);
    }
  }
}
