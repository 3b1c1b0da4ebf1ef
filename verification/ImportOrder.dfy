/** Which way imports are sorted: what the order on their keys says, character by character. */
module ImportOrder {
  import opened Wrappers
  import opened Ordering
  import opened Normalization

  /** `a` is a beginning of `b`, or the first place they differ has the smaller character in `a`. */
  ghost predicate TextBefore(a: string, b: string) {
    a <= b || exists k :: DiffersAt(a, b, k) && a[k] < b[k]
  }

  ghost predicate DiffersAt<T>(a: seq<T>, b: seq<T>, k: int) {
    0 <= k < |a| && k < |b| && a[..k] == b[..k] && a[k] != b[k]
  }

  /** The same, part by part. */
  ghost predicate PathBefore(a: seq<string>, b: seq<string>) {
    a <= b || exists k :: DiffersAt(a, b, k) && TextBefore(a[k], b[k])
  }

  /** By name; of two of one name the one without an alias first, then by alias. */
  ghost predicate NameBefore(p: NamePair, q: NamePair) {
    if p.0 != q.0 then TextBefore(p.0, q.0)
    else p.1.None? || (q.1.Some? && TextBefore(p.1.value, q.1.value))
  }

  ghost predicate NamesBefore(a: seq<NamePair>, b: seq<NamePair>) {
    a <= b || exists k :: DiffersAt(a, b, k) && NameBefore(a[k], b[k])
  }

  /** Element by element is: a beginning, or decided at the first difference. */
  lemma {:induction false} LexIs<T(!new)>(le: (T, T) -> bool, a: seq<T>, b: seq<T>)
    ensures LexLe(le, a, b) <==> a <= b || exists k :: DiffersAt(a, b, k) && le(a[k], b[k])
  {
    if a != [] && b != [] {
      if a[0] == b[0] {
        LexIs(le, a[1..], b[1..]);
        OneUp(a, b);
        if a <= b { assert a[1..] <= b[1..]; }
        if a[1..] <= b[1..] { assert a == [a[0]] + a[1..] && a <= b; }
        if k :| DiffersAt(a[1..], b[1..], k) && le(a[1..][k], b[1..][k]) { assert DiffersAt(a, b, k + 1); }
        if k :| DiffersAt(a, b, k) && le(a[k], b[k]) { assert DiffersAt(a[1..], b[1..], k - 1); }
      } else {
        if le(a[0], b[0]) { assert DiffersAt(a, b, 0); }
        if k :| DiffersAt(a, b, k) && le(a[k], b[k]) {
          if k > 0 { assert a[..k][0] == b[..k][0]; }
        }
      }
    }
  }

  lemma FrontSplit<T(!new)>(a: seq<T>, k: int)
    requires 0 < k <= |a|
    ensures a[..k] == [a[0]] + a[1..][..k - 1] && a[..k][1..] == a[1..][..k - 1]
  {
  }

  lemma OneUp<T(!new)>(a: seq<T>, b: seq<T>)
    requires a != [] && b != [] && a[0] == b[0]
    ensures forall k :: 0 < k ==> (DiffersAt(a, b, k) <==> DiffersAt(a[1..], b[1..], k - 1))
  {
    forall k | 0 < k ensures DiffersAt(a, b, k) <==> DiffersAt(a[1..], b[1..], k - 1) {
      if k < |a| && k < |b| {
        FrontSplit(a, k);
        FrontSplit(b, k);
      }
    }
  }

  lemma TextIs(a: string, b: string)
    ensures StringOrder()(a, b) <==> TextBefore(a, b)
  {
    LexIs(CharOrder(), a, b);
  }

  lemma PathIs(a: seq<string>, b: seq<string>)
    ensures SeqOrder(StringOrder())(a, b) <==> PathBefore(a, b)
  {
    LexIs(StringOrder(), a, b);
    forall k | DiffersAt(a, b, k) ensures StringOrder()(a[k], b[k]) <==> TextBefore(a[k], b[k]) {
      TextIs(a[k], b[k]);
    }
  }

  lemma NameIs(p: NamePair, q: NamePair)
    ensures NameOrder()(p, q) <==> NameBefore(p, q)
  {
    TextIs(p.0, q.0);
    if p.1.Some? && q.1.Some? { TextIs(p.1.value, q.1.value); }
  }

  lemma NamesAre(a: seq<NamePair>, b: seq<NamePair>)
    ensures SeqOrder(NameOrder())(a, b) <==> NamesBefore(a, b)
  {
    LexIs(NameOrder(), a, b);
    forall k | DiffersAt(a, b, k) ensures NameOrder()(a[k], b[k]) <==> NameBefore(a[k], b[k]) {
      NameIs(a[k], b[k]);
    }
  }

  /** Two imports stand in order: by path, and of one path by their names. */
  ghost predicate ImportBefore(a: Stmt, b: Stmt)
    requires a.Use? && b.Use?
  {
    if a.path != b.path then PathBefore(a.path, b.path)
    else NamesBefore(MapSeq(NameKey(), a.names), MapSeq(NameKey(), b.names))
  }

  lemma ImportIs(a: Stmt, b: Stmt)
    requires a.Use? && b.Use?
    ensures KeyOrder()(UseSortKey()(a), UseSortKey()(b)) <==> ImportBefore(a, b)
  {
    PathIs(a.path, b.path);
    NamesAre(MapSeq(NameKey(), a.names), MapSeq(NameKey(), b.names));
  }

  // ----- What canonical runs look like -----

  /** The names inside an import, in order. */
  ghost predicate NamesInOrder(s: Stmt) {
    s.Use? ==> forall i, j :: 0 <= i < j < |s.names| ==> NameBefore(NameKey()(s.names[i]), NameKey()(s.names[j]))
  }

  lemma SortedNames(s: Stmt)
    ensures NamesInOrder(SortNames(s)) && (SortNames(s).Use? <==> s.Use?)
  {
    if s.Use? {
      OrdersAreTotal();
      SortBySorts(NameOrder(), NameKey(), s.names);
      var names := SortNames(s).names;
      forall i, j | 0 <= i < j < |names| ensures NameBefore(NameKey()(names[i]), NameKey()(names[j])) {
        assert NameOrder()(MapSeq(NameKey(), names)[i], MapSeq(NameKey(), names)[j]);
        NameIs(NameKey()(names[i]), NameKey()(names[j]));
      }
    }
  }

  /** Neighbouring imports stand in order, and so do the names inside each. */
  ghost predicate InImportOrder(ss: seq<Stmt>) {
    && (forall i :: 0 <= i < |ss| ==> NamesInOrder(ss[i]))
    && forall i :: 0 < i < |ss| && ss[i - 1].Use? && ss[i].Use? ==> ImportBefore(ss[i - 1], ss[i])
  }

  lemma SortedRun(run: seq<Stmt>)
    requires forall i :: 0 <= i < |run| ==> run[i].Use? && NamesInOrder(run[i])
    ensures InImportOrder(SortUses(run)) && |SortUses(run)| == |run|
    ensures forall i :: 0 <= i < |run| ==> SortUses(run)[i].Use?
  {
    OrdersAreTotal();
    SortUsesKeeps(run);
    SortBySorts(KeyOrder(), UseSortKey(), run);
    var sorted := SortUses(run);
    forall i | 0 <= i < |sorted| ensures NamesInOrder(sorted[i]) {
      assert sorted[i] in multiset(sorted) && sorted[i] in multiset(run);
    }
    forall i | 0 < i < |sorted| ensures ImportBefore(sorted[i - 1], sorted[i]) {
      assert KeyOrder()(MapSeq(UseSortKey(), sorted)[i - 1], MapSeq(UseSortKey(), sorted)[i]);
      ImportIs(sorted[i - 1], sorted[i]);
    }
  }

  lemma {:induction false} SortedRuns(ss: seq<Stmt>)
    requires forall i :: 0 <= i < |ss| ==> NamesInOrder(ss[i])
    ensures InImportOrder(SortRuns(ss))
  {
    if ss != [] {
      var n := if ss[0].Use? then RunLength(ss) else 1;
      var head := if ss[0].Use? then SortUses(ss[..n]) else [ss[0]];
      SortedRuns(ss[n..]);
      if ss[0].Use? { SortedRun(ss[..n]); }
      var tail := SortRuns(ss[n..]);
      SortRunsKeepsPlaces(ss[n..]);
      assert SortRuns(ss) == head + tail;
      if ss[0].Use? && n < |ss| { assert !tail[0].Use?; }
    }
  }

  /** **Canonical runs are in ascending order**: after the names inside each import are sorted and each run is,
      every import stands behind its neighbour by path, then by its names, and every name behind the one before. */
  lemma CanonicalAscends(ss: seq<Stmt>)
    ensures InImportOrder(CanonicalRuns(ss))
  {
    var named := MapSeq(SortNamesOf(), ss);
    forall i | 0 <= i < |named| ensures NamesInOrder(named[i]) { SortedNames(ss[i]); }
    SortedRuns(named);
  }
}
