/** One entry for each span: when sorting by range and dropping repeats leaves no span twice. */
module LedgerOrder {
  import opened Ordering
  import opened BodyLedger
  import opened LedgerLaws

  ghost predicate HasSpan(ss: seq<BodySite>, sp: Span) {
    exists i :: 0 <= i < |ss| && ss[i].span == sp
  }

  /** The sites of one range, in the order they stand. */
  function Select(ss: seq<BodySite>, k: Range): seq<BodySite> {
    if ss == [] then []
    else if RangeOf()(ss[|ss| - 1]) == k then Select(ss[..|ss| - 1], k) + [ss[|ss| - 1]]
    else Select(ss[..|ss| - 1], k)
  }

  /** A span that comes back comes back at once. */
  ghost predicate Grouped(ss: seq<BodySite>) {
    ss == [] ||
    (Grouped(ss[..|ss| - 1]) &&
     (HasSpan(ss[..|ss| - 1], ss[|ss| - 1].span) ==> ss[|ss| - 2].span == ss[|ss| - 1].span))
  }

  ghost predicate DistinctSpans(ss: seq<BodySite>) {
    forall i, j :: 0 <= i < j < |ss| ==> ss[i].span != ss[j].span
  }

  ghost predicate InOrder(ss: seq<BodySite>) {
    Sorted(RangeOrder(), MapSeq(RangeOf(), ss))
  }

  lemma RangeOrderTotal()
    ensures TotalOrder(RangeOrder())
  {
    assert TotalOrder(NatOrder());
    PairOrderTotal(NatOrder(), NatOrder());
  }

  lemma InOrderAt(ss: seq<BodySite>, i: nat, j: nat)
    requires InOrder(ss) && i < j < |ss|
    ensures RangeOrder()(RangeOf()(ss[i]), RangeOf()(ss[j]))
  {
    var ks := MapSeq(RangeOf(), ss);
    assert RangeOrder()(ks[i], ks[j]);
  }

  lemma InOrderIs(ss: seq<BodySite>)
    requires forall i: nat, j: nat :: i < j < |ss| ==> RangeOrder()(RangeOf()(ss[i]), RangeOf()(ss[j]))
    ensures InOrder(ss)
  {
  }

  // ----- Sorting is stable -----

  lemma SelectSnoc(ss: seq<BodySite>, x: BodySite, k: Range)
    ensures Select(ss + [x], k) == if RangeOf()(x) == k then Select(ss, k) + [x] else Select(ss, k)
  {
    assert (ss + [x])[..|ss|] == ss;
  }

  lemma {:induction false} InsertKeepsSelect(ss: seq<BodySite>, x: BodySite, k: Range)
    ensures Select(Insert(RangeOrder(), RangeOf(), ss, x), k) == if RangeOf()(x) == k then Select(ss, k) + [x]
      else Select(ss, k)
  {
    if ss == [] || RangeOrder()(RangeOf()(ss[|ss| - 1]), RangeOf()(x)) {
      SelectSnoc(ss, x, k);
    } else {
      var init, last := ss[..|ss| - 1], ss[|ss| - 1];
      RangeOrderTotal();
      assert RangeOf()(last) != RangeOf()(x);
      InsertKeepsSelect(init, x, k);
      SelectSnoc(Insert(RangeOrder(), RangeOf(), init, x), last, k);
    }
  }

  lemma {:induction false} SortKeepsSelect(ss: seq<BodySite>, k: Range)
    ensures Select(SortBy(RangeOrder(), RangeOf(), ss), k) == Select(ss, k)
  {
    if ss != [] {
      var init := ss[..|ss| - 1];
      SortKeepsSelect(init, k);
      InsertKeepsSelect(SortBy(RangeOrder(), RangeOf(), init), ss[|ss| - 1], k);
    }
  }

  // ----- Dropping repeats -----

  lemma HasSpanSnoc(ss: seq<BodySite>, x: BodySite, sp: Span)
    ensures HasSpan(ss + [x], sp) <==> HasSpan(ss, sp) || x.span == sp
  {
    var all := ss + [x];
    if HasSpan(ss, sp) {
      var i :| 0 <= i < |ss| && ss[i].span == sp;
      assert all[i].span == sp;
    }
    if x.span == sp { assert all[|ss|].span == sp; }
  }

  lemma {:induction false} DedupKeepsSpans(ss: seq<BodySite>, sp: Span)
    ensures HasSpan(Dedup(ss), sp) <==> HasSpan(ss, sp)
  {
    if ss != [] {
      var init, last := ss[..|ss| - 1], ss[|ss| - 1];
      DedupKeepsSpans(init, sp);
      HasSpanSnoc(init, last, sp);
      HasSpanSnoc(Dedup(init), last, sp);
      assert ss == init + [last];
      var before := Dedup(init);
      if before != [] && before[|before| - 1].span == last.span { assert HasSpan(before, last.span); }
    }
  }

  lemma {:induction false} SelectSpans(ss: seq<BodySite>, sp: Span)
    ensures HasSpan(Select(ss, (sp.start, sp.end)), sp) <==> HasSpan(ss, sp)
  {
    if ss != [] {
      var init, last, k := ss[..|ss| - 1], ss[|ss| - 1], (sp.start, sp.end);
      SelectSpans(init, sp);
      HasSpanSnoc(init, last, sp);
      HasSpanSnoc(Select(init, k), last, sp);
      assert ss == init + [last];
    }
  }

  /** In a sorted list, the sites of the last range end with the last site. */
  lemma LastSelected(ss: seq<BodySite>)
    requires ss != []
    ensures var g := Select(ss, RangeOf()(ss[|ss| - 1])); g != [] && g[|g| - 1] == ss[|ss| - 1]
  {
  }

  lemma {:induction false} NoneSelected(ss: seq<BodySite>, k: Range)
    requires forall i :: 0 <= i < |ss| ==> RangeOf()(ss[i]) != k
    ensures Select(ss, k) == []
  {
    if ss != [] { NoneSelected(ss[..|ss| - 1], k); }
  }

  lemma InitInOrder(ss: seq<BodySite>)
    requires InOrder(ss) && ss != []
    ensures InOrder(ss[..|ss| - 1])
  {
    var init := ss[..|ss| - 1];
    forall i: nat, j: nat | i < j < |init| ensures RangeOrder()(RangeOf()(init[i]), RangeOf()(init[j])) {
      InOrderAt(ss, i, j);
    }
    InOrderIs(init);
  }

  /** Appending the next site of a sorted list repeats a span out of turn among all sites exactly when it
      does among those of its range. */
  lemma OutOfTurn(init: seq<BodySite>, x: BodySite)
    requires InOrder(init + [x])
    ensures var g := Select(init, RangeOf()(x));
            (HasSpan(init, x.span) ==> init[|init| - 1].span == x.span) <==>
              (HasSpan(g, x.span) ==> g[|g| - 1].span == x.span)
  {
    var all, k := init + [x], RangeOf()(x);
    var g := Select(init, k);
    SelectSpans(init, x.span);
    if init != [] {
      LastSelected(init);
      var last := init[|init| - 1];
      if RangeOf()(last) != k {
        RangeOrderTotal();
        forall i: nat | i < |init| ensures RangeOf()(init[i]) != k {
          if i < |init| - 1 { InOrderAt(all, i, |init| - 1); }
          assert all[|init| - 1] == last && all[i] == init[i];
          InOrderAt(all, |init| - 1, |init|);
        }
        NoneSelected(init, k);
      }
    }
  }

  ghost predicate GroupedByRange(ss: seq<BodySite>) {
    forall k: Range :: Grouped(Select(ss, k))
  }

  lemma GroupedSnoc(g: seq<BodySite>, x: BodySite)
    ensures Grouped(g + [x]) <==> Grouped(g) && (HasSpan(g, x.span) ==> g[|g| - 1].span == x.span)
  {
    assert (g + [x])[..|g|] == g;
  }

  lemma GroupedByRangeSnoc(init: seq<BodySite>, x: BodySite)
    ensures var g := Select(init, RangeOf()(x));
            GroupedByRange(init + [x]) <==> GroupedByRange(init) && (HasSpan(g, x.span) ==> g[|g| - 1].span == x.span)
  {
    var kx := RangeOf()(x);
    GroupedSnoc(Select(init, kx), x);
    forall k: Range ensures Select(init + [x], k) == if kx == k then Select(init, k) + [x] else Select(init, k) {
      SelectSnoc(init, x, k);
    }
    if GroupedByRange(init + [x]) {
      assert Grouped(Select(init + [x], kx));
      forall k: Range ensures Grouped(Select(init, k)) {
        assert Grouped(Select(init + [x], k));
      }
    }
    if GroupedByRange(init) && (var g := Select(init, kx); HasSpan(g, x.span) ==> g[|g| - 1].span == x.span) {
      forall k: Range ensures Grouped(Select(init + [x], k)) { assert Grouped(Select(init, k)); }
    }
  }

  lemma DistinctSnoc(ss: seq<BodySite>, x: BodySite)
    ensures DistinctSpans(ss + [x]) <==> DistinctSpans(ss) && !HasSpan(ss, x.span)
  {
    var all := ss + [x];
    if DistinctSpans(all) {
      forall i, j | 0 <= i < j < |ss| ensures ss[i].span != ss[j].span { assert all[i] == ss[i] && all[j] == ss[j]; }
      forall i | 0 <= i < |ss| ensures ss[i].span != x.span { assert all[i] == ss[i] && all[|ss|] == x; }
    }
  }

  lemma {:induction false} DedupIsDistinct(ss: seq<BodySite>)
    requires InOrder(ss)
    ensures DistinctSpans(Dedup(ss)) <==> GroupedByRange(ss)
  {
    if ss != [] {
      var init, last := ss[..|ss| - 1], ss[|ss| - 1];
      assert ss == init + [last];
      InitInOrder(ss);
      DedupIsDistinct(init);
      OutOfTurn(init, last);
      GroupedByRangeSnoc(init, last);
      DedupKeepsSpans(init, last.span);
      DistinctSnoc(Dedup(init), last);
      if init != [] && init[|init| - 1].span == last.span { assert HasSpan(init, last.span); }
    } else {
      forall k: Range ensures Grouped(Select(ss, k)) { }
    }
  }

  // ----- The ledger -----

  lemma {:induction false} DedupInOrder(ss: seq<BodySite>)
    requires InOrder(ss)
    ensures InOrder(Dedup(ss))
    ensures Dedup(ss) != [] ==> Dedup(ss)[|Dedup(ss)| - 1].span == ss[|ss| - 1].span
  {
    if ss != [] {
      var init, last := ss[..|ss| - 1], ss[|ss| - 1];
      InitInOrder(ss);
      DedupInOrder(init);
      var before, d := Dedup(init), Dedup(ss);
      RangeOrderTotal();
      forall i: nat, j: nat | i < j < |d| ensures RangeOrder()(RangeOf()(d[i]), RangeOf()(d[j])) {
        if j < |before| {
          InOrderAt(before, i, j);
        } else {
          InOrderAt(ss, |init| - 1, |init|);
          if i < |before| - 1 { InOrderAt(before, i, |before| - 1); }
        }
      }
      InOrderIs(d);
    }
  }

  lemma SortedWalk(ss: seq<Stmt>) returns (sorted: seq<BodySite>)
    ensures sorted == SortBy(RangeOrder(), RangeOf(), Sites(ss)) && InOrder(sorted)
    ensures multiset(sorted) == multiset(Sites(ss))
  {
    RangeOrderTotal();
    SortBySorts(RangeOrder(), RangeOf(), Sites(ss));
    sorted := SortBy(RangeOrder(), RangeOf(), Sites(ss));
  }

  lemma SpansOfSame(a: seq<BodySite>, b: seq<BodySite>, sp: Span)
    requires multiset(a) == multiset(b)
    ensures HasSpan(a, sp) ==> HasSpan(b, sp)
  {
    if i :| 0 <= i < |a| && a[i].span == sp {
      assert a[i] in multiset(b);
      var j :| 0 <= j < |b| && b[j] == a[i];
    }
  }

  /** **The ledger holds exactly the spans of the declarations reached**, in order of range. */
  lemma LedgerSpans(ss: seq<Stmt>, sp: Span)
    ensures InOrder(Ledger(ss))
    ensures HasSpan(Ledger(ss), sp) <==> exists x: BodySite :: x.span == sp && Declares(ss, x)
  {
    var sorted := SortedWalk(ss);
    DedupInOrder(sorted);
    DedupKeepsSpans(sorted, sp);
    SpansOfSame(sorted, Sites(ss), sp);
    SpansOfSame(Sites(ss), sorted, sp);
    if HasSpan(Sites(ss), sp) {
      var i :| 0 <= i < |Sites(ss)| && Sites(ss)[i].span == sp;
      WalkIsComplete(ss, Sites(ss)[i]);
    }
    if x: BodySite :| x.span == sp && Declares(ss, x) {
      WalkIsComplete(ss, x);
      var i :| 0 <= i < |Sites(ss)| && Sites(ss)[i] == x;
    }
  }

  /** **When the ledger has every declaration's span.** Exactly when each span declared below a block in an
      expression is also that of a declaration reached through statement lists. */
  lemma LedgerMissesNothingIf(ss: seq<Stmt>)
    ensures (forall x :: DeclaresAny(ss, x) ==> HasSpan(Ledger(ss), x.span)) <==>
            (forall x :: BelowExpression(ss, x) ==> exists y: BodySite :: y.span == x.span && Declares(ss, y))
  {
    forall x ensures DeclaresAny(ss, x) <==> Declares(ss, x) || BelowExpression(ss, x) { AllDeclarations(ss, x); }
    forall x: BodySite
      ensures HasSpan(Ledger(ss), x.span) <==> exists y: BodySite :: y.span == x.span && Declares(ss, y)
    {
      LedgerSpans(ss, x.span);
    }
  }

  /** **When no span is listed twice.** Exactly when, among the sites of any one range taken in walk
      order, a span that comes back comes back at once: no two sources take turns at a range. */
  lemma LedgerDistinct(ss: seq<Stmt>)
    ensures DistinctSpans(Ledger(ss)) <==> GroupedByRange(Sites(ss))
  {
    var sorted := SortedWalk(ss);
    DedupIsDistinct(sorted);
    forall k: Range ensures Select(sorted, k) == Select(Sites(ss), k) { SortKeepsSelect(Sites(ss), k); }
    if GroupedByRange(sorted) {
      forall k: Range ensures Grouped(Select(Sites(ss), k)) { assert Grouped(Select(sorted, k)); }
    }
    if GroupedByRange(Sites(ss)) {
      forall k: Range ensures Grouped(Select(sorted, k)) { assert Grouped(Select(Sites(ss), k)); }
    }
  }

  ghost predicate OneSource(ss: seq<BodySite>) {
    forall i, j :: 0 <= i < |ss| && 0 <= j < |ss| ==> ss[i].span.source == ss[j].span.source
  }

  lemma {:induction false} SelectedFrom(ss: seq<BodySite>, k: Range)
    ensures forall x :: x in Select(ss, k) ==> x in ss && RangeOf()(x) == k
  {
    if ss != [] { SelectedFrom(ss[..|ss| - 1], k); }
  }

  lemma {:induction false} AllAlikeGrouped(ss: seq<BodySite>)
    requires forall i, j :: 0 <= i < |ss| && 0 <= j < |ss| ==> ss[i].span == ss[j].span
    ensures Grouped(ss)
  {
    if ss != [] { AllAlikeGrouped(ss[..|ss| - 1]); }
  }

  lemma SelectedAlike(ss: seq<BodySite>, k: Range)
    requires OneSource(ss)
    ensures forall i, j :: 0 <= i < |Select(ss, k)| && 0 <= j < |Select(ss, k)| ==>
      Select(ss, k)[i].span == Select(ss, k)[j].span
  {
    var g := Select(ss, k);
    SelectedFrom(ss, k);
    forall i, j | 0 <= i < |g| && 0 <= j < |g| ensures g[i].span == g[j].span {
      assert g[i] in g && g[j] in g;
      var a :| 0 <= a < |ss| && ss[a] == g[i];
      var b :| 0 <= b < |ss| && ss[b] == g[j];
      assert ss[a].span.source == ss[b].span.source;
    }
  }

  ghost predicate Below(a: Range, b: Range) { RangeOrder()(a, b) && a != b }

  /** **A single-source ledger is strictly increasing**, so each declaration is counted once however many
      routes reach it. */
  lemma SingleSourceIncreases(ss: seq<Stmt>, i: nat, j: nat)
    requires OneSource(Sites(ss)) && i < j < |Ledger(ss)|
    ensures Below(RangeOf()(Ledger(ss)[i]), RangeOf()(Ledger(ss)[j]))
  {
    var walk, r := Sites(ss), Ledger(ss);
    forall k: Range ensures Grouped(Select(walk, k)) {
      SelectedAlike(walk, k);
      AllAlikeGrouped(Select(walk, k));
    }
    LedgerDistinct(ss);
    LedgerSpans(ss, r[i].span);
    InOrderAt(r, i, j);
    LedgerOneSource(ss, i, j);
  }

  lemma LedgerOneSource(ss: seq<Stmt>, i: nat, j: nat)
    requires OneSource(Sites(ss)) && i < |Ledger(ss)| && j < |Ledger(ss)|
    ensures Ledger(ss)[i].span.source == Ledger(ss)[j].span.source
  {
    var sorted := SortedWalk(ss);
    var r := Ledger(ss);
    DedupKeepsSpans(sorted, r[i].span);
    DedupKeepsSpans(sorted, r[j].span);
    assert HasSpan(r, r[i].span) && HasSpan(r, r[j].span);
    SpansOfSame(sorted, Sites(ss), r[i].span);
    SpansOfSame(sorted, Sites(ss), r[j].span);
  }

  // ----- Several sources -----

  lemma {:induction false} SelectJoin(a: seq<BodySite>, b: seq<BodySite>, k: Range)
    ensures Select(a + b, k) == Select(a, k) + Select(b, k)
  {
    if b == [] {
      assert a + b == a;
    } else {
      var init, x := b[..|b| - 1], b[|b| - 1];
      assert a + b == (a + init) + [x];
      SelectSnoc(a + init, x, k);
      SelectJoin(a, init, k);
    }
  }

  ghost predicate NoSharedSpan(a: seq<BodySite>, b: seq<BodySite>) {
    forall x, y :: x in a && y in b ==> x.span != y.span
  }

  lemma {:induction false} GroupedJoin(a: seq<BodySite>, b: seq<BodySite>)
    requires Grouped(a) && Grouped(b) && NoSharedSpan(a, b)
    ensures Grouped(a + b)
  {
    if b == [] {
      assert a + b == a;
    } else {
      var init, x := b[..|b| - 1], b[|b| - 1];
      assert a + b == (a + init) + [x] && x in b;
      GroupedJoin(a, init);
      GroupedSnoc(a + init, x);
      if HasSpan(a + init, x.span) {
        SpanIsLater(a, init, b, x);
        assert (a + init)[|a + init| - 1] == init[|init| - 1];
      }
    }
  }

  lemma SpanIsLater(a: seq<BodySite>, init: seq<BodySite>, b: seq<BodySite>, x: BodySite)
    requires NoSharedSpan(a, b) && x in b && HasSpan(a + init, x.span)
    ensures HasSpan(init, x.span)
  {
    var all := a + init;
    var i :| 0 <= i < |all| && all[i].span == x.span;
    if i >= |a| { assert init[i - |a|].span == x.span; }
  }

  /** Each statement's sites are of one source, and no two statements share a span. */
  ghost predicate Linked(ss: seq<Stmt>) {
    && (forall i :: 0 <= i < |ss| ==> OneSource(StmtSites(ss[i])))
    && forall i, j :: 0 <= i < j < |ss| ==> NoSharedSpan(StmtSites(ss[i]), StmtSites(ss[j]))
  }

  lemma LinkedHead(ss: seq<Stmt>)
    requires Linked(ss) && ss != []
    ensures OneSource(StmtSites(ss[0])) && Linked(ss[1..]) && NoSharedSpan(StmtSites(ss[0]), Sites(ss[1..]))
  {
    var first, rest := StmtSites(ss[0]), ss[1..];
    assert forall i :: 0 <= i < |rest| ==> rest[i] == ss[i + 1];
    forall x, y | x in first && y in Sites(rest) ensures x.span != y.span {
      SitesAre(rest, y);
      var s :| s in rest && y in StmtSites(s);
      var i :| 0 <= i < |rest| && rest[i] == s;
      assert NoSharedSpan(StmtSites(ss[0]), StmtSites(ss[i + 1]));
    }
  }

  lemma {:induction false} LinkedGrouped(ss: seq<Stmt>, k: Range)
    requires Linked(ss)
    ensures Grouped(Select(Sites(ss), k))
  {
    if ss != [] {
      LinkedHead(ss);
      LinkedGrouped(ss[1..], k);
      JoinGroups(StmtSites(ss[0]), Sites(ss[1..]), k);
    }
  }

  lemma JoinGroups(first: seq<BodySite>, rest: seq<BodySite>, k: Range)
    requires OneSource(first) && NoSharedSpan(first, rest) && Grouped(Select(rest, k))
    ensures Grouped(Select(first + rest, k))
  {
    SelectJoin(first, rest, k);
    SelectedAlike(first, k);
    AllAlikeGrouped(Select(first, k));
    SelectedFrom(first, k);
    SelectedFrom(rest, k);
    GroupedJoin(Select(first, k), Select(rest, k));
  }

  /** **A linked program lists no span twice**, however many sources use a range, when each declaration
      comes from one source and stands in the program once. */
  lemma LinkedLedgerDistinct(ss: seq<Stmt>)
    requires Linked(ss)
    ensures DistinctSpans(Ledger(ss))
  {
    forall k: Range ensures Grouped(Select(Sites(ss), k)) { LinkedGrouped(ss, k); }
    LedgerDistinct(ss);
  }

  lemma BareMethod(name: string, m: FnDecl, rest: seq<FnDecl>)
    requires m.body == []
    ensures MethodSites(Method, name, [m] + rest) ==
      [BodySite(Method, name, m.name, m.nameSpan)] + MethodSites(Method, name, rest)
  {
    var ms := [m] + rest;
    assert ms[1..] == rest && Sites(m.body) == [];
  }

  /** Two sources that take turns at one range inside a type: its method `m`, a method of another source
      at the same offsets, and `m` again from the impl block it was written in. `m` is listed twice. */
  lemma TakingTurnsListsTwice(name: string, at: Span, m: FnDecl, other: FnDecl)
    requires m.body == other.body == [] && m.nameSpan != other.nameSpan
    requires m.nameSpan.start == other.nameSpan.start && m.nameSpan.end == other.nameSpan.end
    ensures !DistinctSpans(Ledger([Class(name, at, [], [m, other], [ImplBlock([m])], NoBlock)]))
  {
    var c := Class(name, at, [], [m, other], [ImplBlock([m])], NoBlock);
    var x := BodySite(Method, name, m.name, m.nameSpan);
    var y := BodySite(Method, name, other.name, other.nameSpan);
    BareMethod(name, m, [other]);
    BareMethod(name, other, []);
    BareMethod(name, m, []);
    assert [m] + [other] == [m, other] && [other] + [] == [other] && [m] + [] == [m];
    assert [ImplBlock([m])][1..] == [];
    assert ImplSites(name, [ImplBlock([m])]) == [x];
    assert StmtSites(c) == ([x] + [y]) + [x];
    OneStatement(c);
    TurnsTaken(x, y);
    LedgerDistinct([c]);
  }

  lemma TurnsTaken(x: BodySite, y: BodySite)
    requires RangeOf()(x) == RangeOf()(y) && x.span != y.span
    ensures !GroupedByRange(([x] + [y]) + [x])
  {
    var k := RangeOf()(x);
    SelectSnoc([], x, k);
    SelectSnoc([x], y, k);
    SelectSnoc([x] + [y], x, k);
    var g := ([x] + [y]) + [x];
    assert [] + [x] == [x] && Select(g, k) == g;
    GroupedSnoc([x] + [y], x);
    assert HasSpan([x] + [y], x.span) by { assert ([x] + [y])[0].span == x.span; }
    assert !Grouped(Select(g, k));
  }
}
