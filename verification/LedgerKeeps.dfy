/** Which declaration of a span the ledger keeps, and the order of its entries. */
module LedgerKeeps {
  import opened Wrappers
  import opened Ordering
  import opened BodyLedger
  import opened LedgerLaws
  import opened LedgerOrder

  /** The first site with that span. */
  function FirstWith(ss: seq<BodySite>, sp: Span): (r: Option<BodySite>)
    ensures r.None? <==> !HasSpan(ss, sp)
    ensures r.Some? ==> exists i :: 0 <= i < |ss| && ss[i] == r.value && ss[i].span == sp && !HasSpan(ss[..i], sp)
  {
    if ss == [] then None
    else
      var init := ss[..|ss| - 1];
      HasSpanSnoc(init, ss[|ss| - 1], sp);
      assert ss == init + [ss[|ss| - 1]];
      if FirstWith(init, sp).Some? then
        assert forall i :: 0 <= i < |init| ==> init[..i] == ss[..i];
        FirstWith(init, sp)
      else if ss[|ss| - 1].span == sp then Some(ss[|ss| - 1])
      else None
  }

  lemma FirstSnoc(ss: seq<BodySite>, x: BodySite, sp: Span)
    ensures FirstWith(ss + [x], sp) ==
            if FirstWith(ss, sp).Some? then FirstWith(ss, sp) else if x.span == sp then Some(x) else None
  {
    assert (ss + [x])[..|ss|] == ss;
  }

  /** Dropping a repeat drops the later one. */
  lemma {:induction false} FirstSurvives(ss: seq<BodySite>, sp: Span)
    ensures FirstWith(Dedup(ss), sp) == FirstWith(ss, sp)
  {
    if ss != [] {
      var init, last := ss[..|ss| - 1], ss[|ss| - 1];
      var before := Dedup(init);
      FirstSurvives(init, sp);
      FirstSnoc(before, last, sp);
      if before != [] && before[|before| - 1].span == last.span {
        assert HasSpan(before, last.span);
      }
    }
  }

  /** A span's first site is that of its range's sites. */
  lemma {:induction false} FirstOfRange(ss: seq<BodySite>, sp: Span)
    ensures FirstWith(Select(ss, (sp.start, sp.end)), sp) == FirstWith(ss, sp)
  {
    if ss != [] {
      var init, last := ss[..|ss| - 1], ss[|ss| - 1];
      FirstOfRange(init, sp);
      FirstSnoc(Select(init, (sp.start, sp.end)), last, sp);
    }
  }

  /** **The ledger keeps what is walked first.** Of the sites with one span, the one listed first is the one
      walked first: an inherent method ahead of its copy in an impl block, an earlier statement ahead of a
      later one. */
  lemma FirstWalkedIsListed(ss: seq<Stmt>, sp: Span)
    ensures FirstWith(Ledger(ss), sp) == FirstWith(Sites(ss), sp)
  {
    var sorted := SortBy(RangeOrder(), RangeOf(), Sites(ss));
    FirstSurvives(sorted, sp);
    FirstOfRange(sorted, sp);
    FirstOfRange(Sites(ss), sp);
    SortKeepsSelect(Sites(ss), (sp.start, sp.end));
  }

  /** **The ledger ascends**: by where a declaration starts, then by where it ends. */
  lemma LedgerAscends(ss: seq<Stmt>, i: nat, j: nat)
    requires i < j < |Ledger(ss)|
    ensures var a, b := Ledger(ss)[i].span, Ledger(ss)[j].span;
            a.start < b.start || (a.start == b.start && a.end <= b.end)
  {
    var sorted := SortedWalk(ss);
    DedupInOrder(sorted);
    InOrderAt(Ledger(ss), i, j);
  }

  // ----- The order of the walk -----

  lemma {:induction false} WalkJoin(a: seq<Stmt>, b: seq<Stmt>)
    ensures Sites(a + b) == Sites(a) + Sites(b)
  {
    if a == [] {
      assert a + b == b;
    } else {
      assert (a + b)[0] == a[0] && (a + b)[1..] == a[1..] + b;
      WalkJoin(a[1..], b);
    }
  }

  lemma {:induction false} MethodsJoin(kind: BodyKind, owner: string, a: seq<FnDecl>, b: seq<FnDecl>)
    ensures MethodSites(kind, owner, a + b) == MethodSites(kind, owner, a) + MethodSites(kind, owner, b)
  {
    if a == [] {
      assert a + b == b;
    } else {
      assert (a + b)[0] == a[0] && (a + b)[1..] == a[1..] + b;
      MethodsJoin(kind, owner, a[1..], b);
    }
  }

  /** A function is walked ahead of what its body declares, and all of that ahead of the next statement. */
  lemma FunctionThenBody(front: seq<Stmt>, d: FnDecl, back: seq<Stmt>)
    ensures Sites(front + [Fn(d)] + back) ==
              Sites(front) + [BodySite(Function, "", d.name, d.nameSpan)] + Sites(d.body) + Sites(back)
  {
    var one := [Fn(d)];
    WalkJoin(front + one, back);
    WalkJoin(front, one);
    assert one[1..] == [];
    assert Sites(one) == StmtSites(Fn(d)) + Sites([]);
  }

  /** So is a method, with its own body, ahead of the next method. */
  lemma MethodThenBody(kind: BodyKind, owner: string, front: seq<FnDecl>, m: FnDecl, back: seq<FnDecl>)
    ensures MethodSites(kind, owner, front + [m] + back) ==
              MethodSites(kind, owner, front) + [BodySite(kind, owner, m.name, m.nameSpan)] + Sites(m.body)
              + MethodSites(kind, owner, back)
  {
    var one := [m];
    MethodsJoin(kind, owner, front + one, back);
    MethodsJoin(kind, owner, front, one);
    assert one[1..] == [];
    assert MethodSites(kind, owner, one) ==
      [BodySite(kind, owner, m.name, m.nameSpan)] + Sites(m.body) + MethodSites(kind, owner, []);
  }
}
