/** Span and import normalization: what two programs must share to be the same program. */
module Normalization {
  import opened Wrappers
  import opened Ordering

  datatype Span = Span(start: nat, end: nat, source: nat)

  const ZERO := Span(0, 0, 0)

  /** How much to erase beyond spans. */
  datatype How = How(clearTierStatics: bool, canonicalImports: bool)

  datatype UseName = UseName(name: string, span: Span, alias: Option<string>)

  datatype Pattern =
    | Wildcard(span: Span)
    | BindingPattern(name: string, span: Span)
    | Variant(typeName: Option<string>, variant: string, bindings: seq<Pattern>, span: Span)

  datatype Param = Param(name: string, nameSpan: Span, default: Option<Expr>, span: Span)
  datatype ClosureBody = Arrow(expr: Expr) | Block(stmts: seq<Stmt>)
  datatype MatchArm = MatchArm(pattern: Pattern, guard: Option<Expr>, body: ClosureBody, span: Span)

  datatype Expr =
    | Int(value: int, span: Span)
    | Ident(name: string, span: Span)
    | Binary(op: string, lhs: Expr, rhs: Expr, span: Span)
    | Call(callee: Expr, args: seq<Expr>, span: Span)
    | Closure(params: seq<Param>, body: ClosureBody, span: Span)
    | Match(scrutinee: Expr, arms: seq<MatchArm>, span: Span)
    | TierExpr(tier: string, tierSpan: Span, statics: seq<string>, holes: seq<Expr>, span: Span)

  datatype Stmt =
    | Use(path: seq<string>, names: seq<UseName>, span: Span)
    | BindingStmt(mutDecl: bool, name: string, nameSpan: Span, value: Expr, span: Span)
    | FnStmt(name: string, nameSpan: Span, params: seq<Param>, body: seq<Stmt>, span: Span)
    | If(cond: Expr, thenBody: seq<Stmt>, elseBody: ElseBody, span: Span)
    | Return(result: Option<Expr>, span: Span)
    | ExprStmt(expr: Expr, span: Span)
    | TierBlock(tier: string, tierSpan: Span, items: seq<Stmt>, docText: Option<string>, attached: bool, span: Span)

  datatype ElseBody = NoElse | Else(body: seq<Stmt>)

  datatype Program = Program(stmts: seq<Stmt>, span: Span)

  // ----- Import runs -----

  type NamePair = (string, Option<string>)
  type UseKey = (seq<string>, seq<NamePair>)

  function NameKey(): UseName -> NamePair { (n: UseName) => (n.name, n.alias) }

  function StringOrder(): (string, string) -> bool { SeqOrder(CharOrder()) }
  function NameOrder(): (NamePair, NamePair) -> bool { PairOrder(StringOrder(), OptionOrder(StringOrder())) }
  function KeyOrder(): (UseKey, UseKey) -> bool { PairOrder(SeqOrder(StringOrder()), SeqOrder(NameOrder())) }

  lemma OrdersAreTotal()
    ensures TotalOrder(StringOrder()) && TotalOrder(NameOrder()) && TotalOrder(KeyOrder())
  {
    assert TotalOrder(CharOrder());
    SeqOrderTotal(CharOrder());
    OptionOrderTotal(StringOrder());
    PairOrderTotal(StringOrder(), OptionOrder(StringOrder()));
    SeqOrderTotal(StringOrder());
    SeqOrderTotal(NameOrder());
    PairOrderTotal(SeqOrder(StringOrder()), SeqOrder(NameOrder()));
  }

  /** The sort key of an import: its path, then its names with their aliases. */
  function UseSortKey(): Stmt -> UseKey {
    (s: Stmt) => if s.Use? then (s.path, MapSeq(NameKey(), s.names)) else ([], [])
  }

  /** The names inside an import, sorted. */
  function SortNames(s: Stmt): Stmt {
    if s.Use? then s.(names := SortBy(NameOrder(), NameKey(), s.names)) else s
  }

  function SortNamesOf(): Stmt -> Stmt { (s: Stmt) => SortNames(s) }

  function SortUses(run: seq<Stmt>): seq<Stmt> {
    SortBy(KeyOrder(), UseSortKey(), run)
  }

  /** How many imports `ss` starts with. */
  function RunLength(ss: seq<Stmt>): (n: nat)
    ensures n <= |ss| && (forall i :: 0 <= i < n ==> ss[i].Use?) && (n < |ss| ==> !ss[n].Use?)
  {
    if ss == [] || !ss[0].Use? then 0 else 1 + RunLength(ss[1..])
  }

  /** Each contiguous run of imports sorted where it stands. */
  function SortRuns(ss: seq<Stmt>): seq<Stmt> {
    if ss == [] then []
    else if !ss[0].Use? then [ss[0]] + SortRuns(ss[1..])
    else SortUses(ss[..RunLength(ss)]) + SortRuns(ss[RunLength(ss)..])
  }

  function CanonicalRuns(ss: seq<Stmt>): seq<Stmt> {
    SortRuns(MapSeq(SortNamesOf(), ss))
  }

  lemma SortUsesKeeps(run: seq<Stmt>)
    ensures |SortUses(run)| == |run| && multiset(SortUses(run)) == multiset(run)
    ensures (forall i :: 0 <= i < |run| ==> run[i].Use?) ==> forall i :: 0 <= i < |run| ==> SortUses(run)[i].Use?
  {
    OrdersAreTotal();
    SortBySorts(KeyOrder(), UseSortKey(), run);
    if forall i :: 0 <= i < |run| ==> run[i].Use? {
      forall i | 0 <= i < |run| ensures SortUses(run)[i].Use? {
        assert SortUses(run)[i] in multiset(run);
      }
    }
  }

  /** Sorting runs moves imports within their run and nothing else. */
  lemma {:induction false} SortRunsKeepsPlaces(ss: seq<Stmt>)
    ensures |SortRuns(ss)| == |ss|
    ensures forall i :: 0 <= i < |ss| ==> (SortRuns(ss)[i].Use? <==> ss[i].Use?)
    ensures forall i :: 0 <= i < |ss| && !ss[i].Use? ==> SortRuns(ss)[i] == ss[i]
  {
    if ss != [] {
      var n := if ss[0].Use? then RunLength(ss) else 1;
      var head := if ss[0].Use? then SortUses(ss[..n]) else [ss[0]];
      if ss[0].Use? { SortUsesKeeps(ss[..n]); }
      SortRunsKeepsPlaces(ss[n..]);
      var tail := SortRuns(ss[n..]);
      assert SortRuns(ss) == head + tail;
      forall i | 0 <= i < |ss|
        ensures (SortRuns(ss)[i].Use? <==> ss[i].Use?) && (!ss[i].Use? ==> SortRuns(ss)[i] == ss[i])
      {
        assert SortRuns(ss)[i] == if i < n then head[i] else tail[i - n];
        if i >= n { assert ss[i] == ss[n..][i - n]; }
      }
    }
  }

  lemma CanonicalKeepsPlaces(ss: seq<Stmt>)
    ensures |CanonicalRuns(ss)| == |ss|
    ensures forall i :: 0 <= i < |ss| ==> (CanonicalRuns(ss)[i].Use? <==> ss[i].Use?)
    ensures forall i :: 0 <= i < |ss| && !ss[i].Use? ==> CanonicalRuns(ss)[i] == ss[i]
  {
    SortRunsKeepsPlaces(MapSeq(SortNamesOf(), ss));
  }

  /** Sort the slice `[lo, hi)` of the statement vector by import key, stably. */
  method SortSlice(stmts: array<Stmt>, lo: nat, hi: nat)
    requires lo <= hi <= stmts.Length
    modifies stmts
    ensures stmts[lo..hi] == SortUses(old(stmts[lo..hi]))
    ensures forall k :: 0 <= k < lo || hi <= k < stmts.Length ==> stmts[k] == old(stmts[k])
  {
    var sorted := SortUses(stmts[lo..hi]);
    SortUsesKeeps(stmts[lo..hi]);
    for k := lo to hi
      invariant forall j :: lo <= j < k ==> stmts[j] == sorted[j - lo]
      invariant forall j :: 0 <= j < lo || hi <= j < stmts.Length ==> stmts[j] == old(stmts[j])
    {
      stmts[k] := sorted[k - lo];
    }
    assert forall j :: 0 <= j < hi - lo ==> stmts[lo..hi][j] == sorted[j];
  }

  /** Sort the names inside every import. */
  method SortAllNames(stmts: array<Stmt>)
    modifies stmts
    ensures stmts[..] == MapSeq(SortNamesOf(), old(stmts[..]))
  {
    for k := 0 to stmts.Length
      invariant forall j :: 0 <= j < k ==> stmts[j] == SortNames(old(stmts[j]))
      invariant forall j :: k <= j < stmts.Length ==> stmts[j] == old(stmts[j])
    {
      stmts[k] := SortNames(stmts[k]);
    }
  }

  /** Sort the run of imports that starts at `start`; `end` is where it stops. */
  method SortRunAt(stmts: array<Stmt>, start: nat) returns (end: nat)
    requires start < stmts.Length && stmts[start].Use?
    modifies stmts
    ensures start < end <= stmts.Length && end - start == RunLength(old(stmts[start..]))
    ensures stmts[start..end] == SortUses(old(stmts[start..end]))
    ensures forall k :: 0 <= k < start || end <= k < stmts.Length ==> stmts[k] == old(stmts[k])
  {
    end := start;
    while end < stmts.Length && stmts[end].Use?
      invariant start <= end <= stmts.Length
      invariant forall k :: start <= k < end ==> stmts[k].Use?
    {
      end := end + 1;
    }
    RunEnds(stmts[start..], end - start);
    SortSlice(stmts, start, end);
  }

  /** One step of the sweep at `i`: sort the run that starts there, or pass over one statement. */
  method SweepStep(stmts: array<Stmt>, i: nat) returns (next: nat)
    requires i < stmts.Length
    modifies stmts
    ensures i < next <= stmts.Length && IsHead(old(stmts[i..]), stmts[i..next], next - i)
    ensures forall k :: 0 <= k < i || next <= k < stmts.Length ==> stmts[k] == old(stmts[k])
  {
    ghost var rest := stmts[i..];
    assert rest[0] == stmts[i];
    if stmts[i].Use? {
      next := SortRunAt(stmts, i);
      assert rest[..next - i] == old(stmts[i..next]);
    } else {
      next := i + 1;
    }
  }

  /** `head` is what a sweep of `rest` makes of its first `n` statements. */
  ghost predicate IsHead(rest: seq<Stmt>, head: seq<Stmt>, n: nat) {
    && 0 < n <= |rest|
    && if rest[0].Use? then n == RunLength(rest) && head == SortUses(rest[..n]) else n == 1 && head == [rest[0]]
  }

  /** The sweep of `named` has reached `i`: what stands before is sorted, the rest untouched. */
  ghost predicate Swept(now: seq<Stmt>, named: seq<Stmt>, i: nat) {
    i <= |now| == |named| && now[i..] == named[i..] && now[..i] + SortRuns(named[i..]) == SortRuns(named)
  }

  /** Sort each contiguous run of imports where it stands. */
  method SortAllRuns(stmts: array<Stmt>)
    modifies stmts
    ensures stmts[..] == SortRuns(old(stmts[..]))
  {
    ghost var named := stmts[..];
    var i := 0;
    assert named[0..] == named && named[..0] == [];
    while i < stmts.Length
      invariant Swept(stmts[..], named, i)
    {
      ghost var before, start := stmts[..], i;
      i := SweepStep(stmts, i);
      SweptNext(before, stmts[..], named, start, i);
    }
    assert named[i..] == [] && stmts[..][..i] == stmts[..];
  }

  lemma SweptNext(before: seq<Stmt>, after: seq<Stmt>, named: seq<Stmt>, start: nat, i: nat)
    requires Swept(before, named, start) && start <= i <= |after| == |before|
    requires IsHead(before[start..], after[start..i], i - start)
    requires forall k :: 0 <= k < start || i <= k < |after| ==> after[k] == before[k]
    ensures Swept(after, named, i)
  {
    ExtendDone(before[..start], named[start..], after[start..i], i - start);
    NextParts(before, after, named, start, i);
  }

  lemma NextParts(before: seq<Stmt>, after: seq<Stmt>, named: seq<Stmt>, start: nat, i: nat)
    requires start <= i <= |after| == |named| == |before| && before[start..] == named[start..]
    requires forall k :: 0 <= k < start || i <= k < |after| ==> after[k] == before[k]
    ensures after[..i] == before[..start] + after[start..i] && named[start..][i - start..] == named[i..]
    ensures after[i..] == named[i..]
  {
    assert forall k :: i <= k < |named| ==>
      before[k] == before[start..][k - start] && named[k] == named[start..][k - start];
  }

  /** One more step of the sweep: a sorted run, or a statement that is not an import. */
  lemma ExtendDone(done: seq<Stmt>, rest: seq<Stmt>, head: seq<Stmt>, n: nat)
    requires IsHead(rest, head, n)
    ensures done + SortRuns(rest) == (done + head) + SortRuns(rest[n..])
  {
    Regroup(done, head, SortRuns(rest[n..]));
  }

  lemma Regroup(a: seq<Stmt>, b: seq<Stmt>, c: seq<Stmt>)
    ensures a + (b + c) == (a + b) + c
  {
  }

  lemma {:induction false} RunEnds(ss: seq<Stmt>, n: nat)
    requires n <= |ss| && (forall i :: 0 <= i < n ==> ss[i].Use?) && (n < |ss| ==> !ss[n].Use?)
    ensures RunLength(ss) == n
  {
    if n > 0 { RunEnds(ss[1..], n - 1); }
  }

  /** Sort the names inside every import, then each contiguous run of imports, in place. */
  method CanonicalizeImportRuns(stmts: array<Stmt>)
    modifies stmts
    ensures stmts[..] == CanonicalRuns(old(stmts[..]))
  {
    SortAllNames(stmts);
    SortAllRuns(stmts);
  }
}
