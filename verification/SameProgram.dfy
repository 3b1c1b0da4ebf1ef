/** Structural equality after normalization decides "the same program". */
module SameProgram {
  import opened Wrappers
  import opened Ordering
  import opened Normalization

  // ----- The walk -----

  function NormName(n: UseName): UseName { n.(span := ZERO) }
  function NormNameOf(): UseName -> UseName { (n: UseName) => NormName(n) }

  function NormPattern(p: Pattern): Pattern {
    match p
    case Wildcard(_) => Wildcard(ZERO)
    case BindingPattern(name, _) => BindingPattern(name, ZERO)
    case Variant(ty, v, bindings, _) =>
      Variant(ty, v, seq(|bindings|, i requires 0 <= i < |bindings| => NormPattern(bindings[i])), ZERO)
  }

  function NormOpt(o: Option<Expr>, how: How): Option<Expr> {
    match o
    case None => None
    case Some(e) => Some(NormExpr(e, how))
  }

  function NormParam(p: Param, how: How): Param {
    Param(p.name, ZERO, NormOpt(p.default, how), ZERO)
  }

  function NormBody(b: ClosureBody, how: How): ClosureBody {
    match b
    case Arrow(e) => Arrow(NormExpr(e, how))
    case Block(stmts) => Block(NormStmts(stmts, how))
  }

  function NormArm(a: MatchArm, how: How): MatchArm {
    MatchArm(NormPattern(a.pattern), NormOpt(a.guard, how), NormBody(a.body, how), ZERO)
  }

  function NormExpr(e: Expr, how: How): Expr {
    match e
    case Int(v, _) => Int(v, ZERO)
    case Ident(name, _) => Ident(name, ZERO)
    case Binary(op, l, r, _) => Binary(op, NormExpr(l, how), NormExpr(r, how), ZERO)
    case Call(callee, args, _) =>
      Call(NormExpr(callee, how), seq(|args|, i requires 0 <= i < |args| => NormExpr(args[i], how)), ZERO)
    case Closure(params, body, _) =>
      Closure(seq(|params|, i requires 0 <= i < |params| => NormParam(params[i], how)), NormBody(body, how), ZERO)
    case Match(s, arms, _) =>
      Match(NormExpr(s, how), seq(|arms|, i requires 0 <= i < |arms| => NormArm(arms[i], how)), ZERO)
    case TierExpr(tier, _, statics, holes, _) =>
      TierExpr(tier, ZERO, if how.clearTierStatics then [] else statics,
               seq(|holes|, i requires 0 <= i < |holes| => NormExpr(holes[i], how)), ZERO)
  }

  function NormUse(s: Stmt): Stmt {
    if s.Use? then Use(s.path, MapSeq(NormNameOf(), s.names), ZERO) else s
  }

  function NormStmt(s: Stmt, how: How): Stmt {
    match s
    case Use(_, _, _) => NormUse(s)
    case BindingStmt(m, name, _, value, _) => BindingStmt(m, name, ZERO, NormExpr(value, how), ZERO)
    case FnStmt(name, _, params, body, _) =>
      FnStmt(name, ZERO, seq(|params|, i requires 0 <= i < |params| => NormParam(params[i], how)), NormStmts(body, how),
        ZERO)
    case If(c, t, e, _) =>
      If(NormExpr(c, how), NormStmts(t, how),
         match e { case NoElse => NoElse case Else(b) => Else(NormStmts(b, how)) }, ZERO)
    case Return(v, _) => Return(NormOpt(v, how), ZERO)
    case ExprStmt(e, _) => ExprStmt(NormExpr(e, how), ZERO)
    case TierBlock(tier, _, items, doc, attached, _) => TierBlock(tier, ZERO, NormStmts(items, how), doc, attached,
      ZERO)
  }

  /** A statement list: import runs put in order first, when asked for, then every statement visited.
      (Putting runs in order moves imports only, so every other statement is visited where it was.) */
  function NormStmts(ss: seq<Stmt>, how: How): (r: seq<Stmt>)
    ensures |r| == |ss|
  {
    CanonicalKeepsPlaces(ss);
    var cs := if how.canonicalImports then CanonicalRuns(ss) else ss;
    seq(|ss|, i requires 0 <= i < |ss| => if ss[i].Use? then NormUse(cs[i]) else NormStmt(ss[i], how))
  }

  /** A statement vector normalized in place: runs canonicalized when asked for, then each item visited. */
  method NormalizeSeq(stmts: array<Stmt>, how: How)
    modifies stmts
    ensures stmts[..] == NormStmts(old(stmts[..]), how)
  {
    ghost var ss := stmts[..];
    CanonicalKeepsPlaces(ss);
    if how.canonicalImports { CanonicalizeImportRuns(stmts); }
    ghost var cs := stmts[..];
    for k := 0 to stmts.Length
      invariant forall j :: 0 <= j < k ==> stmts[j] == NormStmt(cs[j], how)
      invariant forall j :: k <= j < stmts.Length ==> stmts[j] == cs[j]
    {
      stmts[k] := NormStmt(stmts[k], how);
    }
    assert forall j :: 0 <= j < |ss| ==> stmts[j] == NormStmts(ss, how)[j];
  }

  function Normalize(p: Program, how: How): Program {
    Program(NormStmts(p.stmts, how), ZERO)
  }

  // ----- What "the same program" means, without normalizing anything -----

  ghost predicate SamePattern(a: Pattern, b: Pattern) {
    match a
    case Wildcard(_) => b.Wildcard?
    case BindingPattern(name, _) => b.BindingPattern? && b.name == name
    case Variant(ty, v, bs, _) =>
      b.Variant? && b.typeName == ty && b.variant == v && |b.bindings| == |bs|
      && forall i :: 0 <= i < |bs| ==> SamePattern(bs[i], b.bindings[i])
  }

  ghost predicate SameOpt(a: Option<Expr>, b: Option<Expr>, how: How) {
    match a
    case None => b.None?
    case Some(e) => b.Some? && SameExpr(e, b.value, how)
  }

  ghost predicate SameParam(a: Param, b: Param, how: How) {
    a.name == b.name && SameOpt(a.default, b.default, how)
  }

  ghost predicate SameBody(a: ClosureBody, b: ClosureBody, how: How) {
    match a
    case Arrow(e) => b.Arrow? && SameExpr(e, b.expr, how)
    case Block(stmts) => b.Block? && SameStmts(stmts, b.stmts, how)
  }

  ghost predicate SameArm(a: MatchArm, b: MatchArm, how: How) {
    SamePattern(a.pattern, b.pattern) && SameOpt(a.guard, b.guard, how) && SameBody(a.body, b.body, how)
  }

  ghost predicate SameExpr(a: Expr, b: Expr, how: How) {
    match a
    case Int(v, _) => b.Int? && b.value == v
    case Ident(name, _) => b.Ident? && b.name == name
    case Binary(op, l, r, _) => b.Binary? && b.op == op && SameExpr(l, b.lhs, how) && SameExpr(r, b.rhs, how)
    case Call(callee, args, _) =>
      b.Call? && SameExpr(callee, b.callee, how) && |b.args| == |args|
      && forall i :: 0 <= i < |args| ==> SameExpr(args[i], b.args[i], how)
    case Closure(params, body, _) =>
      b.Closure? && |b.params| == |params| && (forall i :: 0 <= i < |params| ==> SameParam(params[i], b.params[i], how))
      && SameBody(body, b.body, how)
    case Match(s, arms, _) =>
      b.Match? && SameExpr(s, b.scrutinee, how) && |b.arms| == |arms|
      && forall i :: 0 <= i < |arms| ==> SameArm(arms[i], b.arms[i], how)
    case TierExpr(tier, _, statics, holes, _) =>
      b.TierExpr? && b.tier == tier && (how.clearTierStatics || b.statics == statics) && |b.holes| == |holes|
      && forall i :: 0 <= i < |holes| ==> SameExpr(holes[i], b.holes[i], how)
  }

  /** The same import, spans aside. */
  ghost predicate SameUse(a: Stmt, b: Stmt) {
    a.Use? && b.Use? && a.path == b.path && |a.names| == |b.names|
    && forall i :: 0 <= i < |a.names| ==> a.names[i].name == b.names[i].name && a.names[i].alias == b.names[i].alias
  }

  /** What an import brings in, in no order: its path, and each name with its alias. */
  type UseView = (seq<string>, multiset<NamePair>)

  function ViewOf(): Stmt -> UseView {
    (s: Stmt) => if s.Use? then (s.path, multiset(MapSeq(NameKey(), s.names))) else ([], multiset{})
  }

  /** `[lo, hi)` is a maximal run of imports. */
  ghost predicate IsRun(ss: seq<Stmt>, lo: nat, hi: nat) {
    && lo < hi <= |ss| && (forall i :: lo <= i < hi ==> ss[i].Use?)
    && (lo > 0 ==> !ss[lo - 1].Use?) && (hi < |ss| ==> !ss[hi].Use?)
  }

  /** Run by run, the same imports in some order, each with the same names in some order. */
  ghost predicate SameImportRuns(a: seq<Stmt>, b: seq<Stmt>)
    requires |a| == |b|
  {
    forall lo: nat, hi: nat :: IsRun(a, lo, hi) ==>
      multiset(MapSeq(ViewOf(), a[lo..hi])) == multiset(MapSeq(ViewOf(), b[lo..hi]))
  }

  ghost predicate SameStmt(a: Stmt, b: Stmt, how: How) {
    match a
    case Use(_, _, _) => SameUse(a, b)
    case BindingStmt(m, name, _, value, _) => b.BindingStmt? && b.mutDecl == m && b.name == name
      && SameExpr(value, b.value, how)
    case FnStmt(name, _, params, body, _) =>
      b.FnStmt? && b.name == name && |b.params| == |params|
      && (forall i :: 0 <= i < |params| ==> SameParam(params[i], b.params[i], how)) && SameStmts(body, b.body, how)
    case If(c, t, e, _) =>
      b.If? && SameExpr(c, b.cond, how) && SameStmts(t, b.thenBody, how)
      && (match e { case NoElse => b.elseBody.NoElse? case Else(s) => b.elseBody.Else?
        && SameStmts(s, b.elseBody.body, how) })
    case Return(v, _) => b.Return? && SameOpt(v, b.result, how)
    case ExprStmt(e, _) => b.ExprStmt? && SameExpr(e, b.expr, how)
    case TierBlock(tier, _, items, doc, attached, _) =>
      b.TierBlock? && b.tier == tier && b.docText == doc && b.attached == attached && SameStmts(items, b.items, how)
  }

  /** Statement lists: the same statements in the same places, imports compared one by one, or run by
      run when their order is not to count. */
  ghost predicate SameStmts(a: seq<Stmt>, b: seq<Stmt>, how: How) {
    && |a| == |b|
    && (forall i :: 0 <= i < |a| ==> (a[i].Use? <==> b[i].Use?))
    && (forall i :: 0 <= i < |a| && !a[i].Use? ==> SameStmt(a[i], b[i], how))
    && if how.canonicalImports then SameImportRuns(a, b)
       else forall i :: 0 <= i < |a| && a[i].Use? ==> SameUse(a[i], b[i])
  }

  // ----- One run of imports -----

  /** What a run normalizes to when its order does not count. */
  function NormRun(run: seq<Stmt>): seq<Stmt> {
    MapSeq(NormUseOf(), SortUses(MapSeq(SortNamesOf(), run)))
  }

  function NormUseOf(): Stmt -> Stmt { (s: Stmt) => NormUse(s) }

  ghost predicate AllUses(run: seq<Stmt>) {
    forall s :: s in run ==> s.Use?
  }

  /** Two imports normalize alike exactly when they have the same sort key. */
  lemma NormUseIsKey(a: Stmt, b: Stmt)
    requires a.Use? && b.Use?
    ensures NormUse(a) == NormUse(b) <==> UseSortKey()(a) == UseSortKey()(b)
    ensures SameUse(a, b) <==> UseSortKey()(a) == UseSortKey()(b)
  {
    var na, nb := MapSeq(NormNameOf(), a.names), MapSeq(NormNameOf(), b.names);
    var ka, kb := MapSeq(NameKey(), a.names), MapSeq(NameKey(), b.names);
    if NormUse(a) == NormUse(b) {
      assert na == nb && |a.names| == |b.names|;
      forall i | 0 <= i < |ka| ensures ka[i] == kb[i] { assert na[i] == nb[i]; }
    }
    if ka == kb {
      forall i | 0 <= i < |na| ensures na[i] == nb[i] { assert ka[i] == kb[i]; }
    }
    if SameUse(a, b) { assert ka == kb; }
    if ka == kb && a.path == b.path {
      forall i | 0 <= i < |ka| ensures a.names[i].name == b.names[i].name && a.names[i].alias == b.names[i].alias {
        assert ka[i] == kb[i];
      }
    }
  }

  lemma {:induction false} NormSeqIsKeys(a: seq<Stmt>, b: seq<Stmt>)
    requires |a| == |b| && AllUses(a) && AllUses(b)
    ensures MapSeq(NormUseOf(), a) == MapSeq(NormUseOf(), b) <==> MapSeq(UseSortKey(), a) == MapSeq(UseSortKey(), b)
  {
    var na, nb, ka, kb := MapSeq(NormUseOf(), a), MapSeq(NormUseOf(), b), MapSeq(UseSortKey(), a),
      MapSeq(UseSortKey(), b);
    forall i | 0 <= i < |a| ensures na[i] == nb[i] <==> ka[i] == kb[i] {
      NormUseIsKey(a[i], b[i]);
    }
  }

  /** Sorting the names of an import keeps what it brings in, and settles its key from that. */
  lemma SortNamesView(s: Stmt)
    requires s.Use?
    ensures ViewOf()(SortNames(s)) == ViewOf()(s)
    ensures Sorted(NameOrder(), MapSeq(NameKey(), SortNames(s).names))
  {
    OrdersAreTotal();
    SortBySorts(NameOrder(), NameKey(), s.names);
    MappedPermutation(NameKey(), SortNames(s).names, s.names);
  }

  function SortedKey(): Stmt -> UseKey { (s: Stmt) => UseSortKey()(SortNames(s)) }

  /** A run's sorted keys are those of its imports with their names sorted, in key order. */
  lemma RunKeys(run: seq<Stmt>)
    requires AllUses(run)
    ensures var sorted := SortUses(MapSeq(SortNamesOf(), run));
            && |sorted| == |run| && AllUses(sorted)
            && Sorted(KeyOrder(), MapSeq(UseSortKey(), sorted))
            && multiset(MapSeq(UseSortKey(), sorted)) == multiset(MapSeq(SortedKey(), run))
  {
    var named := MapSeq(SortNamesOf(), run);
    OrdersAreTotal();
    SortBySorts(KeyOrder(), UseSortKey(), named);
    forall s | s in named ensures s.Use? {
      var i :| 0 <= i < |named| && named[i] == s;
      assert run[i] in run;
    }
    forall s | s in SortUses(named) ensures s.Use? { assert s in multiset(SortUses(named)) && s in multiset(named); }
    MappedPermutation(UseSortKey(), SortUses(named), named);
    assert MapSeq(UseSortKey(), named) == MapSeq(SortedKey(), run);
  }

  /** Two runs normalize alike exactly when they bring in the same things. */
  lemma RunDecides(a: seq<Stmt>, b: seq<Stmt>)
    requires |a| == |b| && AllUses(a) && AllUses(b)
    ensures NormRun(a) == NormRun(b) <==> multiset(MapSeq(ViewOf(), a)) == multiset(MapSeq(ViewOf(), b))
  {
    var sa, sb := SortUses(MapSeq(SortNamesOf(), a)), SortUses(MapSeq(SortNamesOf(), b));
    RunKeys(a);
    RunKeys(b);
    NormSeqIsKeys(sa, sb);
    OrdersAreTotal();
    if multiset(MapSeq(SortedKey(), a)) == multiset(MapSeq(SortedKey(), b)) {
      SortedUnique(KeyOrder(), MapSeq(UseSortKey(), sa), MapSeq(UseSortKey(), sb));
    }
    KeysMatchViews(a, b);
  }

  function KeyView(): UseKey -> UseView { (k: UseKey) => (k.0, multiset(k.1)) }

  /** Sorted keys and views carry the same information. */
  lemma KeysMatchViews(a: seq<Stmt>, b: seq<Stmt>)
    requires AllUses(a) && AllUses(b)
    ensures multiset(MapSeq(SortedKey(), a)) == multiset(MapSeq(SortedKey(), b)) <==>
            multiset(MapSeq(ViewOf(), a)) == multiset(MapSeq(ViewOf(), b))
  {
    var ka, kb := MapSeq(SortedKey(), a), MapSeq(SortedKey(), b);
    SortedKeysView(a);
    SortedKeysView(b);
    forall x, y | (x in ka || x in kb) && (y in ka || y in kb) && KeyView()(x) == KeyView()(y) ensures x == y {
      assert Sorted(NameOrder(), x.1) && Sorted(NameOrder(), y.1);
      OrdersAreTotal();
      SortedUnique(NameOrder(), x.1, y.1);
    }
    MappedMultiset(KeyView(), ka, kb);
  }

  lemma SortedKeysView(a: seq<Stmt>)
    requires AllUses(a)
    ensures MapSeq(KeyView(), MapSeq(SortedKey(), a)) == MapSeq(ViewOf(), a)
    ensures forall k :: k in MapSeq(SortedKey(), a) ==> Sorted(NameOrder(), k.1)
  {
    forall i | 0 <= i < |a|
      ensures KeyView()(SortedKey()(a[i])) == ViewOf()(a[i]) && Sorted(NameOrder(), SortedKey()(a[i]).1)
    {
      assert a[i] in a && a[i].Use?;
      SortNamesView(a[i]);
      assert SortedKey()(a[i]) == UseSortKey()(SortNames(a[i]));
    }
  }

  // ----- Runs inside a list -----

  /** Every import stands in a maximal run. */
  lemma RunAround(ss: seq<Stmt>, k: nat) returns (lo: nat, hi: nat)
    requires k < |ss| && ss[k].Use?
    ensures IsRun(ss, lo, hi) && lo <= k < hi
  {
    lo, hi := k, k + 1;
    while lo > 0 && ss[lo - 1].Use?
      invariant lo <= k && forall i :: lo <= i <= k ==> ss[i].Use?
    {
      lo := lo - 1;
    }
    while hi < |ss| && ss[hi].Use?
      invariant k < hi <= |ss| && forall i :: lo <= i < hi ==> ss[i].Use?
    {
      hi := hi + 1;
    }
  }

  /** The head a sweep of `ss` emits first: a sorted run, or one statement. */
  lemma SortRunsHead(ss: seq<Stmt>) returns (n: nat, head: seq<Stmt>)
    requires ss != []
    ensures 0 < n <= |ss| && n == |head| && SortRuns(ss) == head + SortRuns(ss[n..])
    ensures if ss[0].Use? then n == RunLength(ss) && head == SortUses(ss[..n]) else n == 1
  {
    if ss[0].Use? {
      n := RunLength(ss);
      head := SortUses(ss[..n]);
      SortUsesKeeps(ss[..n]);
    } else {
      n, head := 1, [ss[0]];
    }
  }

  lemma SortRunsLength(ss: seq<Stmt>)
    ensures |SortRuns(ss)| == |ss|
  {
    SortRunsKeepsPlaces(ss);
  }

  /** The run `[lo, hi)` comes out sorted. */
  ghost predicate SliceSorted(ss: seq<Stmt>, lo: nat, hi: nat) {
    |SortRuns(ss)| == |ss| && lo <= hi <= |ss| && SortRuns(ss)[lo..hi] == SortUses(ss[lo..hi])
  }

  lemma FirstRunSlice(ss: seq<Stmt>, hi: nat)
    requires IsRun(ss, 0, hi)
    ensures SliceSorted(ss, 0, hi)
  {
    SortRunsLength(ss);
    var n, head := SortRunsHead(ss);
    RunEnds(ss, hi);
    assert ss[0..hi] == ss[..hi];
    HeadSlice(head, SortRuns(ss[n..]));
  }

  /** Sorting leaves a boundary at `n`. */
  ghost predicate HeadSplit(ss: seq<Stmt>, n: nat) {
    n <= |ss| && exists head :: |head| == n && SortRuns(ss) == head + SortRuns(ss[n..])
  }

  lemma HeadLength(ss: seq<Stmt>, lo: nat) returns (n: nat)
    requires 0 < lo < |ss| && !ss[lo - 1].Use?
    ensures 0 < n <= lo && HeadSplit(ss, n)
  {
    var head;
    n, head := SortRunsHead(ss);
    RunStartsAfter(ss, lo, n);
  }

  /** Past a statement that is not an import there is always a boundary. */
  lemma {:induction false} SplitAt(ss: seq<Stmt>, lo: nat)
    requires 0 < lo < |ss| && !ss[lo - 1].Use?
    ensures HeadSplit(ss, lo)
    decreases |ss|
  {
    var n := HeadLength(ss, lo);
    if n < lo {
      assert ss[n..][lo - n - 1] == ss[lo - 1];
      SplitAt(ss[n..], lo - n);
      JoinSplits(ss, n, lo);
    }
  }

  lemma JoinSplits(ss: seq<Stmt>, n: nat, lo: nat)
    requires n <= lo <= |ss| && HeadSplit(ss, n) && HeadSplit(ss[n..], lo - n)
    ensures HeadSplit(ss, lo)
  {
    var rest := ss[n..];
    assert rest[lo - n..] == ss[lo..];
    var a :| |a| == n && SortRuns(ss) == a + SortRuns(rest);
    var b :| |b| == lo - n && SortRuns(rest) == b + SortRuns(rest[lo - n..]);
    Regroup(a, b, SortRuns(ss[lo..]));
    assert |a + b| == lo;
  }

  /** Sorting all runs sorts each maximal run on its own. */
  lemma SortRunsSlice(ss: seq<Stmt>, lo: nat, hi: nat)
    requires IsRun(ss, lo, hi)
    ensures SliceSorted(ss, lo, hi)
  {
    if lo == 0 {
      FirstRunSlice(ss, hi);
    } else {
      SplitAt(ss, lo);
      RunInTail(ss, lo, hi, lo);
      FirstRunSlice(ss[lo..], hi - lo);
      SliceAfterSplit(ss, lo, hi);
    }
  }

  lemma SliceAfterSplit(ss: seq<Stmt>, lo: nat, hi: nat)
    requires lo <= hi <= |ss| && HeadSplit(ss, lo) && SliceSorted(ss[lo..], 0, hi - lo)
    ensures SliceSorted(ss, lo, hi)
  {
    var rest := ss[lo..];
    assert rest[0..hi - lo] == ss[lo..hi];
    var head :| |head| == lo && SortRuns(ss) == head + SortRuns(rest);
    SliceOfTail(head, SortRuns(rest), lo, hi);
  }

  lemma RunInTail(ss: seq<Stmt>, lo: nat, hi: nat, n: nat)
    requires IsRun(ss, lo, hi) && n <= lo
    ensures IsRun(ss[n..], lo - n, hi - n)
  {
  }

  lemma HeadSlice(head: seq<Stmt>, tail: seq<Stmt>)
    ensures (head + tail)[0..|head|] == head
  {
  }

  lemma SliceOfTail(head: seq<Stmt>, tail: seq<Stmt>, lo: nat, hi: nat)
    requires |head| <= lo <= hi <= |head| + |tail|
    ensures (head + tail)[lo..hi] == tail[lo - |head|..hi - |head|]
  {
  }

  lemma RunStartsAfter(ss: seq<Stmt>, lo: nat, n: nat)
    requires 0 < lo < |ss| && !ss[lo - 1].Use?
    requires if ss[0].Use? then n == RunLength(ss) else n == 1
    ensures n <= lo
  {
  }

  lemma CanonicalSlice(ss: seq<Stmt>, lo: nat, hi: nat, how: How)
    requires IsRun(ss, lo, hi) && how.canonicalImports
    ensures NormStmts(ss, how)[lo..hi] == NormRun(ss[lo..hi])
  {
    CanonicalRunSlice(ss, lo, hi);
    forall k: nat | lo <= k < hi ensures NormStmts(ss, how)[k] == NormUse(CanonicalRuns(ss)[k]) {
      NormUseAt(ss, how, k);
    }
    MappedSlice(CanonicalRuns(ss), NormStmts(ss, how), lo, hi);
  }

  lemma NormUseAt(ss: seq<Stmt>, how: How, k: nat)
    requires k < |ss| && ss[k].Use? && how.canonicalImports
    ensures |CanonicalRuns(ss)| == |ss| && NormStmts(ss, how)[k] == NormUse(CanonicalRuns(ss)[k])
  {
    CanonicalKeepsPlaces(ss);
  }

  lemma MappedSlice(cs: seq<Stmt>, ns: seq<Stmt>, lo: nat, hi: nat)
    requires lo <= hi <= |cs| == |ns| && forall k: nat :: lo <= k < hi ==> ns[k] == NormUse(cs[k])
    ensures ns[lo..hi] == MapSeq(NormUseOf(), cs[lo..hi])
  {
  }

  lemma CanonicalRunSlice(ss: seq<Stmt>, lo: nat, hi: nat)
    requires IsRun(ss, lo, hi)
    ensures |CanonicalRuns(ss)| == |ss| && CanonicalRuns(ss)[lo..hi] == SortUses(MapSeq(SortNamesOf(), ss[lo..hi]))
  {
    var named := MapSeq(SortNamesOf(), ss);
    assert IsRun(named, lo, hi);
    SortRunsSlice(named, lo, hi);
    assert named[lo..hi] == MapSeq(SortNamesOf(), ss[lo..hi]);
  }

  // ----- The whole tree -----

  lemma NormStmtsAt(ss: seq<Stmt>, how: How, i: nat)
    requires i < |ss|
    ensures NormStmts(ss, how)[i].Use? <==> ss[i].Use?
    ensures !ss[i].Use? ==> NormStmts(ss, how)[i] == NormStmt(ss[i], how)
    ensures ss[i].Use? && !how.canonicalImports ==> NormStmts(ss, how)[i] == NormUse(ss[i])
  {
    CanonicalKeepsPlaces(ss);
  }

  lemma RunOfBoth(a: seq<Stmt>, b: seq<Stmt>, lo: nat, hi: nat)
    requires |a| == |b| && (forall i :: 0 <= i < |a| ==> (a[i].Use? <==> b[i].Use?)) && IsRun(a, lo, hi)
    ensures IsRun(b, lo, hi) && AllUses(a[lo..hi]) && AllUses(b[lo..hi])
  {
  }

  lemma RunDecidesAt(a: seq<Stmt>, b: seq<Stmt>, lo: nat, hi: nat, how: How)
    requires |a| == |b| && how.canonicalImports && (forall i :: 0 <= i < |a| ==> (a[i].Use? <==> b[i].Use?))
      && IsRun(a, lo, hi)
    ensures NormStmts(a, how)[lo..hi] == NormStmts(b, how)[lo..hi] <==>
            multiset(MapSeq(ViewOf(), a[lo..hi])) == multiset(MapSeq(ViewOf(), b[lo..hi]))
  {
    RunOfBoth(a, b, lo, hi);
    CanonicalSlice(a, lo, hi, how);
    CanonicalSlice(b, lo, hi, how);
    RunDecides(a[lo..hi], b[lo..hi]);
  }

  ghost predicate UsesAgree(a: seq<Stmt>, na: seq<Stmt>, nb: seq<Stmt>)
    requires |a| == |na| == |nb|
  {
    forall i :: 0 <= i < |a| && a[i].Use? ==> na[i] == nb[i]
  }

  ghost predicate RunsAgree(a: seq<Stmt>, na: seq<Stmt>, nb: seq<Stmt>)
    requires |a| == |na| == |nb|
  {
    forall lo: nat, hi: nat :: IsRun(a, lo, hi) ==> na[lo..hi] == nb[lo..hi]
  }

  lemma UsesAgreeByRun(a: seq<Stmt>, na: seq<Stmt>, nb: seq<Stmt>)
    requires |a| == |na| == |nb|
    ensures UsesAgree(a, na, nb) <==> RunsAgree(a, na, nb)
  {
    if RunsAgree(a, na, nb) {
      forall i: nat | i < |a| && a[i].Use? ensures na[i] == nb[i] {
        var lo, hi := RunAround(a, i);
        assert na[i] == na[lo..hi][i - lo] && nb[i] == nb[lo..hi][i - lo];
      }
    }
  }

  /** The import runs of two lists normalize alike exactly when they bring in the same things. */
  lemma RunsDecide(a: seq<Stmt>, b: seq<Stmt>, how: How)
    requires |a| == |b| && how.canonicalImports && forall i :: 0 <= i < |a| ==> (a[i].Use? <==> b[i].Use?)
    ensures UsesAgree(a, NormStmts(a, how), NormStmts(b, how)) <==> SameImportRuns(a, b)
  {
    var na, nb := NormStmts(a, how), NormStmts(b, how);
    UsesAgreeByRun(a, na, nb);
    forall lo: nat, hi: nat | IsRun(a, lo, hi)
      ensures na[lo..hi] == nb[lo..hi] <==>
              multiset(MapSeq(ViewOf(), a[lo..hi])) == multiset(MapSeq(ViewOf(), b[lo..hi]))
    {
      RunDecidesAt(a, b, lo, hi, how);
    }
  }

  /** Statement lists normalize alike exactly when they are the same, given that for their statements. */
  lemma ListDecides(a: seq<Stmt>, b: seq<Stmt>, how: How)
    requires forall i :: 0 <= i < |a| && i < |b| && !a[i].Use? && !b[i].Use? ==>
               (NormStmt(a[i], how) == NormStmt(b[i], how) <==> SameStmt(a[i], b[i], how))
    ensures NormStmts(a, how) == NormStmts(b, how) <==> SameStmts(a, b, how)
  {
    var na, nb := NormStmts(a, how), NormStmts(b, how);
    if |a| == |b| {
      forall i | 0 <= i < |a|
        ensures (na[i].Use? <==> a[i].Use?) && (nb[i].Use? <==> b[i].Use?)
        ensures !a[i].Use? && !b[i].Use? ==> (na[i] == nb[i] <==> SameStmt(a[i], b[i], how))
        ensures a[i].Use? && b[i].Use? && !how.canonicalImports ==> (na[i] == nb[i] <==> SameUse(a[i], b[i]))
      {
        NormStmtsAt(a, how, i);
        NormStmtsAt(b, how, i);
        if a[i].Use? && b[i].Use? { NormUseIsKey(a[i], b[i]); }
      }
      if how.canonicalImports && forall i :: 0 <= i < |a| ==> (a[i].Use? <==> b[i].Use?) {
        RunsDecide(a, b, how);
      }
      AllAgree(na, nb);
    }
  }

  lemma AllAgree(na: seq<Stmt>, nb: seq<Stmt>)
    requires |na| == |nb|
    ensures na == nb <==> forall i :: 0 <= i < |na| ==> na[i] == nb[i]
  {
  }

  lemma {:induction false} DecideStmts(a: seq<Stmt>, b: seq<Stmt>, how: How)
    ensures NormStmts(a, how) == NormStmts(b, how) <==> SameStmts(a, b, how)
    decreases a, 1
  {
    forall i | 0 <= i < |a| && i < |b| && !a[i].Use? && !b[i].Use?
      ensures NormStmt(a[i], how) == NormStmt(b[i], how) <==> SameStmt(a[i], b[i], how)
    {
      DecideStmt(a[i], b[i], how);
    }
    ListDecides(a, b, how);
  }

  lemma {:induction false} DecidePatterns(a: seq<Pattern>, b: seq<Pattern>, na: seq<Pattern>, nb: seq<Pattern>)
    requires |na| == |a| && |nb| == |b|
    requires (forall i :: 0 <= i < |a| ==> na[i] == NormPattern(a[i])) && forall i :: 0 <= i < |b| ==>
      nb[i] == NormPattern(b[i])
    ensures na == nb <==> |a| == |b| && forall i :: 0 <= i < |a| ==> SamePattern(a[i], b[i])
    decreases a, 1
  {
    forall i | 0 <= i < |a| && i < |b| ensures na[i] == nb[i] <==> SamePattern(a[i], b[i]) {
      DecidePattern(a[i], b[i]);
    }
  }

  lemma {:induction false} DecidePattern(a: Pattern, b: Pattern)
    ensures NormPattern(a) == NormPattern(b) <==> SamePattern(a, b)
    decreases a, 1
  {
    if a.Variant? && b.Variant? {
      DecidePatterns(a.bindings, b.bindings, NormPattern(a).bindings, NormPattern(b).bindings);
    }
  }

  lemma {:induction false} DecideOpt(a: Option<Expr>, b: Option<Expr>, how: How)
    ensures NormOpt(a, how) == NormOpt(b, how) <==> SameOpt(a, b, how)
    decreases a, 1
  {
    if a.Some? && b.Some? { DecideExpr(a.value, b.value, how); }
  }

  lemma {:induction false} DecideParam(a: Param, b: Param, how: How)
    ensures NormParam(a, how) == NormParam(b, how) <==> SameParam(a, b, how)
    decreases a, 1
  {
    DecideOpt(a.default, b.default, how);
  }

  lemma {:induction false} DecideParams(a: seq<Param>, b: seq<Param>, na: seq<Param>, nb: seq<Param>, how: How)
    requires |na| == |a| && |nb| == |b|
    requires (forall i :: 0 <= i < |a| ==> na[i] == NormParam(a[i], how)) && forall i :: 0 <= i < |b| ==>
      nb[i] == NormParam(b[i], how)
    ensures na == nb <==> |a| == |b| && forall i :: 0 <= i < |a| ==> SameParam(a[i], b[i], how)
    decreases a, 1
  {
    forall i | 0 <= i < |a| && i < |b| ensures na[i] == nb[i] <==> SameParam(a[i], b[i], how) {
      DecideParam(a[i], b[i], how);
    }
  }

  lemma {:induction false} DecideExprs(a: seq<Expr>, b: seq<Expr>, na: seq<Expr>, nb: seq<Expr>, how: How)
    requires |na| == |a| && |nb| == |b|
    requires (forall i :: 0 <= i < |a| ==> na[i] == NormExpr(a[i], how)) && forall i :: 0 <= i < |b| ==>
      nb[i] == NormExpr(b[i], how)
    ensures na == nb <==> |a| == |b| && forall i :: 0 <= i < |a| ==> SameExpr(a[i], b[i], how)
    decreases a, 1
  {
    forall i | 0 <= i < |a| && i < |b| ensures na[i] == nb[i] <==> SameExpr(a[i], b[i], how) {
      DecideExpr(a[i], b[i], how);
    }
  }

  lemma {:induction false} DecideArms(
    a: seq<MatchArm>, b: seq<MatchArm>, na: seq<MatchArm>, nb: seq<MatchArm>, how: How)
    requires |na| == |a| && |nb| == |b|
    requires (forall i :: 0 <= i < |a| ==> na[i] == NormArm(a[i], how)) && forall i :: 0 <= i < |b| ==>
      nb[i] == NormArm(b[i], how)
    ensures na == nb <==> |a| == |b| && forall i :: 0 <= i < |a| ==> SameArm(a[i], b[i], how)
    decreases a, 1
  {
    forall i | 0 <= i < |a| && i < |b| ensures na[i] == nb[i] <==> SameArm(a[i], b[i], how) {
      DecideArm(a[i], b[i], how);
    }
  }

  lemma {:induction false} DecideBody(a: ClosureBody, b: ClosureBody, how: How)
    ensures NormBody(a, how) == NormBody(b, how) <==> SameBody(a, b, how)
    decreases a, 1
  {
    if a.Arrow? && b.Arrow? { DecideExpr(a.expr, b.expr, how); }
    if a.Block? && b.Block? { DecideStmts(a.stmts, b.stmts, how); }
  }

  lemma {:induction false} DecideArm(a: MatchArm, b: MatchArm, how: How)
    ensures NormArm(a, how) == NormArm(b, how) <==> SameArm(a, b, how)
    decreases a, 1
  {
    DecidePattern(a.pattern, b.pattern);
    DecideOpt(a.guard, b.guard, how);
    DecideBody(a.body, b.body, how);
  }

  lemma {:induction false} DecideExpr(a: Expr, b: Expr, how: How)
    ensures NormExpr(a, how) == NormExpr(b, how) <==> SameExpr(a, b, how)
    decreases a, 1
  {
    var na, nb := NormExpr(a, how), NormExpr(b, how);
    match a
    case Binary(_, l, r, _) =>
      if b.Binary? { DecideExpr(l, b.lhs, how); DecideExpr(r, b.rhs, how); }
    case Call(callee, args, _) =>
      if b.Call? { DecideExpr(callee, b.callee, how); DecideExprs(args, b.args, na.args, nb.args, how); }
    case Closure(params, body, _) =>
      if b.Closure? { DecideParams(params, b.params, na.params, nb.params, how); DecideBody(body, b.body, how); }
    case Match(s, arms, _) =>
      if b.Match? { DecideExpr(s, b.scrutinee, how); DecideArms(arms, b.arms, na.arms, nb.arms, how); }
    case TierExpr(_, _, _, holes, _) =>
      if b.TierExpr? { DecideExprs(holes, b.holes, na.holes, nb.holes, how); }
    case _ =>
  }

  lemma {:induction false} DecideStmt(a: Stmt, b: Stmt, how: How)
    ensures NormStmt(a, how) == NormStmt(b, how) <==> SameStmt(a, b, how)
    decreases a, 1
  {
    var na, nb := NormStmt(a, how), NormStmt(b, how);
    match a
    case Use(_, _, _) => if b.Use? { NormUseIsKey(a, b); }
    case BindingStmt(_, _, _, value, _) => if b.BindingStmt? { DecideExpr(value, b.value, how); }
    case FnStmt(_, _, params, body, _) =>
      if b.FnStmt? { DecideParams(params, b.params, na.params, nb.params, how); DecideStmts(body, b.body, how); }
    case If(c, t, e, _) =>
      if b.If? {
        DecideExpr(c, b.cond, how);
        DecideStmts(t, b.thenBody, how);
        if e.Else? && b.elseBody.Else? { DecideStmts(e.body, b.elseBody.body, how); }
      }
    case Return(v, _) => if b.Return? { DecideOpt(v, b.result, how); }
    case ExprStmt(e, _) => if b.ExprStmt? { DecideExpr(e, b.expr, how); }
    case TierBlock(_, _, items, _, _, _) => if b.TierBlock? { DecideStmts(items, b.items, how); }
  }

  /** **Normalized equality is sameness.** Two programs normalize to equal trees exactly when they are
      the same up to spans (and, where asked for, the order of imports and the text of tier bodies),
      at every depth. */
  lemma NormalizationDecides(p: Program, q: Program, how: How)
    ensures Normalize(p, how) == Normalize(q, how) <==> SameStmts(p.stmts, q.stmts, how)
  {
    DecideStmts(p.stmts, q.stmts, how);
  }

  // ----- Normalizing twice -----

  /** What a run brings in survives its normalization. */
  lemma RunViewKept(run: seq<Stmt>)
    requires AllUses(run)
    ensures |NormRun(run)| == |run| && multiset(MapSeq(ViewOf(), NormRun(run))) == multiset(MapSeq(ViewOf(), run))
  {
    var named := MapSeq(SortNamesOf(), run);
    var sorted := SortUses(named);
    RunKeys(run);
    SortUsesKeeps(named);
    MappedPermutation(ViewOf(), sorted, named);
    forall i | 0 <= i < |run| ensures ViewOf()(named[i]) == ViewOf()(run[i]) {
      assert run[i] in run;
      SortNamesView(run[i]);
    }
    assert MapSeq(ViewOf(), named) == MapSeq(ViewOf(), run);
    forall i | 0 <= i < |run| ensures ViewOf()(NormRun(run)[i]) == ViewOf()(sorted[i]) {
      assert sorted[i] in sorted;
      NormUseView(sorted[i]);
    }
    assert MapSeq(ViewOf(), NormRun(run)) == MapSeq(ViewOf(), sorted);
  }

  lemma NormUseView(s: Stmt)
    requires s.Use?
    ensures ViewOf()(NormUse(s)) == ViewOf()(s) && SameUse(NormUse(s), s)
  {
    assert MapSeq(NameKey(), NormUse(s).names) == MapSeq(NameKey(), s.names);
    NormUseIsKey(NormUse(s), s);
  }

  lemma RunSelf(a: seq<Stmt>, lo: nat, hi: nat, how: How)
    requires how.canonicalImports && IsRun(a, lo, hi)
    ensures multiset(MapSeq(ViewOf(), NormStmts(a, how)[lo..hi])) == multiset(MapSeq(ViewOf(), a[lo..hi]))
  {
    CanonicalSlice(a, lo, hi, how);
    RunOfBoth(a, a, lo, hi);
    RunViewKept(a[lo..hi]);
  }

  lemma RunsSelf(a: seq<Stmt>, how: How)
    requires how.canonicalImports
    ensures SameImportRuns(NormStmts(a, how), a)
  {
    var na := NormStmts(a, how);
    forall i: nat | i < |a| ensures na[i].Use? <==> a[i].Use? { NormStmtsAt(a, how, i); }
    forall lo: nat, hi: nat | IsRun(na, lo, hi)
      ensures multiset(MapSeq(ViewOf(), na[lo..hi])) == multiset(MapSeq(ViewOf(), a[lo..hi]))
    {
      RunOfBoth(na, a, lo, hi);
      RunSelf(a, lo, hi, how);
    }
  }

  /** Every tree is the same program as what it normalizes to. */
  lemma {:induction false} SelfStmts(a: seq<Stmt>, how: How)
    ensures SameStmts(NormStmts(a, how), a, how)
    decreases a, 1
  {
    var na := NormStmts(a, how);
    forall i: nat | i < |a|
      ensures na[i].Use? <==> a[i].Use?
      ensures !na[i].Use? ==> SameStmt(na[i], a[i], how)
      ensures na[i].Use? && !how.canonicalImports ==> SameUse(na[i], a[i])
    {
      NormStmtsAt(a, how, i);
      if a[i].Use? { NormUseView(a[i]); } else { SelfStmt(a[i], how); }
    }
    if how.canonicalImports { RunsSelf(a, how); }
  }

  lemma {:induction false} SelfPattern(a: Pattern)
    ensures SamePattern(NormPattern(a), a)
  {
    if a.Variant? {
      forall i | 0 <= i < |a.bindings| ensures SamePattern(NormPattern(a.bindings[i]), a.bindings[i]) {
        SelfPattern(a.bindings[i]);
      }
    }
  }

  lemma {:induction false} SelfOpt(a: Option<Expr>, how: How)
    ensures SameOpt(NormOpt(a, how), a, how)
    decreases a, 1
  {
    if a.Some? { SelfExpr(a.value, how); }
  }

  lemma {:induction false} SelfParams(a: seq<Param>, how: How)
    ensures forall i :: 0 <= i < |a| ==> SameParam(NormParam(a[i], how), a[i], how)
    decreases a, 1
  {
    forall i | 0 <= i < |a| ensures SameParam(NormParam(a[i], how), a[i], how) {
      SelfOpt(a[i].default, how);
    }
  }

  lemma {:induction false} SelfExprs(a: seq<Expr>, how: How)
    ensures forall i :: 0 <= i < |a| ==> SameExpr(NormExpr(a[i], how), a[i], how)
    decreases a, 1
  {
    forall i | 0 <= i < |a| ensures SameExpr(NormExpr(a[i], how), a[i], how) {
      SelfExpr(a[i], how);
    }
  }

  lemma {:induction false} SelfArms(a: seq<MatchArm>, how: How)
    ensures forall i :: 0 <= i < |a| ==> SameArm(NormArm(a[i], how), a[i], how)
    decreases a, 1
  {
    forall i | 0 <= i < |a| ensures SameArm(NormArm(a[i], how), a[i], how) {
      SelfArm(a[i], how);
    }
  }

  lemma {:induction false} SelfArm(a: MatchArm, how: How)
    ensures SameArm(NormArm(a, how), a, how)
    decreases a, 1
  {
    SelfPattern(a.pattern);
    SelfOpt(a.guard, how);
    SelfBody(a.body, how);
  }

  lemma {:induction false} SelfBody(a: ClosureBody, how: How)
    ensures SameBody(NormBody(a, how), a, how)
    decreases a, 1
  {
    match a
    case Arrow(e) => SelfExpr(e, how);
    case Block(stmts) => SelfStmts(stmts, how);
  }

  lemma {:induction false} SelfExpr(a: Expr, how: How)
    ensures SameExpr(NormExpr(a, how), a, how)
    decreases a, 1
  {
    match a
    case Binary(_, l, r, _) => SelfExpr(l, how); SelfExpr(r, how);
    case Call(callee, args, _) => SelfExpr(callee, how); SelfExprs(args, how);
    case Closure(params, body, _) => SelfParams(params, how); SelfBody(body, how);
    case Match(s, arms, _) => SelfExpr(s, how); SelfArms(arms, how);
    case TierExpr(_, _, _, holes, _) => SelfExprs(holes, how);
    case _ =>
  }

  lemma {:induction false} SelfStmt(a: Stmt, how: How)
    ensures SameStmt(NormStmt(a, how), a, how)
    decreases a, 1
  {
    match a
    case Use(_, _, _) => NormUseView(a);
    case BindingStmt(_, _, _, value, _) => SelfExpr(value, how);
    case FnStmt(_, _, params, body, _) => SelfParams(params, how); SelfStmts(body, how);
    case If(c, t, e, _) =>
      SelfExpr(c, how);
      SelfStmts(t, how);
      if e.Else? { SelfStmts(e.body, how); }
    case Return(v, _) => SelfOpt(v, how);
    case ExprStmt(e, _) => SelfExpr(e, how);
    case TierBlock(_, _, items, _, _, _) => SelfStmts(items, how);
  }

  /** **Normalizing twice is normalizing once.** */
  lemma NormalizeIsIdempotent(p: Program, how: How)
    ensures Normalize(Normalize(p, how), how) == Normalize(p, how)
  {
    SelfStmts(p.stmts, how);
    NormalizationDecides(Normalize(p, how), p, how);
  }
}
