/** What it buys to know that a name is not mentioned: no evaluation can tell what its slot holds. */
module NameIndependence {
  import opened Wrappers
  import opened FreeNames

  // ----- How coarse the analysis is -----

  lemma {:induction false} ExactAll(es: seq<Expr>, x: string)
    ensures forall i :: 0 <= i < |es| ==> (Mentions(es[i], x) <==> Occurs(es[i], x) || HasBlockClosure(es[i]))
    decreases es, 1
  {
    forall i | 0 <= i < |es| ensures Mentions(es[i], x) <==> Occurs(es[i], x) || HasBlockClosure(es[i]) {
      MentionsIsExact(es[i], x);
    }
  }

  lemma {:induction false} ExactDefaults(ps: seq<Param>, x: string)
    ensures forall i :: 0 <= i < |ps| && ps[i].default.Some? ==>
              (Mentions(ps[i].default.value, x) <==>
                Occurs(ps[i].default.value, x) || HasBlockClosure(ps[i].default.value))
    decreases ps, 1
  {
    forall i | 0 <= i < |ps| && ps[i].default.Some?
      ensures Mentions(ps[i].default.value, x) <==>
        Occurs(ps[i].default.value, x) || HasBlockClosure(ps[i].default.value)
    {
      MentionsIsExact(ps[i].default.value, x);
    }
  }

  /** **The analysis errs in one way only.** It answers yes exactly when the name occurs, or when a
      closure with a block body does. */
  lemma {:induction false} MentionsIsExact(e: Expr, x: string)
    ensures Mentions(e, x) <==> Occurs(e, x) || HasBlockClosure(e)
    decreases e, 1
  {
    match e
    case Binary(_, l, r) => MentionsIsExact(l, x); MentionsIsExact(r, x);
    case Coalesce(l, r) => MentionsIsExact(l, x); MentionsIsExact(r, x);
    case Try(y) => MentionsIsExact(y, x);
    case ListOf(items) => ExactAll(items, x);
    case VariantOf(_, items) => ExactAll(items, x);
    case Call(callee, args) => MentionsIsExact(callee, x); ExactAll(args, x);
    case TypedCall(_, args) => ExactAll(args, x);
    case Closure(params, body) =>
      ExactDefaults(params, x);
      if body.Arrow? { MentionsIsExact(body.expr, x); }
    case Match(s, arms) => MentionsIsExact(s, x); ExactArms(arms, x);
    case _ =>
  }

  lemma {:induction false} ExactArms(arms: seq<MatchArm>, x: string)
    ensures forall i :: 0 <= i < |arms| ==>
      (ArmMentions(arms[i], x) <==> OccursInArm(arms[i], x) || ArmHasBlockClosure(arms[i]))
    decreases arms, 1
  {
    forall i | 0 <= i < |arms|
      ensures ArmMentions(arms[i], x) <==> OccursInArm(arms[i], x) || ArmHasBlockClosure(arms[i])
    {
      ExactArm(arms[i], x);
    }
  }

  lemma {:induction false} ExactArm(a: MatchArm, x: string)
    ensures ArmMentions(a, x) <==> OccursInArm(a, x) || ArmHasBlockClosure(a)
    decreases a, 1
  {
    if a.guard.Some? { MentionsIsExact(a.guard.value, x); }
    ExactBody(a.body, x);
  }

  lemma {:induction false} ExactBody(b: ClosureBody, x: string)
    ensures BodyMentions(b, x) <==> OccursInBody(b, x) || BodyHasBlockClosure(b)
    decreases b, 1
  {
    match b
    case Arrow(e) => MentionsIsExact(e, x);
    case Block(stmts) =>
      ExactStmts(stmts, x);
      if i :| 0 <= i < |stmts| && StmtMentions(stmts[i], x) {
        assert OccursInStmt(stmts[i], x) || StmtHasBlockClosure(stmts[i]);
      }
      if i :| 0 <= i < |stmts| && OccursInStmt(stmts[i], x) { assert StmtMentions(stmts[i], x); }
      if i :| 0 <= i < |stmts| && StmtHasBlockClosure(stmts[i]) { assert StmtMentions(stmts[i], x); }
  }

  lemma {:induction false} ExactStmts(ss: seq<Stmt>, x: string)
    ensures forall i :: 0 <= i < |ss| ==>
      (StmtMentions(ss[i], x) <==> OccursInStmt(ss[i], x) || StmtHasBlockClosure(ss[i]))
    decreases ss, 1
  {
    forall i | 0 <= i < |ss| ensures StmtMentions(ss[i], x) <==> OccursInStmt(ss[i], x) || StmtHasBlockClosure(ss[i]) {
      ExactStmt(ss[i], x);
    }
  }

  lemma {:induction false} ExactStmt(s: Stmt, x: string)
    ensures StmtMentions(s, x) <==> OccursInStmt(s, x) || StmtHasBlockClosure(s)
    decreases s, 1
  {
    match s
    case ExprStmt(e) => MentionsIsExact(e, x);
    case Binding(_, e) => MentionsIsExact(e, x);
    case Destructure(_, e) => MentionsIsExact(e, x);
    case Return(v) => if v.Some? { MentionsIsExact(v.value, x); }
    case If(c, t, e) => MentionsIsExact(c, x); ExactStmts(t, x); ExactStmts(e, x);
    case While(c, body) => MentionsIsExact(c, x); ExactStmts(body, x);
    case For(_, it, body) => MentionsIsExact(it, x); ExactStmts(body, x);
    case FnStmt(_, params, body) => ExactStmts(body, x); ExactDefaults(params, x);
    case _ =>
  }

  // ----- Frames that differ in one slot -----

  /** The same slots, but for what `x` holds, if anything. */
  ghost predicate Agree(a: Env, b: Env, x: string) {
    a - {x} == b - {x}
  }

  /** The slot of `x` is in `a'` what it is in `a`. */
  ghost predicate SlotKept(a: Env, a': Env, x: string) {
    (x in a <==> x in a') && (x in a ==> a'[x] == a[x])
  }

  /** From two frames that agree but for `x` to two that do: what `x` holds was left alone in both, or
      assigned, and then alike. */
  ghost predicate Moves(a: Env, b: Env, a': Env, b': Env, x: string) {
    Agree(a', b', x) && ((x in a' && a' == b') || (SlotKept(a, a', x) && SlotKept(b, b', x)))
  }

  /** The same ending, but for what `x` holds. */
  ghost predicate Same(o: Outcome, p: Outcome, x: string) {
    if o.Out? && p.Out? then o.signal == p.signal && o.value == p.value && Agree(o.env, p.env, x) else o == p
  }

  /** The same ending from `a` and from `b`, the slot of `x` left alone in both or assigned alike. */
  ghost predicate Alike(o: Outcome, p: Outcome, a: Env, b: Env, x: string) {
    Same(o, p, x) && (o.Out? ==> Moves(a, b, o.env, p.env, x))
  }

  lemma AgreeAt(a: Env, b: Env, x: string, n: string)
    requires Agree(a, b, x) && n != x
    ensures n in a <==> n in b
    ensures n in a ==> a[n] == b[n]
  {
    assert n in a - {x} <==> n in b - {x};
    if n in a { assert (a - {x})[n] == (b - {x})[n]; }
  }

  lemma AgreeIf(a: Env, b: Env, x: string)
    requires forall n :: n != x ==> (n in a <==> n in b) && (n in a ==> a[n] == b[n])
    ensures Agree(a, b, x)
  {
  }

  lemma AgreePut(a: Env, b: Env, x: string, n: string, v: Value)
    requires Agree(a, b, x)
    ensures Agree(a[n := v], b[n := v], x)
  {
    if n == x {
      assert a[n := v] - {x} == a - {x} && b[n := v] - {x} == b - {x};
    } else {
      assert a[n := v] - {x} == (a - {x})[n := v] && b[n := v] - {x} == (b - {x})[n := v];
    }
  }

  lemma AgreeAdd(a: Env, b: Env, x: string, c: Env)
    requires Agree(a, b, x)
    ensures Agree(a + c, b + c, x)
  {
    forall k | k != x
      ensures k in a + c <==> k in b + c
      ensures k in a + c ==> (a + c)[k] == (b + c)[k]
    {
      AgreeAt(a, b, x, k);
    }
    AgreeIf(a + c, b + c, x);
  }

  lemma AgreeRestore(a: Env, b: Env, a0: Env, b0: Env, x: string, names: set<string>)
    requires Agree(a, b, x) && Agree(a0, b0, x)
    ensures Agree(Restore(a, a0, names), Restore(b, b0, names), x)
  {
    var ra, rb := Restore(a, a0, names), Restore(b, b0, names);
    forall k | k != x
      ensures k in ra <==> k in rb
      ensures k in ra ==> ra[k] == rb[k]
    {
      AgreeAt(a, b, x, k);
      AgreeAt(a0, b0, x, k);
    }
    AgreeIf(ra, rb, x);
  }

  lemma Settled(a: Env, b: Env, x: string)
    requires Agree(a, b, x) && x in a && x in b && a[x] == b[x]
    ensures a == b
  {
    assert a == (a - {x})[x := a[x]] && b == (b - {x})[x := b[x]];
  }

  /** One step after another. */
  lemma MovesOn(a: Env, b: Env, a1: Env, b1: Env, a2: Env, b2: Env, x: string)
    requires Moves(a, b, a1, b1, x) && Moves(a1, b1, a2, b2, x)
    ensures Moves(a, b, a2, b2, x)
  {
    if x in a1 && a1 == b1 && SlotKept(a1, a2, x) && SlotKept(b1, b2, x) { Settled(a2, b2, x); }
  }

  lemma AlikeOn(a: Env, b: Env, a1: Env, b1: Env, o: Outcome, p: Outcome, x: string)
    requires Moves(a, b, a1, b1, x) && Alike(o, p, a1, b1, x)
    ensures Alike(o, p, a, b, x)
  {
    if o.Out? { MovesOn(a, b, a1, b1, o.env, p.env, x); }
  }

  lemma MovesPut(a: Env, b: Env, x: string, n: string, v: Value)
    requires Agree(a, b, x)
    ensures Moves(a, b, a[n := v], b[n := v], x)
  {
    AgreePut(a, b, x, n, v);
    if n == x { Settled(a[n := v], b[n := v], x); }
  }

  lemma {:induction false} MovesAssign(targets: seq<string>, vs: seq<Value>, a: Env, b: Env, x: string)
    requires |targets| == |vs| && Agree(a, b, x)
    ensures Moves(a, b, AssignAll(targets, vs, a), AssignAll(targets, vs, b), x)
    decreases |targets|
  {
    if targets != [] {
      var a1, b1 := a[targets[0] := vs[0]], b[targets[0] := vs[0]];
      MovesPut(a, b, x, targets[0], vs[0]);
      MovesAssign(targets[1..], vs[1..], a1, b1, x);
      MovesOn(a, b, a1, b1, AssignAll(targets, vs, a), AssignAll(targets, vs, b), x);
    }
  }

  /** Closing a scope that bound `bound` gives back what those names were. */
  lemma MovesRestore(a: Env, b: Env, bound: Env, a': Env, b': Env, x: string)
    requires Agree(a, b, x) && Moves(a + bound, b + bound, a', b', x)
    ensures Moves(a, b, Restore(a', a, bound.Keys), Restore(b', b, bound.Keys), x)
  {
    AgreeRestore(a', b', a, b, x, bound.Keys);
    var ra, rb := Restore(a', a, bound.Keys), Restore(b', b, bound.Keys);
    if x in bound {
      assert SlotKept(a, ra, x) && SlotKept(b, rb, x);
    } else if x in a' && a' == b' {
      Settled(ra, rb, x);
    } else {
      assert SlotKept(a, ra, x) && SlotKept(b, rb, x);
    }
  }

  lemma AlikeClosing(a: Env, b: Env, bound: Env, o: Outcome, p: Outcome, x: string)
    requires Agree(a, b, x) && Alike(o, p, a + bound, b + bound, x)
    ensures Alike(Closing(o, a, bound.Keys), Closing(p, b, bound.Keys), a, b, x)
  {
    if o.Out? { MovesRestore(a, b, bound, o.env, p.env, x); }
  }

  /** What a closure snapshots does not include a name that does not occur in it. */
  lemma AgreeSnapshot(params: seq<Param>, body: ClosureBody, a: Env, b: Env, x: string)
    requires !Occurs(Closure(params, body), x) && Agree(a, b, x)
    ensures Snapshot(params, body, a) == Snapshot(params, body, b)
  {
    var sa, sb := Snapshot(params, body, a), Snapshot(params, body, b);
    forall n ensures n in sa <==> n in sb
             ensures n in sa ==> sa[n] == sb[n]
    {
      if n != x { AgreeAt(a, b, x, n); }
    }
  }

  // ----- Evaluation does not see an unmentioned slot -----

  /** **Not mentioned, not seen.** Whatever the slot holds, the ending is the same: the same signal and
      value, the same in every other slot, and the slot itself left alone or assigned alike. */
  lemma {:induction false} Independent(e: Expr, x: string, a: Env, b: Env, fns: Functions, fuel: nat)
    requires !Mentions(e, x) && Agree(a, b, x)
    ensures Alike(Eval(e, a, fns, fuel), Eval(e, b, fns, fuel), a, b, x)
    decreases fuel, 0
  {
    if fuel > 0 {
      match e
      case Ident(n) => AgreeAt(a, b, x, n);
      case Binary(_, l, r) => IndependentTwo(l, r, x, a, b, fns, fuel - 1);
      case Coalesce(l, r) => IndependentTwo(l, r, x, a, b, fns, fuel - 1);
      case Try(y) => Independent(y, x, a, b, fns, fuel - 1);
      case Call(_, _) => IndependentCall(e, x, a, b, fns, fuel);
      case Closure(_, _) => IndependentClosure(e, x, a, b);
      case Match(_, _) => IndependentMatch(e, x, a, b, fns, fuel);
      case Int(_) =>
      case _ => IndependentItems(e, x, a, b, fns, fuel);
    }
  }

  /** Lists, variants, and calls in the function namespace: only the items can mention a slot. */
  lemma {:induction false} IndependentItems(
    e: Expr, x: string, a: Env, b: Env, fns: Functions, fuel: nat)
    requires fuel > 0 && (e.ListOf? || e.VariantOf? || e.TypedCall?) && !Mentions(e, x) && Agree(a, b, x)
    ensures Alike(Eval(e, a, fns, fuel), Eval(e, b, fns, fuel), a, b, x)
    decreases fuel - 1, 1
  {
    IndependentList(if e.TypedCall? then e.args else e.items, [], x, a, b, fns, fuel - 1);
  }

  lemma {:induction false} IndependentCall(
    e: Expr, x: string, a: Env, b: Env, fns: Functions, fuel: nat)
    requires fuel > 0 && e.Call? && !Mentions(e, x) && Agree(a, b, x)
    ensures Alike(Eval(e, a, fns, fuel), Eval(e, b, fns, fuel), a, b, x)
    decreases fuel - 1, 1
  {
    var f := fuel - 1;
    Independent(e.callee, x, a, b, fns, f);
    var c, d := Eval(e.callee, a, fns, f), Eval(e.callee, b, fns, f);
    if c.Went() {
      IndependentList(e.args, [], x, c.env, d.env, fns, f);
      AlikeOn(a, b, c.env, d.env, EvalList(e.args, [], c.env, fns, f), EvalList(e.args, [], d.env, fns, f), x);
    }
  }

  lemma IndependentClosure(e: Expr, x: string, a: Env, b: Env)
    requires e.Closure? && !Mentions(e, x) && Agree(a, b, x)
    ensures Snapshot(e.params, e.body, a) == Snapshot(e.params, e.body, b)
  {
    MentionsIsExact(e, x);
    AgreeSnapshot(e.params, e.body, a, b, x);
  }

  lemma {:induction false} IndependentMatch(
    e: Expr, x: string, a: Env, b: Env, fns: Functions, fuel: nat)
    requires fuel > 0 && e.Match? && !Mentions(e, x) && Agree(a, b, x)
    ensures Alike(Eval(e, a, fns, fuel), Eval(e, b, fns, fuel), a, b, x)
    decreases fuel - 1, 1
  {
    var f := fuel - 1;
    Independent(e.scrutinee, x, a, b, fns, f);
    var v, w := Eval(e.scrutinee, a, fns, f), Eval(e.scrutinee, b, fns, f);
    if v.Went() {
      IndependentArms(e.arms, v.value, x, v.env, w.env, fns, f);
      AlikeOn(a, b, v.env, w.env, EvalArms(e.arms, v.value, v.env, fns, f), EvalArms(e.arms, v.value, w.env, fns, f),
        x);
    }
  }

  lemma {:induction false} IndependentTwo(
    l: Expr, r: Expr, x: string, a: Env, b: Env, fns: Functions, fuel: nat)
    requires !Mentions(l, x) && !Mentions(r, x) && Agree(a, b, x)
    ensures var o, p := Eval(l, a, fns, fuel), Eval(l, b, fns, fuel);
            && Alike(o, p, a, b, x)
            && (o.Went() ==> Alike(Eval(r, o.env, fns, fuel), Eval(r, p.env, fns, fuel), a, b, x))
    decreases fuel, 1
  {
    Independent(l, x, a, b, fns, fuel);
    var o, p := Eval(l, a, fns, fuel), Eval(l, b, fns, fuel);
    if o.Went() {
      Independent(r, x, o.env, p.env, fns, fuel);
      AlikeOn(a, b, o.env, p.env, Eval(r, o.env, fns, fuel), Eval(r, p.env, fns, fuel), x);
    }
  }

  lemma {:induction false} IndependentList(
    es: seq<Expr>, done: seq<Value>, x: string, a: Env, b: Env, fns: Functions, fuel: nat)
    requires (forall i :: 0 <= i < |es| ==> !Mentions(es[i], x)) && Agree(a, b, x)
    ensures Alike(EvalList(es, done, a, fns, fuel), EvalList(es, done, b, fns, fuel), a, b, x)
    decreases fuel, 0
  {
    if fuel > 0 && es != [] {
      Independent(es[0], x, a, b, fns, fuel - 1);
      var o, p := Eval(es[0], a, fns, fuel - 1), Eval(es[0], b, fns, fuel - 1);
      if o.Went() {
        var rest, more := es[1..], done + [o.value];
        IndependentList(rest, more, x, o.env, p.env, fns, fuel - 1);
        AlikeOn(a, b, o.env, p.env, EvalList(rest, more, o.env, fns, fuel - 1),
          EvalList(rest, more, p.env, fns, fuel - 1), x);
      }
    }
  }

  lemma {:induction false} IndependentArms(
    arms: seq<MatchArm>, v: Value, x: string, a: Env, b: Env, fns: Functions, fuel: nat)
    requires (forall i :: 0 <= i < |arms| ==> !ArmMentions(arms[i], x)) && Agree(a, b, x)
    ensures Alike(EvalArms(arms, v, a, fns, fuel), EvalArms(arms, v, b, fns, fuel), a, b, x)
    decreases fuel, 0
  {
    if fuel > 0 && arms != [] {
      match MatchPattern(arms[0].pattern, v)
      case None => IndependentArms(arms[1..], v, x, a, b, fns, fuel - 1);
      case Some(bound) => IndependentArm(arms, v, bound, x, a, b, fns, fuel);
    }
  }

  /** The first arm's pattern matched. */
  lemma {:induction false} IndependentArm(
    arms: seq<MatchArm>, v: Value, bound: Env, x: string, a: Env, b: Env, fns: Functions, fuel: nat)
    requires fuel > 0 && arms != [] && MatchPattern(arms[0].pattern, v) == Some(bound)
    requires (forall i :: 0 <= i < |arms| ==> !ArmMentions(arms[i], x)) && Agree(a, b, x)
    ensures Alike(EvalArms(arms, v, a, fns, fuel), EvalArms(arms, v, b, fns, fuel), a, b, x)
    decreases fuel - 1, 1
  {
    var f := fuel - 1;
    var a0, b0 := a + bound, b + bound;
    AgreeAdd(a, b, x, bound);
    IndependentGuard(arms[0].guard, x, a0, b0, fns, f);
    var g, h := EvalGuard(arms[0].guard, a0, fns, f), EvalGuard(arms[0].guard, b0, fns, f);
    if !g.Went() {
      AlikeClosing(a, b, bound, g, h, x);
    } else if g.value == Bool(true) {
      IndependentBody(arms[0].body, x, g.env, h.env, fns, f);
      var o, p := EvalBody(arms[0].body, g.env, fns, f), EvalBody(arms[0].body, h.env, fns, f);
      AlikeOn(a0, b0, g.env, h.env, o, p, x);
      AlikeClosing(a, b, bound, o, p, x);
    } else {
      MovesRestore(a, b, bound, g.env, h.env, x);
      var a1, b1 := Restore(g.env, a, bound.Keys), Restore(h.env, b, bound.Keys);
      IndependentArms(arms[1..], v, x, a1, b1, fns, f);
      AlikeOn(a, b, a1, b1, EvalArms(arms[1..], v, a1, fns, f), EvalArms(arms[1..], v, b1, fns, f), x);
    }
  }

  lemma {:induction false} IndependentGuard(
    g: Option<Expr>, x: string, a: Env, b: Env, fns: Functions, fuel: nat)
    requires (g.Some? ==> !Mentions(g.value, x)) && Agree(a, b, x)
    ensures Alike(EvalGuard(g, a, fns, fuel), EvalGuard(g, b, fns, fuel), a, b, x)
    decreases fuel, 0
  {
    if fuel > 0 && g.Some? { Independent(g.value, x, a, b, fns, fuel - 1); }
  }

  lemma {:induction false} IndependentBody(
    body: ClosureBody, x: string, a: Env, b: Env, fns: Functions, fuel: nat)
    requires !BodyMentions(body, x) && Agree(a, b, x)
    ensures Alike(EvalBody(body, a, fns, fuel), EvalBody(body, b, fns, fuel), a, b, x)
    decreases fuel, 0
  {
    if fuel > 0 {
      match body
      case Arrow(e) => Independent(e, x, a, b, fns, fuel - 1);
      case Block(stmts) => IndependentStmts(stmts, x, a, b, fns, fuel - 1);
    }
  }

  lemma {:induction false} IndependentStmts(
    ss: seq<Stmt>, x: string, a: Env, b: Env, fns: Functions, fuel: nat)
    requires (forall i :: 0 <= i < |ss| ==> !StmtMentions(ss[i], x)) && Agree(a, b, x)
    ensures Alike(EvalStmts(ss, a, fns, fuel), EvalStmts(ss, b, fns, fuel), a, b, x)
    decreases fuel, 0
  {
    if fuel > 0 && ss != [] {
      IndependentStmt(ss[0], x, a, b, fns, fuel - 1);
      var o, p := EvalStmt(ss[0], a, fns, fuel - 1), EvalStmt(ss[0], b, fns, fuel - 1);
      if o.Went() {
        IndependentStmts(ss[1..], x, o.env, p.env, fns, fuel - 1);
        AlikeOn(a, b, o.env, p.env, EvalStmts(ss[1..], o.env, fns, fuel - 1), EvalStmts(ss[1..], p.env, fns, fuel - 1),
          x);
      }
    }
  }

  /** The same for a statement: what it assigns is not a mention, and may be the slot itself. */
  lemma {:induction false} IndependentStmt(
    s: Stmt, x: string, a: Env, b: Env, fns: Functions, fuel: nat)
    requires !StmtMentions(s, x) && Agree(a, b, x)
    ensures Alike(EvalStmt(s, a, fns, fuel), EvalStmt(s, b, fns, fuel), a, b, x)
    decreases fuel, 0
  {
    if fuel > 0 {
      match s
      case ExprStmt(e) => Independent(e, x, a, b, fns, fuel - 1);
      case Binding(_, _) => IndependentAssign(s, x, a, b, fns, fuel);
      case Destructure(_, _) => IndependentAssign(s, x, a, b, fns, fuel);
      case Return(v) => if v.Some? { Independent(v.value, x, a, b, fns, fuel - 1); }
      case If(_, _, _) => IndependentIf(s, x, a, b, fns, fuel);
      case While(_, _) => IndependentWhile(s, x, a, b, fns, fuel);
      case For(_, _, _) => IndependentForStmt(s, x, a, b, fns, fuel);
      case FnStmt(_, _, _) => IndependentFn(s, x, a, b);
      case _ =>
    }
  }

  lemma {:induction false} IndependentAssign(
    s: Stmt, x: string, a: Env, b: Env, fns: Functions, fuel: nat)
    requires fuel > 0 && (s.Binding? || s.Destructure?) && !StmtMentions(s, x) && Agree(a, b, x)
    ensures Alike(EvalStmt(s, a, fns, fuel), EvalStmt(s, b, fns, fuel), a, b, x)
    decreases fuel - 1, 1
  {
    Independent(s.value, x, a, b, fns, fuel - 1);
    var o, p := Eval(s.value, a, fns, fuel - 1), Eval(s.value, b, fns, fuel - 1);
    if o.Went() {
      if s.Binding? {
        MovesPut(o.env, p.env, x, s.name, o.value);
        MovesOn(a, b, o.env, p.env, o.env[s.name := o.value], p.env[s.name := o.value], x);
      } else if o.value.List? && |o.value.elements| == |s.targets| {
        var vs := o.value.elements;
        MovesAssign(s.targets, vs, o.env, p.env, x);
        MovesOn(a, b, o.env, p.env, AssignAll(s.targets, vs, o.env), AssignAll(s.targets, vs, p.env), x);
      }
    }
  }

  lemma IndependentFn(s: Stmt, x: string, a: Env, b: Env)
    requires s.FnStmt? && !StmtMentions(s, x) && Agree(a, b, x)
    ensures var f := Fun(s.params, Block(s.body), Snapshot(s.params, Block(s.body), a));
            && f == Fun(s.params, Block(s.body), Snapshot(s.params, Block(s.body), b))
            && Moves(a, b, a[s.name := f], b[s.name := f], x)
  {
    ExactStmts(s.body, x);
    ExactDefaults(s.params, x);
    AgreeSnapshot(s.params, Block(s.body), a, b, x);
    MovesPut(a, b, x, s.name, Fun(s.params, Block(s.body), Snapshot(s.params, Block(s.body), a)));
  }

  lemma {:induction false} IndependentIf(
    s: Stmt, x: string, a: Env, b: Env, fns: Functions, fuel: nat)
    requires fuel > 0 && s.If? && !StmtMentions(s, x) && Agree(a, b, x)
    ensures Alike(EvalStmt(s, a, fns, fuel), EvalStmt(s, b, fns, fuel), a, b, x)
    decreases fuel - 1, 1
  {
    var f := fuel - 1;
    Independent(s.cond, x, a, b, fns, f);
    var o, p := Eval(s.cond, a, fns, f), Eval(s.cond, b, fns, f);
    if o.Went() {
      var branch := if o.value == Bool(true) then s.thenBody else s.elseBody;
      IndependentStmts(branch, x, o.env, p.env, fns, f);
      AlikeOn(a, b, o.env, p.env, EvalStmts(branch, o.env, fns, f), EvalStmts(branch, p.env, fns, f), x);
    }
  }

  lemma {:induction false} IndependentWhile(
    s: Stmt, x: string, a: Env, b: Env, fns: Functions, fuel: nat)
    requires fuel > 0 && s.While? && !StmtMentions(s, x) && Agree(a, b, x)
    ensures Alike(EvalStmt(s, a, fns, fuel), EvalStmt(s, b, fns, fuel), a, b, x)
    decreases fuel - 1, 1
  {
    var f := fuel - 1;
    Independent(s.cond, x, a, b, fns, f);
    var o, p := Eval(s.cond, a, fns, f), Eval(s.cond, b, fns, f);
    if o.Went() && o.value == Bool(true) {
      IndependentStmts(s.body, x, o.env, p.env, fns, f);
      var c, d := EvalStmts(s.body, o.env, fns, f), EvalStmts(s.body, p.env, fns, f);
      AlikeOn(a, b, o.env, p.env, c, d, x);
      if c.Out? && !c.signal.Returned? && !c.signal.Broke? {
        IndependentStmt(s, x, c.env, d.env, fns, f);
        AlikeOn(a, b, c.env, d.env, EvalStmt(s, c.env, fns, f), EvalStmt(s, d.env, fns, f), x);
      }
    }
  }

  lemma {:induction false} IndependentForStmt(
    s: Stmt, x: string, a: Env, b: Env, fns: Functions, fuel: nat)
    requires fuel > 0 && s.For? && !StmtMentions(s, x) && Agree(a, b, x)
    ensures Alike(EvalStmt(s, a, fns, fuel), EvalStmt(s, b, fns, fuel), a, b, x)
    decreases fuel - 1, 1
  {
    var f := fuel - 1;
    Independent(s.iterable, x, a, b, fns, f);
    var o, p := Eval(s.iterable, a, fns, f), Eval(s.iterable, b, fns, f);
    if o.Went() && o.value.List? {
      var vs := o.value.elements;
      IndependentFor(s.variable, vs, s.body, x, o.env, p.env, fns, f);
      AlikeOn(a, b, o.env, p.env,
              EvalFor(s.variable, vs, s.body, o.env, fns, f), EvalFor(s.variable, vs, s.body, p.env, fns, f), x);
    }
  }

  lemma {:induction false} IndependentFor(
    v: string, vs: seq<Value>, body: seq<Stmt>, x: string, a: Env, b: Env, fns: Functions, fuel: nat)
    requires (forall i :: 0 <= i < |body| ==> !StmtMentions(body[i], x)) && Agree(a, b, x)
    ensures Alike(EvalFor(v, vs, body, a, fns, fuel), EvalFor(v, vs, body, b, fns, fuel), a, b, x)
    decreases fuel, 0
  {
    if fuel > 0 && vs != [] {
      var f := fuel - 1;
      var bound: Env := map[v := vs[0]];
      assert a[v := vs[0]] == a + bound && b[v := vs[0]] == b + bound && bound.Keys == {v};
      AgreeAdd(a, b, x, bound);
      IndependentStmts(body, x, a + bound, b + bound, fns, f);
      AlikeClosing(a, b, bound, EvalStmts(body, a + bound, fns, f), EvalStmts(body, b + bound, fns, f), x);
      var c := Closing(EvalStmts(body, a + bound, fns, f), a, {v});
      var d := Closing(EvalStmts(body, b + bound, fns, f), b, {v});
      if c.Out? && !c.signal.Returned? && !c.signal.Broke? {
        IndependentFor(v, vs[1..], body, x, c.env, d.env, fns, f);
        AlikeOn(a, b, c.env, d.env, EvalFor(v, vs[1..], body, c.env, fns, f), EvalFor(v, vs[1..], body, d.env, fns, f),
          x);
      }
    }
  }

  // ----- Fuel only bounds how long an evaluation is followed -----

  /** An evaluation that ends ends the same way with more fuel. */
  lemma {:induction false} MoreFuel(e: Expr, env: Env, fns: Functions, f: nat, g: nat)
    requires f <= g && Eval(e, env, fns, f) != NoFuel
    ensures Eval(e, env, fns, g) == Eval(e, env, fns, f)
    decreases f, 0
  {
    match e
    case Binary(_, l, r) => MoreFuelTwo(l, r, env, fns, f - 1, g - 1);
    case Coalesce(l, r) =>
      MoreFuel(l, env, fns, f - 1, g - 1);
      var a := Eval(l, env, fns, f - 1);
      if a.Went() && a.value == Variant("None", []) { MoreFuel(r, a.env, fns, f - 1, g - 1); }
    case Try(y) => MoreFuel(y, env, fns, f - 1, g - 1);
    case ListOf(items) => MoreFuelList(items, [], env, fns, f - 1, g - 1);
    case VariantOf(_, items) => MoreFuelList(items, [], env, fns, f - 1, g - 1);
    case Call(_, _) => MoreFuelCall(e, env, fns, f, g);
    case TypedCall(n, args) =>
      MoreFuelList(args, [], env, fns, f - 1, g - 1);
      var a := EvalList(args, [], env, fns, f - 1);
      if a.Went() && n in fns && a.value.List? {
        MoreFuelInvoke(fns[n].params, Block(fns[n].body), map[], a.value.elements, fns, f - 1, g - 1);
      }
    case Match(s, arms) =>
      MoreFuel(s, env, fns, f - 1, g - 1);
      var v := Eval(s, env, fns, f - 1);
      if v.Went() { MoreFuelArms(arms, v.value, v.env, fns, f - 1, g - 1); }
    case _ =>
  }

  lemma {:induction false} MoreFuelTwo(l: Expr, r: Expr, env: Env, fns: Functions, f: nat, g: nat)
    requires f <= g && Eval(l, env, fns, f) != NoFuel
    requires Eval(l, env, fns, f).Went() ==> Eval(r, Eval(l, env, fns, f).env, fns, f) != NoFuel
    ensures Eval(l, env, fns, g) == Eval(l, env, fns, f)
    ensures Eval(l, env, fns, f).Went() ==>
      Eval(r, Eval(l, env, fns, f).env, fns, g) == Eval(r, Eval(l, env, fns, f).env, fns, f)
    decreases f, 1
  {
    MoreFuel(l, env, fns, f, g);
    if Eval(l, env, fns, f).Went() { MoreFuel(r, Eval(l, env, fns, f).env, fns, f, g); }
  }

  lemma {:induction false} MoreFuelCall(e: Expr, env: Env, fns: Functions, f: nat, g: nat)
    requires 0 < f <= g && e.Call? && Eval(e, env, fns, f) != NoFuel
    ensures Eval(e, env, fns, g) == Eval(e, env, fns, f)
    decreases f - 1, 1
  {
    MoreFuel(e.callee, env, fns, f - 1, g - 1);
    var c := Eval(e.callee, env, fns, f - 1);
    if c.Went() {
      MoreFuelList(e.args, [], c.env, fns, f - 1, g - 1);
      var a := EvalList(e.args, [], c.env, fns, f - 1);
      if a.Went() && c.value.Fun? && a.value.List? {
        MoreFuelInvoke(c.value.params, c.value.body, c.value.captured, a.value.elements, fns, f - 1, g - 1);
      }
    }
  }

  lemma {:induction false} MoreFuelInvoke(
    params: seq<Param>, body: ClosureBody, captured: Env, args: seq<Value>, fns: Functions, f: nat, g: nat)
    requires f <= g && Invoke(params, body, captured, args, fns, f) != NoFuel
    ensures Invoke(params, body, captured, args, fns, g) == Invoke(params, body, captured, args, fns, f)
    decreases f, 0
  {
    MoreFuelParams(params, args, captured, fns, f - 1, g - 1);
    var frame := BindParams(params, args, captured, fns, f - 1);
    if frame.Went() { MoreFuelBody(body, frame.env, fns, f - 1, g - 1); }
  }

  lemma {:induction false} MoreFuelParams(
    params: seq<Param>, args: seq<Value>, frame: Env, fns: Functions, f: nat, g: nat)
    requires f <= g && BindParams(params, args, frame, fns, f) != NoFuel
    ensures BindParams(params, args, frame, fns, g) == BindParams(params, args, frame, fns, f)
    decreases f, 0
  {
    if params != [] {
      if args != [] {
        MoreFuelParams(params[1..], args[1..], frame[params[0].name := args[0]], fns, f - 1, g - 1);
      } else if params[0].default.Some? {
        MoreFuel(params[0].default.value, frame, fns, f - 1, g - 1);
        var d := Eval(params[0].default.value, frame, fns, f - 1);
        if d.Went() { MoreFuelParams(params[1..], [], d.env[params[0].name := d.value], fns, f - 1, g - 1); }
      }
    }
  }

  lemma {:induction false} MoreFuelList(es: seq<Expr>, done: seq<Value>, env: Env, fns: Functions, f: nat, g: nat)
    requires f <= g && EvalList(es, done, env, fns, f) != NoFuel
    ensures EvalList(es, done, env, fns, g) == EvalList(es, done, env, fns, f)
    decreases f, 0
  {
    if es != [] {
      MoreFuel(es[0], env, fns, f - 1, g - 1);
      var o := Eval(es[0], env, fns, f - 1);
      if o.Went() { MoreFuelList(es[1..], done + [o.value], o.env, fns, f - 1, g - 1); }
    }
  }

  lemma {:induction false} MoreFuelArms(arms: seq<MatchArm>, v: Value, env: Env, fns: Functions, f: nat, g: nat)
    requires f <= g && EvalArms(arms, v, env, fns, f) != NoFuel
    ensures EvalArms(arms, v, env, fns, g) == EvalArms(arms, v, env, fns, f)
    decreases f, 0
  {
    if arms != [] {
      match MatchPattern(arms[0].pattern, v)
      case None => MoreFuelArms(arms[1..], v, env, fns, f - 1, g - 1);
      case Some(bound) =>
        MoreFuelGuard(arms[0].guard, env + bound, fns, f - 1, g - 1);
        var o := EvalGuard(arms[0].guard, env + bound, fns, f - 1);
        if o.Went() {
          if o.value == Bool(true) {
            MoreFuelBody(arms[0].body, o.env, fns, f - 1, g - 1);
          } else {
            MoreFuelArms(arms[1..], v, Restore(o.env, env, bound.Keys), fns, f - 1, g - 1);
          }
        }
    }
  }

  lemma {:induction false} MoreFuelGuard(guard: Option<Expr>, env: Env, fns: Functions, f: nat, g: nat)
    requires f <= g && EvalGuard(guard, env, fns, f) != NoFuel
    ensures EvalGuard(guard, env, fns, g) == EvalGuard(guard, env, fns, f)
    decreases f, 0
  {
    if guard.Some? { MoreFuel(guard.value, env, fns, f - 1, g - 1); }
  }

  lemma {:induction false} MoreFuelBody(body: ClosureBody, env: Env, fns: Functions, f: nat, g: nat)
    requires f <= g && EvalBody(body, env, fns, f) != NoFuel
    ensures EvalBody(body, env, fns, g) == EvalBody(body, env, fns, f)
    decreases f, 0
  {
    match body
    case Arrow(e) => MoreFuel(e, env, fns, f - 1, g - 1);
    case Block(stmts) => MoreFuelStmts(stmts, env, fns, f - 1, g - 1);
  }

  lemma {:induction false} MoreFuelStmts(ss: seq<Stmt>, env: Env, fns: Functions, f: nat, g: nat)
    requires f <= g && EvalStmts(ss, env, fns, f) != NoFuel
    ensures EvalStmts(ss, env, fns, g) == EvalStmts(ss, env, fns, f)
    decreases f, 0
  {
    if ss != [] {
      MoreFuelStmt(ss[0], env, fns, f - 1, g - 1);
      var o := EvalStmt(ss[0], env, fns, f - 1);
      if o.Went() { MoreFuelStmts(ss[1..], o.env, fns, f - 1, g - 1); }
    }
  }

  lemma {:induction false} MoreFuelStmt(s: Stmt, env: Env, fns: Functions, f: nat, g: nat)
    requires f <= g && EvalStmt(s, env, fns, f) != NoFuel
    ensures EvalStmt(s, env, fns, g) == EvalStmt(s, env, fns, f)
    decreases f, 0
  {
    match s
    case ExprStmt(e) => MoreFuel(e, env, fns, f - 1, g - 1);
    case Binding(_, e) => MoreFuel(e, env, fns, f - 1, g - 1);
    case Destructure(_, e) => MoreFuel(e, env, fns, f - 1, g - 1);
    case Return(v) => if v.Some? { MoreFuel(v.value, env, fns, f - 1, g - 1); }
    case If(c, t, e) =>
      MoreFuel(c, env, fns, f - 1, g - 1);
      var o := Eval(c, env, fns, f - 1);
      if o.Went() { MoreFuelStmts(if o.value == Bool(true) then t else e, o.env, fns, f - 1, g - 1); }
    case While(c, body) =>
      MoreFuel(c, env, fns, f - 1, g - 1);
      var o := Eval(c, env, fns, f - 1);
      if o.Went() && o.value == Bool(true) {
        MoreFuelStmts(body, o.env, fns, f - 1, g - 1);
        var b := EvalStmts(body, o.env, fns, f - 1);
        if b.Out? && !b.signal.Returned? && !b.signal.Broke? { MoreFuelStmt(s, b.env, fns, f - 1, g - 1); }
      }
    case For(x, it, body) =>
      MoreFuel(it, env, fns, f - 1, g - 1);
      var o := Eval(it, env, fns, f - 1);
      if o.Went() && o.value.List? { MoreFuelFor(x, o.value.elements, body, o.env, fns, f - 1, g - 1); }
    case _ =>
  }

  lemma {:induction false} MoreFuelFor(
    x: string, vs: seq<Value>, body: seq<Stmt>, env: Env, fns: Functions, f: nat, g: nat)
    requires f <= g && EvalFor(x, vs, body, env, fns, f) != NoFuel
    ensures EvalFor(x, vs, body, env, fns, g) == EvalFor(x, vs, body, env, fns, f)
    decreases f, 0
  {
    if vs != [] {
      MoreFuelStmts(body, env[x := vs[0]], fns, f - 1, g - 1);
      var b := Closing(EvalStmts(body, env[x := vs[0]], fns, f - 1), env, {x});
      if b.Out? && !b.signal.Returned? && !b.signal.Broke? {
        MoreFuelFor(x, vs[1..], body, b.env, fns, f - 1, g - 1);
      }
    }
  }

  // ----- Endings, fuel aside -----

  /** `e` ends with `o`, however long that takes. */
  ghost predicate EndsAs(e: Expr, env: Env, fns: Functions, o: Outcome) {
    !o.NoFuel? && exists f: nat :: Eval(e, env, fns, f) == o
  }

  /** An expression has at most one ending. */
  lemma OneEnding(e: Expr, env: Env, fns: Functions, o: Outcome, p: Outcome)
    requires EndsAs(e, env, fns, o) && EndsAs(e, env, fns, p)
    ensures o == p
  {
    var f: nat :| Eval(e, env, fns, f) == o;
    var g: nat :| Eval(e, env, fns, g) == p;
    if f <= g { MoreFuel(e, env, fns, f, g); } else { MoreFuel(e, env, fns, g, f); }
  }

  /** **Whatever the slot holds.** If an expression that does not mention `x` ends from one frame, then it
      ends from every frame that agrees on the other slots, and alike. */
  lemma EndsAlike(e: Expr, x: string, a: Env, b: Env, fns: Functions, o: Outcome)
    requires !Mentions(e, x) && Agree(a, b, x) && EndsAs(e, a, fns, o)
    ensures exists p :: EndsAs(e, b, fns, p) && Alike(o, p, a, b, x)
  {
    var f: nat :| Eval(e, a, fns, f) == o;
    Independent(e, x, a, b, fns, f);
    assert EndsAs(e, b, fns, Eval(e, b, fns, f));
  }
}
