/** The in-place self-append: `x = x ~ rhs` with the list taken out of its slot before `rhs` runs. */
module SlotReuse {
  import opened Wrappers
  import opened FreeNames
  import opened NameIndependence

  /** `x = x ~ rhs` the short way: take the list out of its slot, leave the slot empty, evaluate, put
      the longer list back. */
  function SelfAppend(x: string, rhs: Expr, env: Env, fns: Functions, fuel: nat): Outcome {
    if x !in env then Fault else
    var o := Eval(rhs, env - {x}, fns, fuel);
    if !o.Went() then o else
    match Operate(Append, env[x], o.value)
    case None => Fault
    case Some(v) => Out(Normal, Unit, o.env[x := v])
  }

  function OrdinaryAppend(x: string, rhs: Expr): Stmt {
    Binding(x, Binary(Append, Ident(x), rhs))
  }

  /** The right-hand side was left early by a jump. */
  predicate Jumped(o: Outcome) {
    o.Out? && !o.signal.Normal?
  }

  /** **When emptying the slot first is safe.** Where the right-hand side does not mention the name, the
      short way ends exactly as the ordinary assignment does, unless a jump leaves the right-hand side
      early before anything is assigned to the slot. Every other slot agrees even then. */
  lemma VacatingIsSafe(x: string, rhs: Expr, env: Env, fns: Functions, fuel: nat)
    requires !Mentions(rhs, x) && fuel > 0
    ensures var short := SelfAppend(x, rhs, env, fns, fuel);
            var ordinary := EvalStmt(OrdinaryAppend(x, rhs), env, fns, fuel + 2);
            && Same(short, ordinary, x)
            && (short == ordinary <==> (Jumped(short) ==> x in short.env))
  {
    var e := Binary(Append, Ident(x), rhs);
    assert Eval(Ident(x), env, fns, fuel) == if x in env then Out(Normal, env[x], env) else Fault;
    assert x !in env ==> Eval(e, env, fns, fuel + 1) == Fault;
    if x in env {
      assert Agree(env - {x}, env, x);
      Independent(rhs, x, env - {x}, env, fns, fuel);
      var o, p := Eval(rhs, env - {x}, fns, fuel), Eval(rhs, env, fns, fuel);
      if o.Went() && env[x].List? {
        var v := List(env[x].elements + [o.value]);
        AgreePut(o.env, p.env, x, x, v);
        Settled(o.env[x := v], p.env[x := v], x);
      }
    }
  }

  /** The guard is needed: `x = x ~ x` reads the emptied slot. */
  lemma MentionedSlotIsRead()
    ensures var env: Env := map["x" := List([])];
            && EvalStmt(OrdinaryAppend("x", Ident("x")), env, map[], 3) ==
              Out(Normal, Unit, map["x" := List([List([])])])
            && SelfAppend("x", Ident("x"), env, map[], 1) == Fault
  {
    var env: Env := map["x" := List([])];
    assert Eval(Ident("x"), env, map[], 1) == Out(Normal, List([]), env);
    assert Operate(Append, List([]), List([])) == Some(List([] + [List([])]));
    assert [] + [List([])] == [List([])];
    assert Eval(Binary(Append, Ident("x"), Ident("x")), env, map[], 2) == Out(Normal, List([List([])]), env);
    assert env["x" := List([List([])])] == map["x" := List([List([])])];
  }

  // ----- An input on which it is not -----

  /** `match 0 { _ => { continue } }`. */
  function ContinueInArm(): Expr {
    Match(Int(0), [MatchArm(Wildcard, None, Block([Continue]))])
  }

  lemma ContinueInArmEnds(env: Env, fns: Functions)
    ensures Eval(ContinueInArm(), env, fns, 5) == Out(Continued, Unit, env)
  {
    var arms := [MatchArm(Wildcard, None, Block([Continue]))];
    assert env + map[] == env && Restore(env, env, {}) == env;
    assert Eval(Int(0), env, fns, 4) == Out(Normal, Num(0), env);
    assert MatchPattern(Wildcard, Num(0)) == Some(map[]);
    assert EvalGuard(None, env, fns, 3) == Out(Normal, Bool(true), env);
    assert EvalStmt(Continue, env, fns, 1) == Out(Continued, Unit, env);
    assert EvalStmts([Continue], env, fns, 2) == Out(Continued, Unit, env);
    assert EvalBody(Block([Continue]), env, fns, 3) == Out(Continued, Unit, env);
    assert EvalArms(arms, Num(0), env, fns, 4) == Out(Continued, Unit, env);
  }

  /** **Not reading the slot is not enough.** `x = x ~ match 0 { _ => { continue } }` does not mention `x` on
      its right, and the short way loses what `x` held. */
  lemma JumpLosesSlot(v: Value)
    ensures var env: Env := map["x" := v];
            && !Mentions(ContinueInArm(), "x")
            && SelfAppend("x", ContinueInArm(), env, map[], 5) == Out(Continued, Unit, map[])
            && EvalStmt(OrdinaryAppend("x", ContinueInArm()), env, map[], 7) == Out(Continued, Unit, env)
  {
    var env: Env := map["x" := v];
    assert env - {"x"} == map[];
    ContinueInArmEnds(map[], map[]);
    ContinueInArmEnds(env, map[]);
    assert Eval(Ident("x"), env, map[], 5) == Out(Normal, v, env);
    assert Eval(Binary(Append, Ident("x"), ContinueInArm()), env, map[], 6) == Out(Continued, Unit, env);
    assert !StmtMentions(Continue, "x");
  }

  // ----- A test that can be made beforehand -----

  /** Whether a jump may leave `e`: a `?`, or a block arm's `return`, or its `break` or `continue` where no
      loop inside `e` takes it (`inLoop`: one outside does). A closure's jumps are its own. */
  predicate Jumps(e: Expr, inLoop: bool) {
    match e
    case Int(_) => false
    case Ident(_) => false
    case Binary(_, l, r) => Jumps(l, inLoop) || Jumps(r, inLoop)
    case Coalesce(l, r) => Jumps(l, inLoop) || Jumps(r, inLoop)
    case Try(_) => true
    case ListOf(items) => exists i :: 0 <= i < |items| && Jumps(items[i], inLoop)
    case VariantOf(_, items) => exists i :: 0 <= i < |items| && Jumps(items[i], inLoop)
    case Call(callee, args) => Jumps(callee, inLoop) || exists i :: 0 <= i < |args| && Jumps(args[i], inLoop)
    case TypedCall(_, args) => exists i :: 0 <= i < |args| && Jumps(args[i], inLoop)
    case Closure(_, _) => false
    case Match(s, arms) => Jumps(s, inLoop) || exists i :: 0 <= i < |arms| && ArmJumps(arms[i], inLoop)
  }

  predicate ArmJumps(a: MatchArm, inLoop: bool) {
    (a.guard.Some? && Jumps(a.guard.value, inLoop)) || BodyJumps(a.body, inLoop)
  }

  predicate BodyJumps(b: ClosureBody, inLoop: bool) {
    match b
    case Arrow(e) => Jumps(e, inLoop)
    case Block(stmts) => exists i :: 0 <= i < |stmts| && StmtJumps(stmts[i], inLoop)
  }

  predicate StmtJumps(s: Stmt, inLoop: bool) {
    match s
    case ExprStmt(e) => Jumps(e, inLoop)
    case Binding(_, value) => Jumps(value, inLoop)
    case Destructure(_, value) => Jumps(value, inLoop)
    case Return(_) => true
    case If(c, t, e) =>
      Jumps(c, inLoop) || (exists i :: 0 <= i < |t| && StmtJumps(t[i], inLoop))
      || exists i :: 0 <= i < |e| && StmtJumps(e[i], inLoop)
    case While(c, body) => Jumps(c, inLoop) || exists i :: 0 <= i < |body| && StmtJumps(body[i], true)
    case For(_, it, body) => Jumps(it, inLoop) || exists i :: 0 <= i < |body| && StmtJumps(body[i], true)
    case FnStmt(_, _, _) => false
    case Break => !inLoop
    case Continue => !inLoop
    case Use => false
  }

  /** An ending that stays inside, or goes no further than the loop around. */
  predicate Stays(o: Outcome, inLoop: bool) {
    o.Out? ==> o.signal.Normal? || (inLoop && !o.signal.Returned?)
  }

  lemma {:induction false} ExprStays(e: Expr, l: bool, env: Env, fns: Functions, fuel: nat)
    requires !Jumps(e, l)
    ensures Stays(Eval(e, env, fns, fuel), l)
    decreases fuel, 0
  {
    if fuel > 0 {
      var f := fuel - 1;
      match e
      case Binary(_, a, b) => BothStay(a, b, l, env, fns, f);
      case Coalesce(a, b) => BothStay(a, b, l, env, fns, f);
      case ListOf(items) => ListStays(items, [], l, env, fns, f);
      case VariantOf(_, items) => ListStays(items, [], l, env, fns, f);
      case Call(_, _) => CallStays(e, l, env, fns, fuel);
      case TypedCall(_, args) => ListStays(args, [], l, env, fns, f);
      case Match(_, _) => MatchStays(e, l, env, fns, fuel);
      case _ =>
    }
  }

  lemma {:induction false} CallStays(e: Expr, l: bool, env: Env, fns: Functions, fuel: nat)
    requires fuel > 0 && e.Call? && !Jumps(e, l)
    ensures Stays(Eval(e, env, fns, fuel), l)
    decreases fuel - 1, 1
  {
    ExprStays(e.callee, l, env, fns, fuel - 1);
    var c := Eval(e.callee, env, fns, fuel - 1);
    if c.Went() { ListStays(e.args, [], l, c.env, fns, fuel - 1); }
  }

  lemma {:induction false} MatchStays(e: Expr, l: bool, env: Env, fns: Functions, fuel: nat)
    requires fuel > 0 && e.Match? && !Jumps(e, l)
    ensures Stays(Eval(e, env, fns, fuel), l)
    decreases fuel - 1, 1
  {
    ExprStays(e.scrutinee, l, env, fns, fuel - 1);
    var v := Eval(e.scrutinee, env, fns, fuel - 1);
    if v.Went() { ArmsStay(e.arms, v.value, l, v.env, fns, fuel - 1); }
  }

  lemma {:induction false} BothStay(a: Expr, b: Expr, l: bool, env: Env, fns: Functions, fuel: nat)
    requires !Jumps(a, l) && !Jumps(b, l)
    ensures var o := Eval(a, env, fns, fuel);
            Stays(o, l) && (o.Went() ==> Stays(Eval(b, o.env, fns, fuel), l))
    decreases fuel, 1
  {
    ExprStays(a, l, env, fns, fuel);
    var o := Eval(a, env, fns, fuel);
    if o.Went() { ExprStays(b, l, o.env, fns, fuel); }
  }

  lemma {:induction false} ListStays(es: seq<Expr>, done: seq<Value>, l: bool, env: Env, fns: Functions, fuel: nat)
    requires forall i :: 0 <= i < |es| ==> !Jumps(es[i], l)
    ensures Stays(EvalList(es, done, env, fns, fuel), l)
    decreases fuel, 0
  {
    if fuel > 0 && es != [] {
      ExprStays(es[0], l, env, fns, fuel - 1);
      var o := Eval(es[0], env, fns, fuel - 1);
      if o.Went() { ListStays(es[1..], done + [o.value], l, o.env, fns, fuel - 1); }
    }
  }

  lemma {:induction false} ArmsStay(arms: seq<MatchArm>, v: Value, l: bool, env: Env, fns: Functions, fuel: nat)
    requires forall i :: 0 <= i < |arms| ==> !ArmJumps(arms[i], l)
    ensures Stays(EvalArms(arms, v, env, fns, fuel), l)
    decreases fuel, 0
  {
    if fuel > 0 && arms != [] {
      var f := fuel - 1;
      match MatchPattern(arms[0].pattern, v)
      case None => ArmsStay(arms[1..], v, l, env, fns, f);
      case Some(bound) =>
        GuardStays(arms[0].guard, l, env + bound, fns, f);
        var g := EvalGuard(arms[0].guard, env + bound, fns, f);
        if g.Went() && g.value == Bool(true) { BodyStays(arms[0].body, l, g.env, fns, f); }
        if g.Went() && g.value != Bool(true) { ArmsStay(arms[1..], v, l, Restore(g.env, env, bound.Keys), fns, f); }
    }
  }

  lemma {:induction false} GuardStays(guard: Option<Expr>, l: bool, env: Env, fns: Functions, fuel: nat)
    requires guard.Some? ==> !Jumps(guard.value, l)
    ensures Stays(EvalGuard(guard, env, fns, fuel), l)
    decreases fuel, 0
  {
    if fuel > 0 && guard.Some? { ExprStays(guard.value, l, env, fns, fuel - 1); }
  }

  lemma {:induction false} BodyStays(b: ClosureBody, l: bool, env: Env, fns: Functions, fuel: nat)
    requires !BodyJumps(b, l)
    ensures Stays(EvalBody(b, env, fns, fuel), l)
    decreases fuel, 0
  {
    if fuel > 0 {
      match b
      case Arrow(e) => ExprStays(e, l, env, fns, fuel - 1);
      case Block(stmts) => StmtsStay(stmts, l, env, fns, fuel - 1);
    }
  }

  lemma {:induction false} StmtsStay(ss: seq<Stmt>, l: bool, env: Env, fns: Functions, fuel: nat)
    requires forall i :: 0 <= i < |ss| ==> !StmtJumps(ss[i], l)
    ensures Stays(EvalStmts(ss, env, fns, fuel), l)
    decreases fuel, 0
  {
    if fuel > 0 && ss != [] {
      StmtStays(ss[0], l, env, fns, fuel - 1);
      var o := EvalStmt(ss[0], env, fns, fuel - 1);
      if o.Went() { StmtsStay(ss[1..], l, o.env, fns, fuel - 1); }
    }
  }

  lemma {:induction false} StmtStays(s: Stmt, l: bool, env: Env, fns: Functions, fuel: nat)
    requires !StmtJumps(s, l)
    ensures Stays(EvalStmt(s, env, fns, fuel), l)
    decreases fuel, 0
  {
    if fuel > 0 {
      var f := fuel - 1;
      match s
      case ExprStmt(e) => ExprStays(e, l, env, fns, f);
      case Binding(_, e) => ExprStays(e, l, env, fns, f);
      case Destructure(_, e) => ExprStays(e, l, env, fns, f);
      case If(c, t, e) =>
        ExprStays(c, l, env, fns, f);
        var o := Eval(c, env, fns, f);
        if o.Went() { StmtsStay(if o.value == Bool(true) then t else e, l, o.env, fns, f); }
      case While(_, _) => WhileStays(s, l, env, fns, fuel);
      case For(x, it, body) =>
        ExprStays(it, l, env, fns, f);
        var o := Eval(it, env, fns, f);
        if o.Went() && o.value.List? { ForStays(x, o.value.elements, body, l, o.env, fns, f); }
      case _ =>
    }
  }

  lemma {:induction false} WhileStays(s: Stmt, l: bool, env: Env, fns: Functions, fuel: nat)
    requires fuel > 0 && s.While? && !StmtJumps(s, l)
    ensures Stays(EvalStmt(s, env, fns, fuel), l)
    decreases fuel - 1, 1
  {
    var f := fuel - 1;
    ExprStays(s.cond, l, env, fns, f);
    var o := Eval(s.cond, env, fns, f);
    if o.Went() && o.value == Bool(true) {
      StmtsStay(s.body, true, o.env, fns, f);
      var b := EvalStmts(s.body, o.env, fns, f);
      if b.Out? && !b.signal.Broke? { StmtStays(s, l, b.env, fns, f); }
    }
  }

  lemma {:induction false} ForStays(
    x: string, vs: seq<Value>, body: seq<Stmt>, l: bool, env: Env, fns: Functions, fuel: nat)
    requires forall i :: 0 <= i < |body| ==> !StmtJumps(body[i], true)
    ensures Stays(EvalFor(x, vs, body, env, fns, fuel), l)
    decreases fuel, 0
  {
    if fuel > 0 && vs != [] {
      var f := fuel - 1;
      StmtsStay(body, true, env[x := vs[0]], fns, f);
      var b := Closing(EvalStmts(body, env[x := vs[0]], fns, f), env, {x});
      if b.Out? && !b.signal.Broke? { ForStays(x, vs[1..], body, l, b.env, fns, f); }
    }
  }

  /** **A test that suffices.** Where the right-hand side neither mentions the name nor may jump out, the
      short way is the ordinary assignment, from every frame. */
  lemma SafeWithoutJumps(x: string, rhs: Expr, env: Env, fns: Functions, fuel: nat)
    requires !Mentions(rhs, x) && !Jumps(rhs, false) && fuel > 0
    ensures SelfAppend(x, rhs, env, fns, fuel) == EvalStmt(OrdinaryAppend(x, rhs), env, fns, fuel + 2)
  {
    VacatingIsSafe(x, rhs, env, fns, fuel);
    ExprStays(rhs, false, env - {x}, fns, fuel);
  }
}
