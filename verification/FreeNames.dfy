/** The free-name analysis that lets a self-append empty a slot before its right-hand side runs. */
module FreeNames {
  import opened Wrappers

  datatype BinaryOp = Add | Less | Append

  datatype Pattern =
    | Wildcard
    | BindName(name: string)
    | IntPattern(value: int)
    | VariantPattern(variant: string, bindings: seq<Pattern>)

  datatype Param = Param(name: string, default: Option<Expr>)
  datatype ClosureBody = Arrow(expr: Expr) | Block(stmts: seq<Stmt>)
  datatype MatchArm = MatchArm(pattern: Pattern, guard: Option<Expr>, body: ClosureBody)

  datatype Expr =
    | Int(value: int)
    | Ident(name: string)
    | Binary(op: BinaryOp, lhs: Expr, rhs: Expr)
    | Coalesce(expr: Expr, fallback: Expr)
    | Try(expr: Expr)
    | ListOf(items: seq<Expr>)
    | VariantOf(variant: string, items: seq<Expr>)
    | Call(callee: Expr, args: seq<Expr>)
    | TypedCall(name: string, args: seq<Expr>)
    | Closure(params: seq<Param>, body: ClosureBody)
    | Match(scrutinee: Expr, arms: seq<MatchArm>)

  datatype Stmt =
    | ExprStmt(expr: Expr)
    | Binding(name: string, value: Expr)
    | Destructure(targets: seq<string>, value: Expr)
    | Return(result: Option<Expr>)
    | If(cond: Expr, thenBody: seq<Stmt>, elseBody: seq<Stmt>)
    | While(cond: Expr, body: seq<Stmt>)
    | For(variable: string, iterable: Expr, body: seq<Stmt>)
    | FnStmt(name: string, params: seq<Param>, body: seq<Stmt>)
    | Break
    | Continue
    | Use

  // ----- The analysis -----

  /** Whether the analysis answers that `name` is free in `e`. A closure with a block body always is. */
  predicate Mentions(e: Expr, name: string) {
    match e
    case Int(_) => false
    case Ident(n) => n == name
    case Binary(_, l, r) => Mentions(l, name) || Mentions(r, name)
    case Coalesce(l, r) => Mentions(l, name) || Mentions(r, name)
    case Try(x) => Mentions(x, name)
    case ListOf(items) => exists i :: 0 <= i < |items| && Mentions(items[i], name)
    case VariantOf(_, items) => exists i :: 0 <= i < |items| && Mentions(items[i], name)
    case Call(callee, args) => Mentions(callee, name) || exists i :: 0 <= i < |args| && Mentions(args[i], name)
    case TypedCall(_, args) => exists i :: 0 <= i < |args| && Mentions(args[i], name)
    case Closure(params, body) =>
      (match body { case Arrow(x) => Mentions(x, name) case Block(_) => true })
      || exists i :: 0 <= i < |params| && params[i].default.Some? && Mentions(params[i].default.value, name)
    case Match(s, arms) =>
      Mentions(s, name) || exists i :: 0 <= i < |arms| && ArmMentions(arms[i], name)
  }

  predicate ArmMentions(a: MatchArm, name: string) {
    (a.guard.Some? && Mentions(a.guard.value, name)) || BodyMentions(a.body, name)
  }

  predicate BodyMentions(b: ClosureBody, name: string) {
    match b
    case Arrow(e) => Mentions(e, name)
    case Block(stmts) => exists i :: 0 <= i < |stmts| && StmtMentions(stmts[i], name)
  }

  predicate StmtMentions(s: Stmt, name: string) {
    match s
    case ExprStmt(e) => Mentions(e, name)
    case Binding(_, value) => Mentions(value, name)
    case Destructure(_, value) => Mentions(value, name)
    case Return(v) => v.Some? && Mentions(v.value, name)
    case If(c, t, e) =>
      Mentions(c, name) || (exists i :: 0 <= i < |t| && StmtMentions(t[i], name))
      || exists i :: 0 <= i < |e| && StmtMentions(e[i], name)
    case While(c, body) => Mentions(c, name) || exists i :: 0 <= i < |body| && StmtMentions(body[i], name)
    case For(_, it, body) => Mentions(it, name) || exists i :: 0 <= i < |body| && StmtMentions(body[i], name)
    case FnStmt(_, params, body) =>
      (exists i :: 0 <= i < |body| && StmtMentions(body[i], name))
      || exists i :: 0 <= i < |params| && params[i].default.Some? && Mentions(params[i].default.value, name)
    case Break => false
    case Continue => false
    case Use => false
  }

  // ----- What a closure reads -----

  /** Whether `name` occurs as an identifier in `e`, block bodies of closures included. */
  predicate Occurs(e: Expr, name: string) {
    match e
    case Int(_) => false
    case Ident(n) => n == name
    case Binary(_, l, r) => Occurs(l, name) || Occurs(r, name)
    case Coalesce(l, r) => Occurs(l, name) || Occurs(r, name)
    case Try(x) => Occurs(x, name)
    case ListOf(items) => exists i :: 0 <= i < |items| && Occurs(items[i], name)
    case VariantOf(_, items) => exists i :: 0 <= i < |items| && Occurs(items[i], name)
    case Call(callee, args) => Occurs(callee, name) || exists i :: 0 <= i < |args| && Occurs(args[i], name)
    case TypedCall(_, args) => exists i :: 0 <= i < |args| && Occurs(args[i], name)
    case Closure(params, body) =>
      OccursInBody(body, name)
      || exists i :: 0 <= i < |params| && params[i].default.Some? && Occurs(params[i].default.value, name)
    case Match(s, arms) => Occurs(s, name) || exists i :: 0 <= i < |arms| && OccursInArm(arms[i], name)
  }

  predicate OccursInArm(a: MatchArm, name: string) {
    (a.guard.Some? && Occurs(a.guard.value, name)) || OccursInBody(a.body, name)
  }

  predicate OccursInBody(b: ClosureBody, name: string) {
    match b
    case Arrow(e) => Occurs(e, name)
    case Block(stmts) => exists i :: 0 <= i < |stmts| && OccursInStmt(stmts[i], name)
  }

  predicate OccursInStmt(s: Stmt, name: string) {
    match s
    case ExprStmt(e) => Occurs(e, name)
    case Binding(_, value) => Occurs(value, name)
    case Destructure(_, value) => Occurs(value, name)
    case Return(v) => v.Some? && Occurs(v.value, name)
    case If(c, t, e) =>
      Occurs(c, name) || (exists i :: 0 <= i < |t| && OccursInStmt(t[i], name))
      || exists i :: 0 <= i < |e| && OccursInStmt(e[i], name)
    case While(c, body) => Occurs(c, name) || exists i :: 0 <= i < |body| && OccursInStmt(body[i], name)
    case For(_, it, body) => Occurs(it, name) || exists i :: 0 <= i < |body| && OccursInStmt(body[i], name)
    case FnStmt(_, params, body) =>
      (exists i :: 0 <= i < |body| && OccursInStmt(body[i], name))
      || exists i :: 0 <= i < |params| && params[i].default.Some? && Occurs(params[i].default.value, name)
    case Break => false
    case Continue => false
    case Use => false
  }

  // ----- Evaluation -----

  type Env = map<string, Value>

  datatype Value =
    | Num(value: int)
    | Bool(truth: bool)
    | Unit
    | Variant(variant: string, payload: seq<Value>)
    | List(elements: seq<Value>)
    | Fun(params: seq<Param>, body: ClosureBody, captured: Env)

  datatype Signal = Normal | Returned | Broke | Continued

  /** How an evaluation ends: with a value and the frame's slots, with a fault, or out of fuel. */
  datatype Outcome = Out(signal: Signal, value: Value, env: Env) | Fault | NoFuel {
    predicate Went() { Out? && signal.Normal? }
  }

  datatype FnDecl = FnDecl(params: seq<Param>, body: seq<Stmt>)
  type Functions = map<string, FnDecl>

  /** The slots a closure snapshots when it is made: those whose names occur in it. */
  function Snapshot(params: seq<Param>, body: ClosureBody, env: Env): Env {
    map n | n in env && Occurs(Closure(params, body), n) :: env[n]
  }

  function Operate(op: BinaryOp, l: Value, r: Value): Option<Value> {
    match op
    case Add => if l.Num? && r.Num? then Some(Num(l.value + r.value)) else None
    case Less => if l.Num? && r.Num? then Some(Bool(l.value < r.value)) else None
    case Append => if l.List? then Some(List(l.elements + [r])) else None
  }

  /** The bindings a pattern makes when it matches. */
  function MatchPattern(p: Pattern, v: Value): Option<Env> {
    match p
    case Wildcard => Some(map[])
    case BindName(n) => Some(map[n := v])
    case IntPattern(k) => if v == Num(k) then Some(map[]) else None
    case VariantPattern(variant, bindings) =>
      if v.Variant? && v.variant == variant && |bindings| == |v.payload| then MatchAll(bindings, v.payload) else None
  }

  function MatchAll(ps: seq<Pattern>, vs: seq<Value>): Option<Env>
    requires |ps| == |vs|
  {
    if ps == [] then Some(map[]) else
    match MatchPattern(ps[0], vs[0])
    case None => None
    case Some(b) =>
      match MatchAll(ps[1..], vs[1..])
      case None => None
      case Some(rest) => Some(b + rest)
  }

  /** The slots after a scope that bound `names` closes: those names are what they were `before`. */
  function Restore(after: Env, before: Env, names: set<string>): Env {
    (after - names) + map n | n in before && n in names :: before[n]
  }

  function Closing(o: Outcome, before: Env, names: set<string>): Outcome {
    if o.Out? then o.(env := Restore(o.env, before, names)) else o
  }

  /** A block's value is unit. */
  function AsUnit(o: Outcome): Outcome {
    if o.Went() then o.(value := Unit) else o
  }

  function AssignAll(targets: seq<string>, vs: seq<Value>, env: Env): Env
    requires |targets| == |vs|
  {
    if targets == [] then env else AssignAll(targets[1..], vs[1..], env[targets[0] := vs[0]])
  }

  function Eval(e: Expr, env: Env, fns: Functions, fuel: nat): Outcome
    decreases fuel
  {
    if fuel == 0 then NoFuel else
    match e
    case Int(v) => Out(Normal, Num(v), env)
    case Ident(n) => if n in env then Out(Normal, env[n], env) else Fault
    case Binary(op, l, r) =>
      var a := Eval(l, env, fns, fuel - 1);
      if !a.Went() then a else
      var b := Eval(r, a.env, fns, fuel - 1);
      if !b.Went() then b else
      match Operate(op, a.value, b.value) { case None => Fault case Some(v) => b.(value := v) }
    case Coalesce(l, r) =>
      var a := Eval(l, env, fns, fuel - 1);
      if !a.Went() || a.value != Variant("None", []) then a else Eval(r, a.env, fns, fuel - 1)
    case Try(x) =>
      var a := Eval(x, env, fns, fuel - 1);
      if !a.Went() then a
      else if !a.value.Variant? then Fault
      else if a.value.variant == "Ok" && |a.value.payload| == 1 then a.(value := a.value.payload[0])
      else a.(signal := Returned)
    case ListOf(items) => EvalList(items, [], env, fns, fuel - 1)
    case VariantOf(variant, items) =>
      var a := EvalList(items, [], env, fns, fuel - 1);
      if !a.Went() || !a.value.List? then a else a.(value := Variant(variant, a.value.elements))
    case Call(callee, args) =>
      var c := Eval(callee, env, fns, fuel - 1);
      if !c.Went() then c else
      var a := EvalList(args, [], c.env, fns, fuel - 1);
      if !a.Went() then a
      else if !c.value.Fun? || !a.value.List? then Fault
      else Resumed(Invoke(c.value.params, c.value.body, c.value.captured, a.value.elements, fns, fuel - 1), a.env)
    case TypedCall(f, args) =>
      var a := EvalList(args, [], env, fns, fuel - 1);
      if !a.Went() then a
      else if f !in fns || !a.value.List? then Fault
      else Resumed(Invoke(fns[f].params, Block(fns[f].body), map[], a.value.elements, fns, fuel - 1), a.env)
    case Closure(params, body) => Out(Normal, Fun(params, body, Snapshot(params, body, env)), env)
    case Match(s, arms) =>
      var v := Eval(s, env, fns, fuel - 1);
      if !v.Went() then v else EvalArms(arms, v.value, v.env, fns, fuel - 1)
  }

  /** Back in the caller, whose slots a call leaves alone. */
  function Resumed(o: Outcome, env: Env): Outcome {
    if !o.Out? then o
    else if o.signal.Broke? || o.signal.Continued? then Fault
    else Out(Normal, o.value, env)
  }

  /** A call in a frame of its own: what was captured, then the parameters, then the body. */
  function Invoke(
    params: seq<Param>, body: ClosureBody, captured: Env, args: seq<Value>, fns: Functions, fuel: nat): Outcome
    decreases fuel
  {
    if fuel == 0 then NoFuel else
    var frame := BindParams(params, args, captured, fns, fuel - 1);
    if !frame.Went() then frame else EvalBody(body, frame.env, fns, fuel - 1)
  }

  function BindParams(params: seq<Param>, args: seq<Value>, frame: Env, fns: Functions, fuel: nat): Outcome
    decreases fuel
  {
    if fuel == 0 then NoFuel
    else if params == [] then (if args == [] then Out(Normal, Unit, frame) else Fault)
    else if args != [] then BindParams(params[1..], args[1..], frame[params[0].name := args[0]], fns, fuel - 1)
    else if params[0].default.None? then Fault
    else
      var d := Eval(params[0].default.value, frame, fns, fuel - 1);
      if !d.Went() then d else BindParams(params[1..], [], d.env[params[0].name := d.value], fns, fuel - 1)
  }

  function EvalList(es: seq<Expr>, done: seq<Value>, env: Env, fns: Functions, fuel: nat): Outcome
    decreases fuel
  {
    if fuel == 0 then NoFuel
    else if es == [] then Out(Normal, List(done), env)
    else
      var o := Eval(es[0], env, fns, fuel - 1);
      if !o.Went() then o else EvalList(es[1..], done + [o.value], o.env, fns, fuel - 1)
  }

  /** The first arm whose pattern matches and whose guard holds, its bindings in scope for guard and body only. */
  function EvalArms(arms: seq<MatchArm>, v: Value, env: Env, fns: Functions, fuel: nat): Outcome
    decreases fuel
  {
    if fuel == 0 then NoFuel
    else if arms == [] then Fault
    else
      match MatchPattern(arms[0].pattern, v)
      case None => EvalArms(arms[1..], v, env, fns, fuel - 1)
      case Some(bound) =>
        var g := EvalGuard(arms[0].guard, env + bound, fns, fuel - 1);
        if !g.Went() then Closing(g, env, bound.Keys)
        else if g.value == Bool(true) then Closing(EvalBody(arms[0].body, g.env, fns, fuel - 1), env, bound.Keys)
        else EvalArms(arms[1..], v, Restore(g.env, env, bound.Keys), fns, fuel - 1)
  }

  function EvalGuard(guard: Option<Expr>, env: Env, fns: Functions, fuel: nat): Outcome
    decreases fuel
  {
    if fuel == 0 then NoFuel
    else if guard.None? then Out(Normal, Bool(true), env)
    else Eval(guard.value, env, fns, fuel - 1)
  }

  function EvalBody(b: ClosureBody, env: Env, fns: Functions, fuel: nat): Outcome
    decreases fuel
  {
    if fuel == 0 then NoFuel else
    match b
    case Arrow(e) => Eval(e, env, fns, fuel - 1)
    case Block(stmts) => AsUnit(EvalStmts(stmts, env, fns, fuel - 1))
  }

  function EvalStmts(ss: seq<Stmt>, env: Env, fns: Functions, fuel: nat): Outcome
    decreases fuel
  {
    if fuel == 0 then NoFuel
    else if ss == [] then Out(Normal, Unit, env)
    else
      var o := EvalStmt(ss[0], env, fns, fuel - 1);
      if !o.Went() then o else EvalStmts(ss[1..], o.env, fns, fuel - 1)
  }

  function EvalStmt(s: Stmt, env: Env, fns: Functions, fuel: nat): Outcome
    decreases fuel
  {
    if fuel == 0 then NoFuel else
    match s
    case ExprStmt(e) => AsUnit(Eval(e, env, fns, fuel - 1))
    case Binding(name, e) =>
      var o := Eval(e, env, fns, fuel - 1);
      if !o.Went() then o else Out(Normal, Unit, o.env[name := o.value])
    case Destructure(targets, e) =>
      var o := Eval(e, env, fns, fuel - 1);
      if !o.Went() then o
      else if !o.value.List? || |o.value.elements| != |targets| then Fault
      else Out(Normal, Unit, AssignAll(targets, o.value.elements, o.env))
    case Return(None) => Out(Returned, Unit, env)
    case Return(Some(e)) =>
      var o := Eval(e, env, fns, fuel - 1);
      if !o.Went() then o else o.(signal := Returned)
    case If(c, t, e) =>
      var o := Eval(c, env, fns, fuel - 1);
      if !o.Went() then o else EvalStmts(if o.value == Bool(true) then t else e, o.env, fns, fuel - 1)
    case While(c, body) =>
      var o := Eval(c, env, fns, fuel - 1);
      if !o.Went() then o
      else if o.value != Bool(true) then AsUnit(o)
      else
        var b := EvalStmts(body, o.env, fns, fuel - 1);
        if !b.Out? || b.signal.Returned? then b
        else if b.signal.Broke? then Out(Normal, Unit, b.env)
        else EvalStmt(s, b.env, fns, fuel - 1)
    case For(x, it, body) =>
      var o := Eval(it, env, fns, fuel - 1);
      if !o.Went() then o
      else if !o.value.List? then Fault
      else EvalFor(x, o.value.elements, body, o.env, fns, fuel - 1)
    case FnStmt(name, params, body) => Out(Normal, Unit,
      env[name := Fun(params, Block(body), Snapshot(params, Block(body), env))])
    case Break => Out(Broke, Unit, env)
    case Continue => Out(Continued, Unit, env)
    case Use => Out(Normal, Unit, env)
  }

  function EvalFor(x: string, vs: seq<Value>, body: seq<Stmt>, env: Env, fns: Functions, fuel: nat): Outcome
    decreases fuel
  {
    if fuel == 0 then NoFuel
    else if vs == [] then Out(Normal, Unit, env)
    else
      var b := Closing(EvalStmts(body, env[x := vs[0]], fns, fuel - 1), env, {x});
      if !b.Out? || b.signal.Returned? then b
      else if b.signal.Broke? then Out(Normal, Unit, b.env)
      else EvalFor(x, vs[1..], body, b.env, fns, fuel - 1)
  }

  // ----- The analysis is a sound answer, and how coarse it is -----

  /** Whether a closure with a block body occurs where a name is looked for. */
  predicate HasBlockClosure(e: Expr) {
    match e
    case Int(_) => false
    case Ident(_) => false
    case Binary(_, l, r) => HasBlockClosure(l) || HasBlockClosure(r)
    case Coalesce(l, r) => HasBlockClosure(l) || HasBlockClosure(r)
    case Try(x) => HasBlockClosure(x)
    case ListOf(items) => exists i :: 0 <= i < |items| && HasBlockClosure(items[i])
    case VariantOf(_, items) => exists i :: 0 <= i < |items| && HasBlockClosure(items[i])
    case Call(callee, args) => HasBlockClosure(callee) || exists i :: 0 <= i < |args| && HasBlockClosure(args[i])
    case TypedCall(_, args) => exists i :: 0 <= i < |args| && HasBlockClosure(args[i])
    case Closure(params, body) =>
      (match body { case Arrow(x) => HasBlockClosure(x) case Block(_) => true })
      || exists i :: 0 <= i < |params| && params[i].default.Some? && HasBlockClosure(params[i].default.value)
    case Match(s, arms) => HasBlockClosure(s) || exists i :: 0 <= i < |arms| && ArmHasBlockClosure(arms[i])
  }

  predicate ArmHasBlockClosure(a: MatchArm) {
    (a.guard.Some? && HasBlockClosure(a.guard.value)) || BodyHasBlockClosure(a.body)
  }

  predicate BodyHasBlockClosure(b: ClosureBody) {
    match b
    case Arrow(e) => HasBlockClosure(e)
    case Block(stmts) => exists i :: 0 <= i < |stmts| && StmtHasBlockClosure(stmts[i])
  }

  predicate StmtHasBlockClosure(s: Stmt) {
    match s
    case ExprStmt(e) => HasBlockClosure(e)
    case Binding(_, value) => HasBlockClosure(value)
    case Destructure(_, value) => HasBlockClosure(value)
    case Return(v) => v.Some? && HasBlockClosure(v.value)
    case If(c, t, e) =>
      HasBlockClosure(c) || (exists i :: 0 <= i < |t| && StmtHasBlockClosure(t[i]))
      || exists i :: 0 <= i < |e| && StmtHasBlockClosure(e[i])
    case While(c, body) => HasBlockClosure(c) || exists i :: 0 <= i < |body| && StmtHasBlockClosure(body[i])
    case For(_, it, body) => HasBlockClosure(it) || exists i :: 0 <= i < |body| && StmtHasBlockClosure(body[i])
    case FnStmt(_, params, body) =>
      (exists i :: 0 <= i < |body| && StmtHasBlockClosure(body[i]))
      || exists i :: 0 <= i < |params| && params[i].default.Some? && HasBlockClosure(params[i].default.value)
    case Break => false
    case Continue => false
    case Use => false
  }
}
