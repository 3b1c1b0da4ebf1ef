/** What a derive plan that succeeds gives: the whole trait, and methods that answer as what they stand for. */
module DeriveLaws {
  import opened Wrappers
  import opened TypeRefs
  import opened TypedTrees
  import opened SubstitutionLaws
  import opened Deriving

  // ----- Deduction -----

  lemma {:induction false} FittingAre(m: FnDecl, fields: seq<FieldDecl>, compatible: Compatible)
    ensures forall f :: f in Fitting(m, fields, compatible) <==> f in fields && FieldFits(m, f, compatible)
  {
    if fields != [] { FittingAre(m, fields[1..], compatible); }
  }

  /** Exactly one place in the list holds a field that fits. */
  ghost predicate OneFits(m: FnDecl, fields: seq<FieldDecl>, compatible: Compatible) {
    exists i :: OnlyAt(m, fields, compatible, i)
  }

  ghost predicate OnlyAt(m: FnDecl, fields: seq<FieldDecl>, compatible: Compatible, i: int) {
    0 <= i < |fields| && forall j :: 0 <= j < |fields| ==> (FieldFits(m, fields[j], compatible) <==> j == i)
  }

  lemma {:induction false} NoneFitting(m: FnDecl, fields: seq<FieldDecl>, compatible: Compatible)
    ensures Fitting(m, fields, compatible) == [] <==>
      forall j :: 0 <= j < |fields| ==> !FieldFits(m, fields[j], compatible)
  {
    if fields != [] { NoneFitting(m, fields[1..], compatible); }
  }

  lemma {:induction false} OneFitting(m: FnDecl, fields: seq<FieldDecl>, compatible: Compatible)
    ensures |Fitting(m, fields, compatible)| == 1 <==> OneFits(m, fields, compatible)
  {
    if fields != [] {
      var rest := fields[1..];
      OneFitting(m, rest, compatible);
      NoneFitting(m, rest, compatible);
      if FieldFits(m, fields[0], compatible) {
        if Fitting(m, rest, compatible) == [] { assert OnlyAt(m, fields, compatible, 0); }
        if i :| OnlyAt(m, fields, compatible, i) {
          assert i == 0;
          forall j | 0 <= j < |rest| ensures !FieldFits(m, rest[j], compatible) { assert rest[j] == fields[j + 1]; }
        }
      } else {
        if i :| OnlyAt(m, rest, compatible, i) {
          forall j | 0 <= j < |fields| ensures FieldFits(m, fields[j], compatible) <==> j == i + 1 {
            if j > 0 { assert fields[j] == rest[j - 1]; }
          }
          assert OnlyAt(m, fields, compatible, i + 1);
        }
        if i :| OnlyAt(m, fields, compatible, i) {
          forall j | 0 <= j < |rest| ensures FieldFits(m, rest[j], compatible) <==> j == i - 1 {
            assert rest[j] == fields[j + 1];
          }
          assert OnlyAt(m, rest, compatible, i - 1);
        }
      }
    }
  }

  /** Whatever fits is `f`. */
  ghost predicate OnlyFitting(m: FnDecl, fields: seq<FieldDecl>, compatible: Compatible, f: FieldDecl) {
    forall g :: g in fields && FieldFits(m, g, compatible) ==> g == f
  }

  /** **A deduction is never a guess.** It succeeds exactly when the method takes nothing and either the
      first field of its name fits, or no field has its name and exactly one field fits; and it then
      reads that field. */
  lemma DeductionIs(m: FnDecl, fields: seq<FieldDecl>, compatible: Compatible)
    ensures DeduceFieldBridge(m, fields, compatible).Ok? <==>
            m.params == [] &&
            match FindField(fields, m.name) {
              case Some(f) => FieldFits(m, f, compatible)
              case None => OneFits(m, fields, compatible)
            }
    ensures DeduceFieldBridge(m, fields, compatible).Ok? ==>
            exists f ::
              && f in fields && FieldFits(m, f, compatible)
              && DeduceFieldBridge(m, fields, compatible) == Ok(FieldBridge(m, f.name))
              && (f.name == m.name || (FindField(fields, m.name).None? && OnlyFitting(m, fields, compatible, f)))
  {
    OneFitting(m, fields, compatible);
    NoneFitting(m, fields, compatible);
    FittingAre(m, fields, compatible);
    if DeduceFieldBridge(m, fields, compatible).Ok? {
      if FindField(fields, m.name).None? {
        var candidates := Fitting(m, fields, compatible);
        var f := candidates[0];
        assert f in candidates;
        forall g | g in fields && FieldFits(m, g, compatible) ensures g == f { assert g in candidates; }
      }
    }
  }

  // ----- Coverage -----

  ghost predicate SameSignature(d: FnDecl, m: FnDecl) {
    d.name == m.name && d.params == m.params && d.ret == m.ret && d.isAsync == m.isAsync
  }

  lemma ContributionSignature(
    tm: TraitMethod, fields: seq<FieldDecl>, existing: seq<FnDecl>, spec: DeriveSpec, compatible: Compatible)
    requires Contribution(tm, fields, existing, spec, compatible).Ok?
    ensures SameSignature(Contribution(tm, fields, existing, spec, compatible).value, tm.sig)
  {
  }

  lemma {:induction false} ContributionsAre(
    tms: seq<TraitMethod>, fields: seq<FieldDecl>, existing: seq<FnDecl>, spec: DeriveSpec, compatible: Compatible)
    ensures Contributions(tms, fields, existing, spec, compatible).Ok? <==>
            forall i :: 0 <= i < |tms| ==> Contribution(tms[i], fields, existing, spec, compatible).Ok?
    ensures Contributions(tms, fields, existing, spec, compatible).Ok? ==>
            var out := Contributions(tms, fields, existing, spec, compatible).value;
            |out| == |tms| && forall i :: 0 <= i < |tms| ==>
              Contribution(tms[i], fields, existing, spec, compatible) == Ok(out[i])
  {
    if tms != [] {
      var init := tms[..|tms| - 1];
      ContributionsAre(init, fields, existing, spec, compatible);
      if Contributions(init, fields, existing, spec, compatible).Ok? {
        forall i | 0 <= i < |init| ensures Contribution(tms[i], fields, existing, spec, compatible).Ok? {
          assert tms[i] == init[i];
        }
      } else {
        var i :| 0 <= i < |init| && Contribution(init[i], fields, existing, spec, compatible).Err?;
        assert tms[i] == init[i];
      }
    }
  }

  /** One synthesized method for each trait method the type does not provide, in order, with its signature. */
  lemma PlanStandsIn(
    tr: TraitDecl, fields: seq<FieldDecl>, existing: seq<FnDecl>, spec: DeriveSpec, compatible: Compatible)
    requires ConcretePlan(tr, fields, existing, spec, compatible).Ok?
    ensures var out := ConcretePlan(tr, fields, existing, spec, compatible).value;
            var missing := Missing(tr.methods, existing);
            |out| == |missing| && forall j :: 0 <= j < |out| ==> SameSignature(out[j], missing[j].sig)
  {
    var missing := Missing(tr.methods, existing);
    if spec.via.None? {
      ContributionsAre(missing, fields, existing, spec, compatible);
      var out := ConcretePlan(tr, fields, existing, spec, compatible).value;
      forall j | 0 <= j < |out| ensures SameSignature(out[j], missing[j].sig) {
        ContributionSignature(missing[j], fields, existing, spec, compatible);
      }
    }
  }

  ghost predicate DistinctMethods(ms: seq<TraitMethod>) {
    forall i, j :: 0 <= i < j < |ms| ==> ms[i].sig.name != ms[j].sig.name
  }

  lemma {:induction false} MissingDistinct(ms: seq<TraitMethod>, existing: seq<FnDecl>)
    requires DistinctMethods(ms)
    ensures DistinctMethods(Missing(ms, existing))
  {
    if ms != [] {
      var init, last := ms[..|ms| - 1], ms[|ms| - 1];
      MissingDistinct(init, existing);
      var rest := Missing(init, existing);
      forall i | 0 <= i < |rest| ensures rest[i].sig.name != last.sig.name {
        assert rest[i] in rest && rest[i] in init;
      }
    }
  }

  ghost predicate OneOf(out: seq<FnDecl>, m: FnDecl) {
    exists j :: 0 <= j < |out| && SameSignature(out[j], m) && forall k :: 0 <= k < |out| && k != j ==>
      out[k].name != m.name
  }

  lemma ConcretePlanCovers(
    tr: TraitDecl, fields: seq<FieldDecl>, existing: seq<FnDecl>, spec: DeriveSpec, compatible: Compatible)
    requires ConcretePlan(tr, fields, existing, spec, compatible).Ok? && DistinctMethods(tr.methods)
    ensures var out := ConcretePlan(tr, fields, existing, spec, compatible).value;
            forall tm :: tm in tr.methods ==>
              if FindMethod(existing, tm.sig.name).Some? then forall j :: 0 <= j < |out| ==> out[j].name != tm.sig.name
              else OneOf(out, tm.sig)
  {
    var out, missing := ConcretePlan(tr, fields, existing, spec, compatible).value, Missing(tr.methods, existing);
    PlanStandsIn(tr, fields, existing, spec, compatible);
    MissingDistinct(tr.methods, existing);
    forall tm | tm in tr.methods
      ensures if FindMethod(existing, tm.sig.name).Some? then forall j :: 0 <= j < |out| ==> out[j].name != tm.sig.name
              else OneOf(out, tm.sig)
    {
      if FindMethod(existing, tm.sig.name).Some? {
        forall j | 0 <= j < |out| ensures out[j].name != tm.sig.name {
          assert missing[j] in missing && SameSignature(out[j], missing[j].sig);
        }
      } else {
        assert tm in missing;
        var j :| 0 <= j < |missing| && missing[j] == tm;
        assert SameSignature(out[j], tm.sig);
        forall k | 0 <= k < |out| && k != j ensures out[k].name != tm.sig.name {
          assert SameSignature(out[k], missing[k].sig);
        }
      }
    }
  }

  /** **A plan that succeeds covers the trait.** Every method of the trait at its arguments comes from the
      type itself, and the plan then adds none of its name; or from exactly one added method, with its
      signature. */
  lemma PlanCovers(
    tr: TraitDecl, fields: seq<FieldDecl>, existing: seq<FnDecl>, spec: DeriveSpec, compatible: Compatible)
    requires Plan(tr, fields, existing, spec, compatible).Ok? && DistinctMethods(tr.methods)
    ensures Concrete(tr, spec.args).Ok? && |Concrete(tr, spec.args).value.methods| == |tr.methods|
    ensures var out := Plan(tr, fields, existing, spec, compatible).value;
            forall tm :: tm in Concrete(tr, spec.args).value.methods ==>
              if FindMethod(existing, tm.sig.name).Some? then forall j :: 0 <= j < |out| ==> out[j].name != tm.sig.name
              else OneOf(out, tm.sig)
  {
    InstantiationArity(tr, spec.args);
    var c := Concrete(tr, spec.args).value;
    assert forall i :: 0 <= i < |c.methods| ==> c.methods[i].sig.name == tr.methods[i].sig.name;
    ConcretePlanCovers(c, fields, existing, spec, compatible);
  }

  /** A target can stand in for a method: the first field of its name, for a method that takes nothing and
      whose type the field fits; else, where no field has the name, the first method of that name, unless
      it is async and the method is not. */
  ghost predicate Bridgeable(
    m: FnDecl, fields: seq<FieldDecl>, existing: seq<FnDecl>, target: string, compatible: Compatible) {
    if exists f :: f in fields && f.name == target then
      m.params == [] && exists i :: FirstFieldAt(fields, target, i) && FieldFits(m, fields[i], compatible)
    else
      exists i :: FirstMethodAt(existing, target, i) && (existing[i].isAsync ==> m.isAsync)
  }

  ghost predicate FirstFieldAt(fields: seq<FieldDecl>, name: string, i: int) {
    0 <= i < |fields| && fields[i].name == name && forall j :: 0 <= j < i ==> fields[j].name != name
  }

  ghost predicate FirstMethodAt(methods: seq<FnDecl>, name: string, i: int) {
    0 <= i < |methods| && methods[i].name == name && forall j :: 0 <= j < i ==> methods[j].name != name
  }

  lemma {:induction false} FoundField(fields: seq<FieldDecl>, name: string) returns (i: nat)
    requires FindField(fields, name).Some?
    ensures FirstFieldAt(fields, name, i) && FindField(fields, name) == Some(fields[i])
  {
    if fields[0].name == name {
      i := 0;
    } else {
      i := FoundField(fields[1..], name);
      assert forall j :: 0 < j <= i ==> fields[j] == fields[1..][j - 1];
      i := i + 1;
    }
  }

  lemma {:induction false} FoundMethod(methods: seq<FnDecl>, name: string) returns (i: nat)
    requires FindMethod(methods, name).Some?
    ensures FirstMethodAt(methods, name, i) && FindMethod(methods, name) == Some(methods[i])
  {
    if methods[0].name == name {
      i := 0;
    } else {
      i := FoundMethod(methods[1..], name);
      assert forall j :: 0 < j <= i ==> methods[j] == methods[1..][j - 1];
      i := i + 1;
    }
  }

  /** **When a bound target is accepted.** */
  lemma BridgeSucceedsIs(
    m: FnDecl, fields: seq<FieldDecl>, existing: seq<FnDecl>, target: string, compatible: Compatible)
    ensures BridgeToTarget(m, fields, existing, target, compatible).Ok? <==>
            Bridgeable(m, fields, existing, target, compatible)
  {
    if FindField(fields, target).Some? {
      var i := FoundField(fields, target);
      assert fields[i] in fields;
      forall j | FirstFieldAt(fields, target, j) ensures j == i { }
    } else if FindMethod(existing, target).Some? {
      var i := FoundMethod(existing, target);
      forall j | FirstMethodAt(existing, target, j) ensures j == i { }
    }
  }

  /** A field can be deduced: the first of the method's name, or the only one that fits where none has it. */
  ghost predicate Deducible(m: FnDecl, fields: seq<FieldDecl>, compatible: Compatible) {
    m.params == [] &&
    if exists f :: f in fields && f.name == m.name then
      exists i :: FirstFieldAt(fields, m.name, i) && FieldFits(m, fields[i], compatible)
    else OneFits(m, fields, compatible)
  }

  lemma DeducedWhen(m: FnDecl, fields: seq<FieldDecl>, compatible: Compatible)
    ensures DeduceFieldBridge(m, fields, compatible).Ok? <==> Deducible(m, fields, compatible)
  {
    DeductionIs(m, fields, compatible);
    if FindField(fields, m.name).Some? {
      var i := FoundField(fields, m.name);
      assert fields[i] in fields;
      forall j | FirstFieldAt(fields, m.name, j) ensures j == i { }
    }
  }

  /** What a trait method the type lacks can be served by: its first binding's target if it has one, else
      its default, else a deduced field. */
  ghost predicate Served(
    tm: TraitMethod, fields: seq<FieldDecl>, existing: seq<FnDecl>, spec: DeriveSpec, compatible: Compatible) {
    match FindBinding(spec.bindings, tm.sig.name)
    case Some(b) => Bridgeable(tm.sig, fields, existing, b.target, compatible)
    case None => tm.hasDefault || Deducible(tm.sig, fields, compatible)
  }

  lemma ServedWhen(
    tm: TraitMethod, fields: seq<FieldDecl>, existing: seq<FnDecl>, spec: DeriveSpec, compatible: Compatible)
    ensures Contribution(tm, fields, existing, spec, compatible).Ok? <==> Served(tm, fields, existing, spec, compatible)
  {
    match FindBinding(spec.bindings, tm.sig.name)
    case Some(b) => BridgeSucceedsIs(tm.sig, fields, existing, b.target, compatible);
    case None => DeducedWhen(tm.sig, fields, compatible);
  }

  /** **When a plan succeeds.** */
  lemma PlanSucceedsIs(
    tr: TraitDecl, fields: seq<FieldDecl>, existing: seq<FnDecl>, spec: DeriveSpec, compatible: Compatible)
    ensures Plan(tr, fields, existing, spec, compatible).Ok? <==>
            && |spec.args| == |tr.typeParams|
            && match spec.via {
                 case Some(via) => spec.bindings == [] && FindField(fields, via).Some?
                 case None =>
                   && (forall b :: b in spec.bindings ==> HasMethod(tr, b.member))
                   && forall tm :: tm in Missing(Concrete(tr, spec.args).value.methods, existing) ==>
                        Served(tm, fields, existing, spec, compatible)
               }
  {
    forall tm
      ensures Contribution(tm, fields, existing, spec, compatible).Ok? <==>
        Served(tm, fields, existing, spec, compatible)
    {
      ServedWhen(tm, fields, existing, spec, compatible);
    }
    InstantiationArity(tr, spec.args);
    if |spec.args| == |tr.typeParams| {
      var c := Concrete(tr, spec.args).value;
      SameMethodNames(tr, spec.args);
      ContributionsAre(Missing(c.methods, existing), fields, existing, spec, compatible);
      var missing := Missing(c.methods, existing);
      if spec.via.None? && Contributions(missing, fields, existing, spec, compatible).Ok? {
        forall tm | tm in missing ensures Contribution(tm, fields, existing, spec, compatible).Ok? {
          var i :| 0 <= i < |missing| && missing[i] == tm;
        }
      }
    }
  }

  lemma SameMethodNames(tr: TraitDecl, args: seq<TypeRef>)
    requires |args| == |tr.typeParams|
    ensures Concrete(tr, args).Ok?
    ensures forall name :: HasMethod(Concrete(tr, args).value, name) <==> HasMethod(tr, name)
  {
    var c := Concrete(tr, args).value;
    assert |c.methods| == |tr.methods| && forall i :: 0 <= i < |c.methods| ==>
      c.methods[i].sig.name == tr.methods[i].sig.name;
    forall name ensures HasMethod(c, name) <==> HasMethod(tr, name) {
      if i :| 0 <= i < |tr.methods| && tr.methods[i].sig.name == name { assert c.methods[i].sig.name == name; }
    }
  }

  // ----- What a synthesized method answers -----

  datatype Val = Plain(id: int) | Future(inner: Val)

  /** What fields hold and methods answer; nothing when there is no such member. */
  datatype World = World(field: (Val, string) -> Option<Val>, invoke: (Val, string, seq<Val>) -> Option<Val>)

  function EvalAll(es: seq<Expr>, env: map<string, Val>, w: World): Option<seq<Val>> {
    if es == [] then Some([])
    else
      match EvalAll(es[..|es| - 1], env, w)
      case None => None
      case Some(vs) => match EvalIn(es[|es| - 1], env, w) { case None => None case Some(v) => Some(vs + [v]) }
  }

  /** The forms a synthesized body is written in. Awaiting anything but a future is stuck. */
  function EvalIn(e: Expr, env: map<string, Val>, w: World): Option<Val> {
    match e
    case Ident(n) => if n in env then Some(env[n]) else None
    case Member(r, name) => (match EvalIn(r, env, w) { case None => None case Some(v) => w.field(v, name) })
    case Call(Member(r, name), args) =>
      (match EvalIn(r, env, w)
       case None => None
       case Some(v) => match EvalAll(args, env, w) { case None => None case Some(vs) => w.invoke(v, name, vs) })
    case Await(x) => (match EvalIn(x, env, w) { case Some(Future(v)) => Some(v) case _ => None })
    case _ => None
  }

  function BindArgs(params: seq<Param>, args: seq<Val>, self: Val): map<string, Val>
    requires |params| == |args|
  {
    if params == [] then map["self" := self]
    else BindArgs(params[..|params| - 1], args[..|args| - 1], self)[params[|params| - 1].name := args[|args| - 1]]
  }

  /** A call of a method whose body is a single return; an async method answers a future. */
  function RunMethod(d: FnDecl, self: Val, args: seq<Val>, w: World): Option<Val> {
    if |args| != |d.params| || |d.body| != 1 || !d.body[0].Return? || d.body[0].result.None? then None
    else
      match EvalIn(d.body[0].result.value, BindArgs(d.params, args, self), w)
      case None => None
      case Some(v) => Some(if d.isAsync then Future(v) else v)
  }

  /** Parameters with names of their own, none of them the receiver's. */
  ghost predicate ProperParams(ps: seq<Param>) {
    && (forall i :: 0 <= i < |ps| ==> ps[i].name != "self")
    && forall i, j :: 0 <= i < j < |ps| ==> ps[i].name != ps[j].name
  }

  lemma {:induction false} BoundAt(ps: seq<Param>, args: seq<Val>, self: Val)
    requires |ps| == |args| && ProperParams(ps)
    ensures "self" in BindArgs(ps, args, self) && BindArgs(ps, args, self)["self"] == self
    ensures forall i :: 0 <= i < |ps| ==>
      ps[i].name in BindArgs(ps, args, self) && BindArgs(ps, args, self)[ps[i].name] == args[i]
  {
    if ps != [] {
      var last := |ps| - 1;
      BoundAt(ps[..last], args[..last], self);
      forall i | 0 <= i < |ps|
        ensures ps[i].name in BindArgs(ps, args, self) && BindArgs(ps, args, self)[ps[i].name] == args[i]
      {
        if i < last { assert ps[..last][i] == ps[i]; }
      }
    }
  }

  lemma {:induction false} IdentsEval(es: seq<Expr>, vs: seq<Val>, env: map<string, Val>, w: World)
    requires |es| == |vs| && forall i :: 0 <= i < |es| ==> es[i].Ident? && es[i].name in env && env[es[i].name] == vs[i]
    ensures EvalAll(es, env, w) == Some(vs)
  {
    if es != [] {
      var last := |es| - 1;
      IdentsEval(es[..last], vs[..last], env, w);
      assert es[last].Ident? && vs[..last] + [vs[last]] == vs;
    }
  }

  /** The parameters, read back in order, are the arguments. */
  lemma ArgumentsPass(m: FnDecl, self: Val, args: seq<Val>, w: World)
    requires |args| == |m.params| && ProperParams(m.params)
    ensures var env := BindArgs(m.params, args, self);
            EvalIn(Ident("self"), env, w) == Some(self) && EvalAll(ParamIdents(m.params), env, w) == Some(args)
  {
    BoundAt(m.params, args, self);
    IdentsEval(ParamIdents(m.params), args, BindArgs(m.params, args, self), w);
  }

  function AsMethod(m: FnDecl, v: Val): Val {
    if m.isAsync then Future(v) else v
  }

  /** **A bound method answers as its target.** Bridged to a field it answers what the field holds; bridged
      to a method it answers what that method answers, no await missing and none too many: the very
      answer when both are async or neither is, and a future of it when only the trait's is. */
  lemma BridgeAnswers(
    m: FnDecl, fields: seq<FieldDecl>, existing: seq<FnDecl>, target: string, compatible: Compatible, self: Val,
    args: seq<Val>, w: World)
    requires BridgeToTarget(m, fields, existing, target, compatible).Ok?
    requires |args| == |m.params| && ProperParams(m.params)
    requires forall t :: t in existing && t.isAsync && w.invoke(self, t.name, args).Some? ==>
      w.invoke(self, t.name, args).value.Future?
    ensures var got := RunMethod(BridgeToTarget(m, fields, existing, target, compatible).value, self, args, w);
            if FindField(fields, target).Some? then
              got == match w.field(self, target) { case None => None case Some(v) => Some(AsMethod(m, v)) }
            else
              && FindMethod(existing, target).Some?
              && got == match w.invoke(self, target, args)
                        case None => None
                        case Some(v) => Some(if m.isAsync == FindMethod(existing, target).value.isAsync then v
                          else Future(v))
  {
    ArgumentsPass(m, self, args, w);
    var d := BridgeToTarget(m, fields, existing, target, compatible).value;
    var env := BindArgs(m.params, args, self);
    if FindField(fields, target).Some? {
      assert EvalIn(Member(Ident("self"), target), env, w) == w.field(self, target);
    } else {
      var call := Call(Member(Ident("self"), target), ParamIdents(m.params));
      assert EvalIn(call, env, w) == w.invoke(self, target, args);
    }
  }

  /** **A forward answers as the field.** Forwarding the whole trait through a field, each method answers
      exactly what the field's own method of that name answers, future and all. */
  lemma ForwardAnswers(m: FnDecl, via: string, self: Val, inner: Val, args: seq<Val>, w: World)
    requires |args| == |m.params| && ProperParams(m.params)
    requires w.field(self, via) == Some(inner)
    requires m.isAsync && w.invoke(inner, m.name, args).Some? ==> w.invoke(inner, m.name, args).value.Future?
    ensures RunMethod(Forward(m, via), self, args, w) == w.invoke(inner, m.name, args)
  {
    ArgumentsPass(m, self, args, w);
    var env := BindArgs(m.params, args, self);
    assert EvalIn(Member(Ident("self"), via), env, w) == Some(inner);
    var call := Call(Member(Member(Ident("self"), via), m.name), ParamIdents(m.params));
    assert EvalIn(call, env, w) == w.invoke(inner, m.name, args);
  }
}
