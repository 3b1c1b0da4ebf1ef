/** What each method a plan adds answers, read off the derive it was planned from. */
module PlanAnswers {
  import opened Wrappers
  import opened TypeRefs
  import opened TypedTrees
  import opened SubstitutionLaws
  import opened Deriving
  import opened DeriveLaws

  /** The `i`-th binding is the first for `member`. */
  ghost predicate FirstBindingAt(bindings: seq<MemberBinding>, member: string, i: int) {
    0 <= i < |bindings| && bindings[i].member == member && forall j :: 0 <= j < i ==> bindings[j].member != member
  }

  lemma {:induction false} FoundBinding(bindings: seq<MemberBinding>, member: string, i: nat)
    requires FirstBindingAt(bindings, member, i)
    ensures FindBinding(bindings, member) == Some(bindings[i])
  {
    if i > 0 {
      assert forall j :: 0 <= j < i ==> bindings[1..][j] == bindings[j + 1];
      FoundBinding(bindings[1..], member, i - 1);
    }
  }

  lemma {:induction false} BindingExists(bindings: seq<MemberBinding>, member: string) returns (i: nat)
    requires FindBinding(bindings, member).Some?
    ensures FirstBindingAt(bindings, member, i)
  {
    i := 0;
    if bindings[0].member != member {
      i := BindingExists(bindings[1..], member);
      assert forall j :: 0 < j <= i ==> bindings[j] == bindings[1..][j - 1];
      i := i + 1;
    }
  }

  // ----- What stands in for a method -----

  /** A call on the object: `self`, its arguments, and the world it runs in. */
  datatype Site = Site(self: Val, args: seq<Val>, w: World)

  /** The answer of `d` is what field `name` holds, in a future if the method is async. */
  ghost predicate ReadsField(d: FnDecl, name: string, at: Site) {
    RunMethod(d, at.self, at.args, at.w) ==
      match at.w.field(at.self, name) { case None => None case Some(v) => Some(AsMethod(d, v)) }
  }

  /** The answer of `d` is that of the object's method `t`; a future of it when only `d` is async. */
  ghost predicate AnswersAs(d: FnDecl, t: FnDecl, at: Site) {
    RunMethod(d, at.self, at.args, at.w) ==
      match at.w.invoke(at.self, t.name, at.args)
      case None => None
      case Some(v) => Some(if d.isAsync == t.isAsync then v else Future(v))
  }

  /** The answer of `d` is that of the field's method of its name. */
  ghost predicate AnswersAsField(d: FnDecl, via: string, at: Site) {
    forall inner :: at.w.field(at.self, via) == Some(inner) ==>
      RunMethod(d, at.self, at.args, at.w) == at.w.invoke(inner, d.name, at.args)
  }

  /** What `d` answers for the method `tm` of a trait derived as `spec` says: as the field all goes through; or
      as the target of the first binding, the field of that name before the method; or, with no binding, with
      the default's own body; or as a field, that of its name or the only one that fits. */
  ghost predicate StandsFor(
    d: FnDecl, tm: TraitMethod, fields: seq<FieldDecl>, existing: seq<FnDecl>, spec: DeriveSpec,
    compatible: Compatible, at: Site) {
    if spec.via.Some? then AnswersAsField(d, spec.via.value, at)
    else if exists i :: FirstBindingAt(spec.bindings, tm.sig.name, i) then
      exists i :: FirstBindingAt(spec.bindings, tm.sig.name, i) && AnswersBound(d, fields, existing,
        spec.bindings[i].target, at)
    else if tm.hasDefault then d == tm.sig
    else exists f :: f in fields && Deduced(tm.sig, fields, compatible, f) && ReadsField(d, f.name, at)
  }

  /** `f` fits, and has the method's name, or is the only one that fits where no field has it. */
  ghost predicate Deduced(m: FnDecl, fields: seq<FieldDecl>, compatible: Compatible, f: FieldDecl) {
    && FieldFits(m, f, compatible)
    && (f.name == m.name || (OnlyFitting(m, fields, compatible, f) && forall g :: g in fields ==> g.name != m.name))
  }

  ghost predicate AnswersBound(
    d: FnDecl, fields: seq<FieldDecl>, existing: seq<FnDecl>, target: string, at: Site) {
    if exists f :: f in fields && f.name == target then ReadsField(d, target, at)
    else exists j :: FirstMethodAt(existing, target, j) && AnswersAs(d, existing[j], at)
  }

  /** A call that passes what the method takes, in a world where async methods answer futures. */
  ghost predicate ProperCall(m: FnDecl, existing: seq<FnDecl>, spec: DeriveSpec, at: Site) {
    && |at.args| == |m.params| && ProperParams(m.params)
    && (forall t :: t in existing && t.isAsync && at.w.invoke(at.self, t.name, at.args).Some? ==>
          at.w.invoke(at.self, t.name, at.args).value.Future?)
    && (m.isAsync && spec.via.Some? && at.w.field(at.self, spec.via.value).Some? ==>
          var answer := at.w.invoke(at.w.field(at.self, spec.via.value).value, m.name, at.args);
          answer.Some? ==> answer.value.Future?)
  }

  lemma FieldBridgeReads(m: FnDecl, name: string, at: Site)
    requires |at.args| == |m.params| && ProperParams(m.params)
    ensures ReadsField(FieldBridge(m, name), name, at)
  {
    ArgumentsPass(m, at.self, at.args, at.w);
    var env := BindArgs(m.params, at.args, at.self);
    assert EvalIn(Member(Ident("self"), name), env, at.w) == at.w.field(at.self, name);
  }

  lemma BoundAnswers(
    m: FnDecl, fields: seq<FieldDecl>, existing: seq<FnDecl>, spec: DeriveSpec, target: string, compatible: Compatible,
    at: Site)
    requires BridgeToTarget(m, fields, existing, target, compatible).Ok? && ProperCall(m, existing, spec, at)
    ensures AnswersBound(BridgeToTarget(m, fields, existing, target, compatible).value, fields, existing, target, at)
  {
    BridgeAnswers(m, fields, existing, target, compatible, at.self, at.args, at.w);
    if FindField(fields, target).None? {
      var j := FoundMethod(existing, target);
    }
  }

  lemma ContributionStands(
    tm: TraitMethod, fields: seq<FieldDecl>, existing: seq<FnDecl>, spec: DeriveSpec, compatible: Compatible, at: Site)
    requires spec.via.None? && Contribution(tm, fields, existing, spec, compatible).Ok?
    requires ProperCall(tm.sig, existing, spec, at)
    ensures StandsFor(Contribution(tm, fields, existing, spec, compatible).value, tm, fields, existing, spec,
              compatible, at)
  {
    if FindBinding(spec.bindings, tm.sig.name).Some? {
      var i := BindingExists(spec.bindings, tm.sig.name);
      FoundBinding(spec.bindings, tm.sig.name, i);
      BoundAnswers(tm.sig, fields, existing, spec, spec.bindings[i].target, compatible, at);
    } else if !tm.hasDefault {
      DeductionIs(tm.sig, fields, compatible);
      var f :| f in fields && FieldFits(tm.sig, f, compatible)
        && DeduceFieldBridge(tm.sig, fields, compatible) == Ok(FieldBridge(tm.sig, f.name))
        && (f.name == tm.sig.name ||
            (FindField(fields, tm.sig.name).None? && OnlyFitting(tm.sig, fields, compatible, f)));
      FieldBridgeReads(tm.sig, f.name, at);
    }
  }

  lemma ForwardStands(m: FnDecl, existing: seq<FnDecl>, spec: DeriveSpec, at: Site)
    requires spec.via.Some? && ProperCall(m, existing, spec, at)
    ensures AnswersAsField(Forward(m, spec.via.value), spec.via.value, at)
  {
    forall inner | at.w.field(at.self, spec.via.value) == Some(inner)
      ensures RunMethod(Forward(m, spec.via.value), at.self, at.args, at.w) == at.w.invoke(inner, m.name, at.args)
    {
      ForwardAnswers(m, spec.via.value, at.self, inner, at.args, at.w);
    }
  }

  /** **What a plan adds answers as the derive says.** Each trait method the type lacks gets a method of its
      signature that stands for it as `StandsFor` spells out. */
  lemma PlanAnswersAs(
    tr: TraitDecl, fields: seq<FieldDecl>, existing: seq<FnDecl>, spec: DeriveSpec, compatible: Compatible,
    tm: TraitMethod, at: Site)
    requires Plan(tr, fields, existing, spec, compatible).Ok?
    requires tm in Concrete(tr, spec.args).value.methods && forall t :: t in existing ==> t.name != tm.sig.name
    requires ProperCall(tm.sig, existing, spec, at)
    ensures exists d :: d in Plan(tr, fields, existing, spec, compatible).value && SameSignature(d, tm.sig)
              && StandsFor(d, tm, fields, existing, spec, compatible, at)
  {
    var c, out := Concrete(tr, spec.args).value, Plan(tr, fields, existing, spec, compatible).value;
    var missing := Missing(c.methods, existing);
    assert tm in missing;
    var j :| 0 <= j < |missing| && missing[j] == tm;
    PlanStandsIn(c, fields, existing, spec, compatible);
    assert out[j] in out && SameSignature(out[j], tm.sig);
    if spec.via.Some? {
      ForwardStands(tm.sig, existing, spec, at);
    } else {
      ContributionsAre(missing, fields, existing, spec, compatible);
      ContributionStands(tm, fields, existing, spec, compatible, at);
    }
  }
}
