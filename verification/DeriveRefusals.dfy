/** What a derive is refused with, and in what order a plan adds its methods. */
module DeriveRefusals {
  import opened Wrappers
  import opened TypeRefs
  import opened TypedTrees
  import opened SubstitutionLaws
  import opened Deriving
  import opened DeriveLaws
  import opened PlanAnswers

  // ----- One method -----

  /** **What fits**: a field of a type that the method's is compatible with, the method's first; and any field,
      when either of the two is not annotated. */
  lemma FitsIs(m: FnDecl, f: FieldDecl, compatible: Compatible)
    ensures FieldFits(m, f, compatible) <==>
            forall want, got :: m.ret == Some(want) && f.ty == Some(got) ==> compatible(want, got)
  {
  }

  /** A field of another type is refused, bound or deduced; the same field without an annotation is taken. */
  lemma MisfitIsRefused(m: FnDecl, name: string, want: TypeRef, got: TypeRef, compatible: Compatible)
    requires m.params == [] && m.ret == Some(want) && !compatible(want, got) && m.name != name
    ensures var f := FieldDecl(name, Some(got));
            && BridgeToTarget(m, [f], [], name, compatible) == Err(WrongFieldType(m.name, name))
            && DeduceFieldBridge(m, [f], compatible) == Err(NoCandidate(m.name))
    ensures BridgeToTarget(m, [FieldDecl(name, None)], [], name, compatible).Ok?
    ensures DeduceFieldBridge(m, [FieldDecl(name, None)], compatible).Ok?
  {
    OnlyOne(m, FieldDecl(name, Some(got)), compatible);
    OnlyOne(m, FieldDecl(name, None), compatible);
  }

  lemma OnlyOne(m: FnDecl, f: FieldDecl, compatible: Compatible)
    ensures Fitting(m, [f], compatible) == if FieldFits(m, f, compatible) then [f] else []
    ensures FindField([f], m.name) == if f.name == m.name then Some(f) else None
  {
    assert [f][1..] == [];
  }

  /** What is wrong with a bound target: a field cannot take arguments, or does not fit; an async method cannot
      stand for one that is not; or there is no such member. */
  ghost predicate BadTarget(
    m: FnDecl, fields: seq<FieldDecl>, existing: seq<FnDecl>, target: string, e: PlanError) {
    if exists f :: f in fields && f.name == target then
      e == if m.params != [] then FieldTakesNoArguments(m.name, target) else WrongFieldType(m.name, target)
    else if exists t :: t in existing && t.name == target then e == AsyncTarget(m.name, target)
    else e == NoSuchTarget(m.name, target)
  }

  lemma BridgeRefusal(
    m: FnDecl, fields: seq<FieldDecl>, existing: seq<FnDecl>, target: string, compatible: Compatible)
    requires BridgeToTarget(m, fields, existing, target, compatible).Err?
    ensures BadTarget(m, fields, existing, target, BridgeToTarget(m, fields, existing, target, compatible).error)
  {
  }

  /** What keeps a field from being deduced: the method takes something; the field of its name does not fit; none
      fits; or several do, and then they are listed. */
  ghost predicate NoDeduction(m: FnDecl, fields: seq<FieldDecl>, compatible: Compatible, e: PlanError) {
    if m.params != [] then e == NeedsBody(m.name)
    else if exists f :: f in fields && f.name == m.name then e == WrongFieldType(m.name, m.name)
    else if forall f :: f in fields ==> !FieldFits(m, f, compatible) then e == NoCandidate(m.name)
    else (e.Ambiguous? && e.name == m.name && |e.candidates| > 1
      && forall f :: f in e.candidates <==> f in fields && FieldFits(m, f, compatible))
  }

  lemma DeductionRefusal(m: FnDecl, fields: seq<FieldDecl>, compatible: Compatible)
    requires DeduceFieldBridge(m, fields, compatible).Err?
    ensures NoDeduction(m, fields, compatible, DeduceFieldBridge(m, fields, compatible).error)
  {
    FittingAre(m, fields, compatible);
    NoneFitting(m, fields, compatible);
    var candidates := Fitting(m, fields, compatible);
    if candidates == [] {
      forall f | f in fields ensures !FieldFits(m, f, compatible) { assert f !in candidates; }
    } else {
      assert candidates[0] in candidates;
    }
  }

  /** What a method the type lacks is refused with: what is wrong with its first binding's target, else why no
      field is deduced. */
  ghost predicate Unserved(
    tm: TraitMethod, fields: seq<FieldDecl>, existing: seq<FnDecl>, spec: DeriveSpec, compatible: Compatible,
    e: PlanError) {
    if exists i :: FirstBindingAt(spec.bindings, tm.sig.name, i) then
      exists i :: FirstBindingAt(spec.bindings, tm.sig.name, i)
        && BadTarget(tm.sig, fields, existing, spec.bindings[i].target, e)
    else !tm.hasDefault && NoDeduction(tm.sig, fields, compatible, e)
  }

  lemma ContributionRefusal(
    tm: TraitMethod, fields: seq<FieldDecl>, existing: seq<FnDecl>, spec: DeriveSpec, compatible: Compatible)
    requires Contribution(tm, fields, existing, spec, compatible).Err?
    ensures Unserved(tm, fields, existing, spec, compatible, Contribution(tm, fields, existing, spec, compatible).error)
  {
    if FindBinding(spec.bindings, tm.sig.name).Some? {
      var i := BindingExists(spec.bindings, tm.sig.name);
      FoundBinding(spec.bindings, tm.sig.name, i);
      BridgeRefusal(tm.sig, fields, existing, spec.bindings[i].target, compatible);
    } else {
      DeductionRefusal(tm.sig, fields, compatible);
    }
  }

  // ----- The whole plan -----

  /** The type has a method of that name. */
  ghost predicate Provided(existing: seq<FnDecl>, name: string) {
    exists i :: 0 <= i < |existing| && existing[i].name == name
  }

  lemma ProvidedIs(existing: seq<FnDecl>, name: string)
    ensures Provided(existing, name) <==> FindMethod(existing, name).Some?
  {
    if FindMethod(existing, name).Some? { var i := FoundMethod(existing, name); }
  }

  /** The first trait method that the type lacks and nothing serves. */
  ghost predicate FirstUnserved(
    methods: seq<TraitMethod>, fields: seq<FieldDecl>, existing: seq<FnDecl>, spec: DeriveSpec,
    compatible: Compatible, i: int) {
    && 0 <= i < |methods| && !Provided(existing, methods[i].sig.name)
    && !Served(methods[i], fields, existing, spec, compatible)
    && forall j :: 0 <= j < i ==>
         Provided(existing, methods[j].sig.name) || Served(methods[j], fields, existing, spec, compatible)
  }

  lemma {:induction false} FirstFailure(
    methods: seq<TraitMethod>, fields: seq<FieldDecl>, existing: seq<FnDecl>, spec: DeriveSpec,
    compatible: Compatible) returns (i: nat)
    requires Contributions(Missing(methods, existing), fields, existing, spec, compatible).Err?
    ensures FirstUnserved(methods, fields, existing, spec, compatible, i)
    ensures Contribution(methods[i], fields, existing, spec, compatible) ==
              Err(Contributions(Missing(methods, existing), fields, existing, spec, compatible).error)
  {
    var last := |methods| - 1;
    var init := methods[..last];
    NextContribution(methods, fields, existing, spec, compatible);
    if Contributions(Missing(init, existing), fields, existing, spec, compatible).Err? {
      i := FirstFailure(init, fields, existing, spec, compatible);
      StillFirst(methods, last, fields, existing, spec, compatible, i);
    } else {
      i := last;
      ProvidedIs(existing, methods[last].sig.name);
      ServedWhen(methods[last], fields, existing, spec, compatible);
      AllServed(init, fields, existing, spec, compatible);
    }
  }

  lemma StillFirst(
    methods: seq<TraitMethod>, n: nat, fields: seq<FieldDecl>, existing: seq<FnDecl>, spec: DeriveSpec,
    compatible: Compatible, i: nat)
    requires n <= |methods| && FirstUnserved(methods[..n], fields, existing, spec, compatible, i)
    ensures FirstUnserved(methods, fields, existing, spec, compatible, i) && methods[i] == methods[..n][i]
  {
    assert forall j :: 0 <= j < n ==> methods[..n][j] == methods[j];
  }

  /** What one more method adds to the contributions. */
  lemma NextContribution(
    methods: seq<TraitMethod>, fields: seq<FieldDecl>, existing: seq<FnDecl>, spec: DeriveSpec,
    compatible: Compatible)
    requires methods != []
    ensures var last := methods[|methods| - 1];
            var before := Contributions(Missing(methods[..|methods| - 1], existing), fields, existing, spec,
              compatible);
            var all := Contributions(Missing(methods, existing), fields, existing, spec, compatible);
            && (before.Err? ==> all == before)
            && (before.Ok? && all.Err? ==>
                  && FindMethod(existing, last.sig.name).None?
                  && Contribution(last, fields, existing, spec, compatible) == Err(all.error))
  {
    var before, last := Missing(methods[..|methods| - 1], existing), methods[|methods| - 1];
    assert (before + [last])[..|before|] == before;
  }

  lemma AllServed(
    methods: seq<TraitMethod>, fields: seq<FieldDecl>, existing: seq<FnDecl>, spec: DeriveSpec,
    compatible: Compatible)
    requires Contributions(Missing(methods, existing), fields, existing, spec, compatible).Ok?
    ensures forall j :: 0 <= j < |methods| ==>
              Provided(existing, methods[j].sig.name) || Served(methods[j], fields, existing, spec, compatible)
  {
    var missing := Missing(methods, existing);
    ContributionsAre(missing, fields, existing, spec, compatible);
    forall j | 0 <= j < |methods|
      ensures Provided(existing, methods[j].sig.name) || Served(methods[j], fields, existing, spec, compatible)
    {
      ProvidedIs(existing, methods[j].sig.name);
      if FindMethod(existing, methods[j].sig.name).None? {
        assert methods[j] in missing;
        var k :| 0 <= k < |missing| && missing[k] == methods[j];
        ServedWhen(missing[k], fields, existing, spec, compatible);
      }
    }
  }

  /** The first binding that names no method of the trait. */
  ghost predicate FirstStray(tr: TraitDecl, bindings: seq<MemberBinding>, i: int) {
    0 <= i < |bindings| && !HasMethod(tr, bindings[i].member)
    && forall j :: 0 <= j < i ==> HasMethod(tr, bindings[j].member)
  }

  lemma {:induction false} StrayIs(tr: TraitDecl, bindings: seq<MemberBinding>) returns (i: nat)
    requires StrayBinding(tr, bindings).Some?
    ensures FirstStray(tr, bindings, i) && StrayBinding(tr, bindings) == Some(bindings[i])
  {
    i := 0;
    if HasMethod(tr, bindings[0].member) {
      i := StrayIs(tr, bindings[1..]);
      assert forall j :: 0 < j <= i ==> bindings[j] == bindings[1..][j - 1];
      i := i + 1;
    }
  }

  /** **What a derive is refused with.** The faults are looked for in this order: the number of arguments; with a
      field to go through, bindings beside it or no such field; else the first binding that names no method, or
      the first method the type lacks that nothing serves. */
  lemma PlanRefusal(
    tr: TraitDecl, fields: seq<FieldDecl>, existing: seq<FnDecl>, spec: DeriveSpec, compatible: Compatible)
    requires Plan(tr, fields, existing, spec, compatible).Err?
    ensures var e := Plan(tr, fields, existing, spec, compatible).error;
            if |spec.args| != |tr.typeParams| then
              e == BadArity(if tr.typeParams == [] then TakesNoArguments
                else WrongCount(|tr.typeParams|, |spec.args|))
            else if spec.via.Some? then
              e == if spec.bindings != [] then ViaWithBindings else NoSuchViaField(spec.via.value)
            else if exists i :: FirstStray(tr, spec.bindings, i) then
              exists i :: FirstStray(tr, spec.bindings, i) && e == NotAMethod(spec.bindings[i].member)
            else
              Concrete(tr, spec.args).Ok? && var ms := Concrete(tr, spec.args).value.methods;
              exists i :: FirstUnserved(ms, fields, existing, spec, compatible, i)
                && Unserved(ms[i], fields, existing, spec, compatible, e)
  {
    InstantiationArity(tr, spec.args);
    if |spec.args| == |tr.typeParams| && spec.via.None? {
      var c := Concrete(tr, spec.args).value;
      SameMethodNames(tr, spec.args);
      if StrayBinding(c, spec.bindings).Some? {
        var i := StrayIs(c, spec.bindings);
        assert FirstStray(tr, spec.bindings, i);
      } else {
        var i := FirstFailure(c.methods, fields, existing, spec, compatible);
        ContributionRefusal(c.methods[i], fields, existing, spec, compatible);
      }
    }
  }

  // ----- What a plan that succeeds adds -----

  lemma {:induction false} MissingInOrder(methods: seq<TraitMethod>, existing: seq<FnDecl>, j: nat, k: nat)
    requires j < k < |Missing(methods, existing)|
    ensures exists p, q :: 0 <= p < q < |methods|
              && methods[p] == Missing(methods, existing)[j] && methods[q] == Missing(methods, existing)[k]
  {
    var last := |methods| - 1;
    var init := methods[..last];
    var before := Missing(init, existing);
    if k < |before| {
      MissingInOrder(init, existing, j, k);
      var p, q :| 0 <= p < q < |init| && init[p] == before[j] && init[q] == before[k];
      assert methods[p] == before[j] && methods[q] == before[k];
    } else {
      assert before[j] in before;
      var p :| 0 <= p < |init| && init[p] == before[j];
      assert methods[p] == before[j] && methods[last] == Missing(methods, existing)[k];
    }
  }

  /** **Added methods come in the trait's order.** */
  lemma AddedInOrder(
    tr: TraitDecl, fields: seq<FieldDecl>, existing: seq<FnDecl>, spec: DeriveSpec, compatible: Compatible, j: nat,
    k: nat)
    requires Plan(tr, fields, existing, spec, compatible).Ok?
    requires j < k < |Plan(tr, fields, existing, spec, compatible).value|
    ensures var out, ms := Plan(tr, fields, existing, spec, compatible).value, Concrete(tr, spec.args).value.methods;
            exists p, q :: 0 <= p < q < |ms| && SameSignature(out[j], ms[p].sig) && SameSignature(out[k], ms[q].sig)
  {
    var c := Concrete(tr, spec.args).value;
    PlanStandsIn(c, fields, existing, spec, compatible);
    MissingInOrder(c.methods, existing, j, k);
  }

  /** **A method's own type parameters** come with its default only: a method made for it has none, and is that
      method's generic signature exactly when it had none either. */
  lemma OwnTypeParamsKept(
    tm: TraitMethod, fields: seq<FieldDecl>, existing: seq<FnDecl>, spec: DeriveSpec, compatible: Compatible)
    requires Contribution(tm, fields, existing, spec, compatible).Ok?
    ensures Contribution(tm, fields, existing, spec, compatible).value.typeParams == tm.sig.typeParams <==>
            tm.sig.typeParams == [] || (tm.hasDefault && forall b :: b in spec.bindings ==> b.member != tm.sig.name)
    ensures forall via :: Forward(tm.sig, via).typeParams == []
  {
  }
}
