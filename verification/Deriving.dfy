/** Derive planning: the methods a `@derive(<Trait>)` adds to a type, by bridge, forward, default or deduction. */
module Deriving {
  import opened Wrappers
  import opened TypeRefs
  import opened TypedTrees
  import opened SubstitutionLaws

  datatype FieldDecl = FieldDecl(name: string, ty: Option<TypeRef>)
  datatype MemberBinding = MemberBinding(member: string, target: string)
  datatype DeriveSpec = DeriveSpec(args: seq<TypeRef>, bindings: seq<MemberBinding>, via: Option<string>)

  /** Whether two written types are the same once rendered. */
  type Compatible = (TypeRef, TypeRef) -> bool

  datatype PlanError =
    | BadArity(error: ArityError)
    | NotAMethod(member: string)
    | ViaWithBindings
    | NoSuchViaField(field: string)
    | FieldTakesNoArguments(name: string, target: string)
    | WrongFieldType(name: string, field: string)
    | AsyncTarget(name: string, target: string)
    | NoSuchTarget(name: string, target: string)
    | NeedsBody(name: string)
    | NoCandidate(name: string)
    | Ambiguous(name: string, candidates: seq<FieldDecl>)

  // ----- Lookups -----

  function FindField(fields: seq<FieldDecl>, name: string): (r: Option<FieldDecl>)
    ensures r.Some? ==> r.value in fields && r.value.name == name
    ensures r.None? ==> forall f :: f in fields ==> f.name != name
  {
    if fields == [] then None else if fields[0].name == name then Some(fields[0]) else FindField(fields[1..], name)
  }

  function FindMethod(methods: seq<FnDecl>, name: string): (r: Option<FnDecl>)
    ensures r.Some? ==> r.value in methods && r.value.name == name
    ensures r.None? ==> forall m :: m in methods ==> m.name != name
  {
    if methods == [] then None else if methods[0].name == name then Some(methods[0]) else FindMethod(methods[1..], name)
  }

  /** The first binding for a member. */
  function FindBinding(bindings: seq<MemberBinding>, member: string): (r: Option<MemberBinding>)
    ensures r.Some? ==> r.value in bindings && r.value.member == member
    ensures r.None? ==> forall b :: b in bindings ==> b.member != member
  {
    if bindings == [] then None else if bindings[0].member == member then Some(bindings[0])
      else FindBinding(bindings[1..], member)
  }

  predicate HasMethod(tr: TraitDecl, name: string) {
    exists i :: 0 <= i < |tr.methods| && tr.methods[i].sig.name == name
  }

  /** The first binding that names no method of the trait. */
  function StrayBinding(tr: TraitDecl, bindings: seq<MemberBinding>): (r: Option<MemberBinding>)
    ensures r.Some? ==> r.value in bindings && !HasMethod(tr, r.value.member)
    ensures r.None? ==> forall b :: b in bindings ==> HasMethod(tr, b.member)
  {
    if bindings == [] then None
    else if !HasMethod(tr, bindings[0].member) then Some(bindings[0])
    else StrayBinding(tr, bindings[1..])
  }

  // ----- Synthesis -----

  /** A method with the template's signature and the given result. */
  function SynthFn(template: FnDecl, result: Expr): FnDecl {
    FnDecl(template.name, [], template.params, template.ret, template.isAsync, [Return(Some(result))])
  }

  function MaybeAwait(e: Expr, unwrapFuture: bool): Expr {
    if unwrapFuture then Await(e) else e
  }

  function ParamIdents(params: seq<Param>): (r: seq<Expr>)
    ensures |r| == |params|
  {
    seq(|params|, i requires 0 <= i < |params| => Ident(params[i].name))
  }

  function FieldBridge(m: FnDecl, field: string): FnDecl {
    SynthFn(m, Member(Ident("self"), field))
  }

  function MethodBridge(m: FnDecl, target: FnDecl): FnDecl {
    SynthFn(m, MaybeAwait(Call(Member(Ident("self"), target.name), ParamIdents(m.params)), target.isAsync))
  }

  function Forward(m: FnDecl, field: string): FnDecl {
    SynthFn(m, MaybeAwait(Call(Member(Member(Ident("self"), field), m.name), ParamIdents(m.params)), m.isAsync))
  }

  // ----- Bridging one method -----

  /** An unannotated side settles nothing here. */
  predicate FieldFits(m: FnDecl, f: FieldDecl, compatible: Compatible) {
    m.ret.Some? && f.ty.Some? ==> compatible(m.ret.value, f.ty.value)
  }

  function BridgeToTarget(
    m: FnDecl, fields: seq<FieldDecl>, existing: seq<FnDecl>, target: string,
    compatible: Compatible): Result<FnDecl, PlanError> {
    match FindField(fields, target)
    case Some(f) =>
      if m.params != [] then Err(FieldTakesNoArguments(m.name, target))
      else if !FieldFits(m, f, compatible) then Err(WrongFieldType(m.name, target))
      else Ok(FieldBridge(m, target))
    case None =>
      match FindMethod(existing, target)
      case Some(t) => if t.isAsync && !m.isAsync then Err(AsyncTarget(m.name, target)) else Ok(MethodBridge(m, t))
      case None => Err(NoSuchTarget(m.name, target))
  }

  function Fitting(m: FnDecl, fields: seq<FieldDecl>, compatible: Compatible): seq<FieldDecl> {
    if fields == [] then []
    else (if FieldFits(m, fields[0], compatible) then [fields[0]] else []) + Fitting(m, fields[1..], compatible)
  }

  function DeduceFieldBridge(m: FnDecl, fields: seq<FieldDecl>, compatible: Compatible): Result<FnDecl, PlanError> {
    if m.params != [] then Err(NeedsBody(m.name)) else
    match FindField(fields, m.name)
    case Some(f) => if FieldFits(m, f, compatible) then Ok(FieldBridge(m, f.name))
      else Err(WrongFieldType(m.name, f.name))
    case None =>
      var candidates := Fitting(m, fields, compatible);
      if candidates == [] then Err(NoCandidate(m.name))
      else if |candidates| == 1 then Ok(FieldBridge(m, candidates[0].name))
      else Err(Ambiguous(m.name, candidates))
  }

  /** What one trait method the type does not provide gets: its binding, else its default, else a deduced field. */
  function Contribution(
    tm: TraitMethod, fields: seq<FieldDecl>, existing: seq<FnDecl>, spec: DeriveSpec,
    compatible: Compatible): Result<FnDecl, PlanError> {
    match FindBinding(spec.bindings, tm.sig.name)
    case Some(b) => BridgeToTarget(tm.sig, fields, existing, b.target, compatible)
    case None => if tm.hasDefault then Ok(tm.sig) else DeduceFieldBridge(tm.sig, fields, compatible)
  }

  /** The trait methods the type does not provide itself, in the trait's order. */
  function Missing(methods: seq<TraitMethod>, existing: seq<FnDecl>): (r: seq<TraitMethod>)
    ensures forall tm :: tm in r <==> tm in methods && FindMethod(existing, tm.sig.name).None?
  {
    if methods == [] then []
    else
      var rest := Missing(methods[..|methods| - 1], existing);
      var last := methods[|methods| - 1];
      if FindMethod(existing, last.sig.name).Some? then rest else rest + [last]
  }

  /** Every contribution, or the first that fails. */
  function Contributions(
    tms: seq<TraitMethod>, fields: seq<FieldDecl>, existing: seq<FnDecl>, spec: DeriveSpec,
    compatible: Compatible): Result<seq<FnDecl>, PlanError> {
    if tms == [] then Ok([])
    else
      match Contributions(tms[..|tms| - 1], fields, existing, spec, compatible)
      case Err(e) => Err(e)
      case Ok(out) =>
        match Contribution(tms[|tms| - 1], fields, existing, spec, compatible)
        case Err(e) => Err(e)
        case Ok(d) => Ok(out + [d])
  }

  function Forwards(tms: seq<TraitMethod>, field: string): (r: seq<FnDecl>)
    ensures |r| == |tms| && forall i :: 0 <= i < |tms| ==> r[i] == Forward(tms[i].sig, field)
  {
    seq(|tms|, i requires 0 <= i < |tms| => Forward(tms[i].sig, field))
  }

  function PlanUserTraitVia(
    tr: TraitDecl, fields: seq<FieldDecl>, existing: seq<FnDecl>, spec: DeriveSpec,
    via: string): Result<seq<FnDecl>, PlanError> {
    if spec.bindings != [] then Err(ViaWithBindings)
    else if FindField(fields, via).None? then Err(NoSuchViaField(via))
    else Ok(Forwards(Missing(tr.methods, existing), via))
  }

  /** The plan against a trait with no parameters left. */
  function ConcretePlan(
    tr: TraitDecl, fields: seq<FieldDecl>, existing: seq<FnDecl>, spec: DeriveSpec,
    compatible: Compatible): Result<seq<FnDecl>, PlanError> {
    match spec.via
    case Some(via) => PlanUserTraitVia(tr, fields, existing, spec, via)
    case None =>
      match StrayBinding(tr, spec.bindings)
      case Some(b) => Err(NotAMethod(b.member))
      case None => Contributions(Missing(tr.methods, existing), fields, existing, spec, compatible)
  }

  /** The trait a plan is made against. */
  function Concrete(tr: TraitDecl, args: seq<TypeRef>): Result<TraitDecl, ArityError> {
    match InstantiateTrait(tr, args)
    case Err(e) => Err(e)
    case Ok(None) => Ok(tr)
    case Ok(Some(c)) => Ok(c)
  }

  function Plan(
    tr: TraitDecl, fields: seq<FieldDecl>, existing: seq<FnDecl>, spec: DeriveSpec,
    compatible: Compatible): Result<seq<FnDecl>, PlanError> {
    match Concrete(tr, spec.args)
    case Err(e) => Err(BadArity(e))
    case Ok(c) => ConcretePlan(c, fields, existing, spec, compatible)
  }

  method PlanUserTraitDerive(
    tr: TraitDecl, fields: seq<FieldDecl>, existing: seq<FnDecl>, spec: DeriveSpec, compatible: Compatible)
    returns (r: Result<seq<FnDecl>, PlanError>)
    ensures r == Plan(tr, fields, existing, spec, compatible)
  {
    var concrete := Concrete(tr, spec.args);
    if concrete.Err? { return Err(BadArity(concrete.error)); }
    var c := concrete.value;
    if spec.via.Some? { return PlanUserTraitVia(c, fields, existing, spec, spec.via.value); }
    var stray := StrayBinding(c, spec.bindings);
    if stray.Some? { return Err(NotAMethod(stray.value.member)); }
    var out: seq<FnDecl> := [];
    for i := 0 to |c.methods|
      invariant Contributions(Missing(c.methods[..i], existing), fields, existing, spec, compatible) == Ok(out)
    {
      var tm := c.methods[i];
      ghost var before := Missing(c.methods[..i], existing);
      assert c.methods[..i + 1][..i] == c.methods[..i];
      if FindMethod(existing, tm.sig.name).Some? { continue; }
      assert (before + [tm])[..|before|] == before;
      var got: Result<FnDecl, PlanError>;
      var binding := FindBinding(spec.bindings, tm.sig.name);
      if binding.Some? {
        got := BridgeToTarget(tm.sig, fields, existing, binding.value.target, compatible);
      } else if tm.hasDefault {
        got := Ok(tm.sig);
      } else {
        got := DeduceFieldBridge(tm.sig, fields, compatible);
      }
      if got.Err? {
        FirstFailureStands(c.methods, i + 1, fields, existing, spec, compatible, got.error);
        return Err(got.error);
      }
      out := out + [got.value];
    }
    assert c.methods[..|c.methods|] == c.methods;
    return Ok(out);
  }

  lemma {:induction false} FirstFailureStands(
    methods: seq<TraitMethod>, i: nat, fields: seq<FieldDecl>, existing: seq<FnDecl>, spec: DeriveSpec,
    compatible: Compatible, e: PlanError)
    requires i <= |methods|
    requires Contributions(Missing(methods[..i], existing), fields, existing, spec, compatible) == Err(e)
    ensures Contributions(Missing(methods, existing), fields, existing, spec, compatible) == Err(e)
    decreases |methods| - i
  {
    if i < |methods| {
      var before, tm := Missing(methods[..i], existing), methods[i];
      assert methods[..i + 1][..i] == methods[..i];
      assert (before + [tm])[..|before|] == before;
      FirstFailureStands(methods, i + 1, fields, existing, spec, compatible, e);
    } else {
      assert methods[..i] == methods;
    }
  }
}
