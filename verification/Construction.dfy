/** Dynamic construction of a declared type, from values in field order or from named values: two
    doors onto one acceptance rule. */
module Construction {
  import opened Wrappers
  import opened TypeReprs

  datatype FieldSpec = FieldSpec(name: string, ty: TypeRepr, optional: bool, isPublic: bool)

  datatype ConstructError =
    | TooManyValues(fields: nat, given: nat)
    | NoSuchField(field: string)
    | PrivateField(field: string)
    | WrongType(field: string, expected: string, got: string)
    | MissingField(field: string)

  // ----- One field, one value -----

  /** The scalar kind a field type enforces; widths erase. */
  function EnforcedScalar(ty: TypeRepr): Option<string> {
    match ty
    case Int => Some("int")
    case IntN(_, _) => Some("int")
    case Float => Some("float")
    case F32 => Some("float")
    case F64 => Some("float")
    case Bool => Some("bool")
    case Str => Some("string")
    case Bytes => Some("bytes")
    case _ => None
  }

  function ValueReprName(ty: TypeRepr): string {
    match EnforcedScalar(ty)
    case Some(name) => name
    case None =>
      match ty
      case ListOf(_) => "list"
      case SetOf(_) => "set"
      case MapOf(_, _) => "map"
      case OptionOf(_) => "option"
      case ResultOf(_, _) => "result"
      case Unit => "unit"
      case Never => "never"
      case DynTrait(_) => "dyntrait"
      case Fn(_, _) => "fn"
      case Union(_) => "union"
      case Enum(n, _) => n
      case Struct(n, _) => n
      case Class(n, _) => n
      case Named(n, _) => n
      case _ => "dyn"
  }

  function CheckFieldValue(spec: FieldSpec, repr: TypeRepr): Option<ConstructError> {
    match EnforcedScalar(spec.ty)
    case Some(expected) =>
      var got := ValueReprName(repr);
      if got != expected then Some(WrongType(spec.name, expected, got)) else None
    case None =>
      match NominalName(spec.ty)
      case Some(expected) =>
        if NominalName(repr) != Some(expected) then Some(WrongType(spec.name, expected, ValueReprName(repr))) else None
      case None => None
  }

  /** Visibility is asked before typing. */
  function CheckField(spec: FieldSpec, repr: TypeRepr): Option<ConstructError> {
    if !spec.isPublic then Some(PrivateField(spec.name)) else CheckFieldValue(spec, repr)
  }

  // ----- Positional -----

  function FirstRefused(specs: seq<FieldSpec>, reprs: seq<TypeRepr>): Option<ConstructError>
    requires |reprs| <= |specs|
  {
    if reprs == [] then None
    else if CheckField(specs[0], reprs[0]).Some? then CheckField(specs[0], reprs[0])
    else FirstRefused(specs[1..], reprs[1..])
  }

  /** The first required field from `n` on. */
  function FirstRequired(specs: seq<FieldSpec>, n: nat): Option<ConstructError>
    requires n <= |specs|
    decreases |specs| - n
  {
    if n == |specs| then None
    else if !specs[n].optional then Some(MissingField(specs[n].name))
    else FirstRequired(specs, n + 1)
  }

  function Names(specs: seq<FieldSpec>): (names: seq<string>)
    ensures |names| == |specs| && forall i :: 0 <= i < |specs| ==> names[i] == specs[i].name
  {
    seq(|specs|, i requires 0 <= i < |specs| => specs[i].name)
  }

  function PositionalPlan(specs: seq<FieldSpec>, reprs: seq<TypeRepr>): Result<seq<string>, ConstructError> {
    if |reprs| > |specs| then Err(TooManyValues(|specs|, |reprs|))
    else if FirstRefused(specs, reprs).Some? then Err(FirstRefused(specs, reprs).value)
    else if FirstRequired(specs, |reprs|).Some? then Err(FirstRequired(specs, |reprs|).value)
    else Ok(Names(specs)[..|reprs|])
  }

  lemma {:induction false} RefusedAt(specs: seq<FieldSpec>, reprs: seq<TypeRepr>, n: nat)
    requires n <= |reprs| <= |specs|
    requires forall i :: 0 <= i < n ==> CheckField(specs[i], reprs[i]).None?
    ensures n == |reprs| ==> FirstRefused(specs, reprs).None?
    ensures n < |reprs| && CheckField(specs[n], reprs[n]).Some? ==>
      FirstRefused(specs, reprs) == CheckField(specs[n], reprs[n])
  {
    if n > 0 {
      assert forall i :: 0 <= i < n - 1 ==> specs[1..][i] == specs[i + 1] && reprs[1..][i] == reprs[i + 1];
      RefusedAt(specs[1..], reprs[1..], n - 1);
    }
  }

  lemma {:induction false} RequiredAt(specs: seq<FieldSpec>, n: nat, i: nat)
    requires n <= i <= |specs| && forall j :: n <= j < i ==> specs[j].optional
    ensures FirstRequired(specs, n) == FirstRequired(specs, i)
    decreases i - n
  {
    if n < i { RequiredAt(specs, n + 1, i); }
  }

  method PlanConstruct(specs: seq<FieldSpec>, reprs: seq<TypeRepr>) returns (r: Result<seq<string>, ConstructError>)
    ensures r == PositionalPlan(specs, reprs)
  {
    if |reprs| > |specs| {
      return Err(TooManyValues(|specs|, |reprs|));
    }
    var fill: seq<string> := [];
    for i := 0 to |specs|
      invariant fill == Names(specs)[..if i < |reprs| then i else |reprs|]
      invariant forall j :: 0 <= j < i && j < |reprs| ==> CheckField(specs[j], reprs[j]).None?
      invariant forall j :: |reprs| <= j < i ==> specs[j].optional
    {
      if i < |reprs| {
        var refused := CheckField(specs[i], reprs[i]);
        if refused.Some? {
          RefusedAt(specs, reprs, i);
          return Err(refused.value);
        }
        fill := fill + [specs[i].name];
      } else {
        RefusedAt(specs, reprs, |reprs|);
        RequiredAt(specs, |reprs|, i);
        if !specs[i].optional {
          return Err(MissingField(specs[i].name));
        }
      }
    }
    RefusedAt(specs, reprs, |reprs|);
    RequiredAt(specs, |reprs|, |specs|);
    return Ok(fill);
  }

  // ----- Named -----

  function FindField(specs: seq<FieldSpec>, name: string): (r: Option<FieldSpec>)
    ensures r.None? <==> forall s :: s in specs ==> s.name != name
    ensures r.Some? ==> r.value in specs && r.value.name == name
  {
    if specs == [] then None
    else if specs[0].name == name then Some(specs[0])
    else
      assert specs == [specs[0]] + specs[1..];
      FindField(specs[1..], name)
  }

  /** What is wrong with one provided pair, if anything. */
  function CheckProvided(specs: seq<FieldSpec>, pair: (string, TypeRepr)): Option<ConstructError> {
    match FindField(specs, pair.0)
    case None => Some(NoSuchField(pair.0))
    case Some(spec) => CheckField(spec, pair.1)
  }

  function FirstRefusedNamed(specs: seq<FieldSpec>, provided: seq<(string, TypeRepr)>): Option<ConstructError> {
    if provided == [] then None
    else if CheckProvided(specs, provided[0]).Some? then CheckProvided(specs, provided[0])
    else FirstRefusedNamed(specs, provided[1..])
  }

  predicate Supplies(provided: seq<(string, TypeRepr)>, name: string) {
    exists i | 0 <= i < |provided| :: provided[i].0 == name
  }

  function FirstUnsupplied(specs: seq<FieldSpec>, provided: seq<(string, TypeRepr)>): Option<ConstructError> {
    if specs == [] then None
    else if !Supplies(provided, specs[0].name) && !specs[0].optional then Some(MissingField(specs[0].name))
    else FirstUnsupplied(specs[1..], provided)
  }

  function NamedPlan(specs: seq<FieldSpec>, provided: seq<(string, TypeRepr)>): Result<(), ConstructError> {
    if FirstRefusedNamed(specs, provided).Some? then Err(FirstRefusedNamed(specs, provided).value)
    else if FirstUnsupplied(specs, provided).Some? then Err(FirstUnsupplied(specs, provided).value)
    else Ok(())
  }

  lemma {:induction false} RefusedNamedAt(specs: seq<FieldSpec>, provided: seq<(string, TypeRepr)>, n: nat)
    requires n <= |provided| && forall i :: 0 <= i < n ==> CheckProvided(specs, provided[i]).None?
    ensures n == |provided| ==> FirstRefusedNamed(specs, provided).None?
    ensures n < |provided| && CheckProvided(specs, provided[n]).Some? ==>
      FirstRefusedNamed(specs, provided) == CheckProvided(specs, provided[n])
  {
    if n > 0 { RefusedNamedAt(specs, provided[1..], n - 1); }
  }

  lemma {:induction false} UnsuppliedAt(specs: seq<FieldSpec>, provided: seq<(string, TypeRepr)>, n: nat)
    requires n <= |specs| && forall i :: 0 <= i < n ==> Supplies(provided, specs[i].name) || specs[i].optional
    ensures n == |specs| ==> FirstUnsupplied(specs, provided).None?
    ensures n < |specs| && !Supplies(provided, specs[n].name) && !specs[n].optional
            ==> FirstUnsupplied(specs, provided) == Some(MissingField(specs[n].name))
  {
    if n > 0 { UnsuppliedAt(specs[1..], provided, n - 1); }
  }

  method PlanConstructNamed(
    specs: seq<FieldSpec>, provided: seq<(string, TypeRepr)>) returns (r: Result<(), ConstructError>)
    ensures r == NamedPlan(specs, provided)
  {
    for i := 0 to |provided|
      invariant forall j :: 0 <= j < i ==> CheckProvided(specs, provided[j]).None?
    {
      RefusedNamedAt(specs, provided, i);
      var found := FindField(specs, provided[i].0);
      if found.None? {
        return Err(NoSuchField(provided[i].0));
      }
      var refused := CheckField(found.value, provided[i].1);
      if refused.Some? {
        return Err(refused.value);
      }
    }
    RefusedNamedAt(specs, provided, |provided|);
    for i := 0 to |specs|
      invariant forall j :: 0 <= j < i ==> Supplies(provided, specs[j].name) || specs[j].optional
    {
      UnsuppliedAt(specs, provided, i);
      if !Supplies(provided, specs[i].name) && !specs[i].optional {
        return Err(MissingField(specs[i].name));
      }
    }
    UnsuppliedAt(specs, provided, |specs|);
    return Ok(());
  }

  // ----- One acceptance rule -----

  ghost predicate DistinctFields(specs: seq<FieldSpec>) {
    forall i, j :: 0 <= i < j < |specs| ==> specs[i].name != specs[j].name
  }

  /** The values paired with the names of the first fields. */
  function Zipped(specs: seq<FieldSpec>, reprs: seq<TypeRepr>): (z: seq<(string, TypeRepr)>)
    requires |reprs| <= |specs|
    ensures |z| == |reprs| && forall i :: 0 <= i < |z| ==> z[i] == (specs[i].name, reprs[i])
  {
    seq(|reprs|, i requires 0 <= i < |reprs| => (specs[i].name, reprs[i]))
  }

  lemma {:induction false} FindDistinct(specs: seq<FieldSpec>, i: nat)
    requires DistinctFields(specs) && i < |specs|
    ensures FindField(specs, specs[i].name) == Some(specs[i])
  {
    if i > 0 {
      assert specs[0].name != specs[i].name;
      FindDistinct(specs[1..], i - 1);
    }
  }

  /** The named door accepts exactly the pairs that all name a visible field of the right type, and
      leave no required field out. */
  lemma NamedAcceptance(specs: seq<FieldSpec>, provided: seq<(string, TypeRepr)>)
    ensures NamedPlan(specs, provided).Ok? <==>
            && (forall i :: 0 <= i < |provided| ==> CheckProvided(specs, provided[i]).None?)
            && (forall s :: s in specs ==> s.optional || Supplies(provided, s.name))
  {
    NoneRefused(specs, provided);
    NoneUnsupplied(specs, provided);
  }

  lemma {:induction false} NoneRefused(specs: seq<FieldSpec>, provided: seq<(string, TypeRepr)>)
    ensures FirstRefusedNamed(specs, provided).None? <==>
      forall i :: 0 <= i < |provided| ==> CheckProvided(specs, provided[i]).None?
  {
    if provided != [] {
      NoneRefused(specs, provided[1..]);
      assert forall i :: 1 <= i < |provided| ==> provided[i] == provided[1..][i - 1];
    }
  }

  lemma {:induction false} NoneUnsupplied(specs: seq<FieldSpec>, provided: seq<(string, TypeRepr)>)
    ensures FirstUnsupplied(specs, provided).None? <==>
      forall s :: s in specs ==> s.optional || Supplies(provided, s.name)
  {
    if specs != [] {
      NoneUnsupplied(specs[1..], provided);
      assert specs == [specs[0]] + specs[1..];
    }
  }

  /** The order in which named values arrive decides nothing. */
  lemma NamedOrderIrrelevant(specs: seq<FieldSpec>, p: seq<(string, TypeRepr)>, q: seq<(string, TypeRepr)>)
    requires multiset(p) == multiset(q)
    ensures NamedPlan(specs, p).Ok? <==> NamedPlan(specs, q).Ok?
  {
    NamedAcceptance(specs, p);
    NamedAcceptance(specs, q);
    assert forall x :: x in p <==> x in multiset(p);
    assert forall x :: x in q <==> x in multiset(q);
    if forall i :: 0 <= i < |q| ==> CheckProvided(specs, q[i]).None? { SameMembers(specs, p, q); }
    if forall i :: 0 <= i < |p| ==> CheckProvided(specs, p[i]).None? { SameMembers(specs, q, p); }
    forall name ensures Supplies(p, name) <==> Supplies(q, name) {
      if i :| 0 <= i < |p| && p[i].0 == name { assert p[i] in q; }
      if i :| 0 <= i < |q| && q[i].0 == name { assert q[i] in p; }
    }
  }

  lemma SameMembers(specs: seq<FieldSpec>, p: seq<(string, TypeRepr)>, q: seq<(string, TypeRepr)>)
    requires forall x :: x in p ==> x in q
    requires forall i :: 0 <= i < |q| ==> CheckProvided(specs, q[i]).None?
    ensures forall i :: 0 <= i < |p| ==> CheckProvided(specs, p[i]).None?
  {
    forall i | 0 <= i < |p| ensures CheckProvided(specs, p[i]).None? {
      assert p[i] in q;
    }
  }

  /** **Positional and named construction accept the same things.** With distinct field names and no
      more values than fields, the two plans give one verdict, refusal and all; and an accepted
      positional plan fills the first fields, in order. */
  lemma PositionalIsNamed(specs: seq<FieldSpec>, reprs: seq<TypeRepr>)
    requires DistinctFields(specs) && |reprs| <= |specs|
    ensures match NamedPlan(specs, Zipped(specs, reprs))
            case Ok(_) => PositionalPlan(specs, reprs) == Ok(Names(specs)[..|reprs|])
            case Err(e) => PositionalPlan(specs, reprs) == Err(e)
  {
    var z := Zipped(specs, reprs);
    forall i | 0 <= i < |reprs| ensures CheckProvided(specs, z[i]) == CheckField(specs[i], reprs[i]) {
      FindDistinct(specs, i);
    }
    SameRefusal(specs, reprs, 0);
    assert specs[0..] == specs && reprs[0..] == reprs && z[0..] == z;
    SuppliedZip(specs, reprs);
    SameMissing(specs, reprs, 0);
  }

  lemma {:induction false} SameRefusal(specs: seq<FieldSpec>, reprs: seq<TypeRepr>, n: nat)
    requires n <= |reprs| <= |specs|
    requires forall i :: 0 <= i < |reprs| ==>
      CheckProvided(specs, Zipped(specs, reprs)[i]) == CheckField(specs[i], reprs[i])
    ensures FirstRefusedNamed(specs, Zipped(specs, reprs)[n..]) == FirstRefused(specs[n..], reprs[n..])
    decreases |reprs| - n
  {
    if n < |reprs| {
      SameRefusal(specs, reprs, n + 1);
      assert specs[n..][1..] == specs[n + 1..] && reprs[n..][1..] == reprs[n + 1..];
      assert Zipped(specs, reprs)[n..][1..] == Zipped(specs, reprs)[n + 1..];
    }
  }

  lemma SuppliedZip(specs: seq<FieldSpec>, reprs: seq<TypeRepr>)
    requires DistinctFields(specs) && |reprs| <= |specs|
    ensures forall i :: 0 <= i < |specs| ==> (Supplies(Zipped(specs, reprs), specs[i].name) <==> i < |reprs|)
  {
    forall i | 0 <= i < |specs| ensures Supplies(Zipped(specs, reprs), specs[i].name) <==> i < |reprs| {
      if i < |reprs| { assert Zipped(specs, reprs)[i].0 == specs[i].name; }
    }
  }

  lemma {:induction false} SameMissing(specs: seq<FieldSpec>, reprs: seq<TypeRepr>, n: nat)
    requires n <= |specs| && |reprs| <= |specs|
    requires forall i :: 0 <= i < |specs| ==> (Supplies(Zipped(specs, reprs), specs[i].name) <==> i < |reprs|)
    ensures FirstUnsupplied(specs[n..], Zipped(specs, reprs)) ==
      FirstRequired(specs, if n < |reprs| then |reprs| else n)
    decreases |specs| - n
  {
    if n < |specs| {
      SameMissing(specs, reprs, n + 1);
      assert specs[n..][1..] == specs[n + 1..];
    }
  }

  // ----- A variant's payload -----

  function PositionOf(provided: seq<string>, name: string): (r: Option<nat>)
    ensures r.None? <==> name !in provided
    ensures r.Some? ==> r.value < |provided| && provided[r.value] == name
  {
    if provided == [] then None
    else if provided[0] == name then Some(0)
    else
      assert provided == [provided[0]] + provided[1..];
      match PositionOf(provided[1..], name)
      case None => None
      case Some(i) => Some(i + 1)
  }

  /** Where each payload field's value sits among the provided ones, in declaration order. */
  function PayloadOrder(payload: seq<FieldSpec>, provided: seq<string>): seq<nat> {
    if payload == [] then []
    else
      (match PositionOf(provided, payload[0].name)
       case None => []
       case Some(i) => [i]) + PayloadOrder(payload[1..], provided)
  }

  /** Once the named plan accepts a payload, whose fields are all required, the order lists for each
      payload field the place of the value given under its name. */
  lemma {:induction false} PayloadOrderIsComplete(payload: seq<FieldSpec>, provided: seq<string>)
    requires forall s :: s in payload ==> s.name in provided
    ensures |PayloadOrder(payload, provided)| == |payload|
    ensures forall i :: 0 <= i < |payload| ==>
              PayloadOrder(payload, provided)[i] < |provided|
                && provided[PayloadOrder(payload, provided)[i]] == payload[i].name
  {
    if payload != [] {
      assert payload[0] in payload && payload == [payload[0]] + payload[1..];
      PayloadOrderIsComplete(payload[1..], provided);
    }
  }

  lemma AcceptedPayload(payload: seq<FieldSpec>, provided: seq<(string, TypeRepr)>, names: seq<string>)
    requires NamedPlan(payload, provided).Ok? && forall s :: s in payload ==> !s.optional
    requires |names| == |provided| && forall i :: 0 <= i < |names| ==> names[i] == provided[i].0
    requires DistinctFields(payload) && forall i, j :: 0 <= i < j < |names| ==> names[i] != names[j]
    ensures var order := PayloadOrder(payload, names);
            && |order| == |payload|
            && (forall i :: 0 <= i < |order| ==> order[i] < |names| && names[order[i]] == payload[i].name)
            && (forall j :: 0 <= j < |names| ==> j in order)
  {
    NamedAcceptance(payload, provided);
    forall s | s in payload ensures s.name in names {
      var i :| 0 <= i < |provided| && provided[i].0 == s.name;
      assert names[i] == s.name;
    }
    PayloadOrderIsComplete(payload, names);
    var order := PayloadOrder(payload, names);
    forall j | 0 <= j < |names| ensures j in order {
      assert CheckProvided(payload, provided[j]).None?;
      var spec := FindField(payload, names[j]).value;
      var i :| 0 <= i < |payload| && payload[i] == spec;
      assert names[order[i]] == names[j];
      assert order[i] == j;
    }
  }
}
