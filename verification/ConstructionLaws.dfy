/** Which values a construction takes, and what it says to the first one it does not. */
module ConstructionLaws {
  import opened Wrappers
  import opened TypeReprs
  import opened Construction

  // ----- One value for one field -----

  predicate IntLike(t: TypeRepr) { t.Int? || t.IntN? }
  predicate FloatLike(t: TypeRepr) { t.Float? || t.F32? || t.F64? }

  /** `v` is of the scalar kind written `kind`, or of a declared type that is itself called so. */
  ghost predicate OfKind(v: TypeRepr, kind: string) {
    || (kind == "int" && IntLike(v)) || (kind == "float" && FloatLike(v)) || (kind == "bool" && v.Bool?)
    || (kind == "string" && v.Str?) || (kind == "bytes" && v.Bytes?)
    || NominalName(v) == Some(kind)
  }

  /** What a field of type `ty` takes: a scalar field its own kind, whatever the width; a field of a declared
      type that type by name, whatever its arguments; any other field anything. */
  ghost predicate Takes(ty: TypeRepr, v: TypeRepr) {
    if IntLike(ty) then OfKind(v, "int")
    else if FloatLike(ty) then OfKind(v, "float")
    else if ty.Bool? then OfKind(v, "bool")
    else if ty.Str? then OfKind(v, "string")
    else if ty.Bytes? then OfKind(v, "bytes")
    else if NominalName(ty).Some? then NominalName(v) == NominalName(ty)
    else true
  }

  /** What a refusal calls a type, where the type is a scalar or a declared one. */
  ghost predicate CalledKind(t: TypeRepr, kind: string) {
    && (IntLike(t) ==> kind == "int") && (FloatLike(t) ==> kind == "float") && (t.Bool? ==> kind == "bool")
    && (t.Str? ==> kind == "string") && (t.Bytes? ==> kind == "bytes")
    && (NominalName(t).Some? ==> Some(kind) == NominalName(t))
  }

  lemma KindIs(v: TypeRepr, kind: string)
    requires kind == "int" || kind == "float" || kind == "bool" || kind == "string" || kind == "bytes"
    ensures ValueReprName(v) == kind <==> OfKind(v, kind)
  {
  }

  /** The refusal of a value's type: for which field, what it expects, and what it got. */
  ghost predicate WrongFor(spec: FieldSpec, v: TypeRepr, e: ConstructError) {
    e.WrongType? && e.field == spec.name && CalledKind(spec.ty, e.expected) && CalledKind(v, e.got)
  }

  lemma ValueTaken(spec: FieldSpec, v: TypeRepr)
    ensures CheckFieldValue(spec, v).None? <==> Takes(spec.ty, v)
    ensures CheckFieldValue(spec, v).Some? ==> WrongFor(spec, v, CheckFieldValue(spec, v).value)
  {
    match EnforcedScalar(spec.ty)
    case Some(kind) => KindIs(v, kind);
    case None =>
  }

  /** **What a field accepts**: it must be public and take the value; a private field is refused as private
      whatever the value, a public one for its type. */
  lemma FieldAccepts(spec: FieldSpec, v: TypeRepr)
    ensures CheckField(spec, v).None? <==> spec.isPublic && Takes(spec.ty, v)
    ensures !spec.isPublic ==> CheckField(spec, v) == Some(PrivateField(spec.name))
    ensures spec.isPublic && !Takes(spec.ty, v) ==> WrongFor(spec, v, CheckField(spec, v).value)
  {
    ValueTaken(spec, v);
  }

  // ----- Both doors -----

  ghost predicate FirstNamed(specs: seq<FieldSpec>, name: string, f: int) {
    0 <= f < |specs| && specs[f].name == name && forall g :: 0 <= g < f ==> specs[g].name != name
  }

  /** The pair names a public field, the first of that name, which takes the value. */
  ghost predicate PairTaken(specs: seq<FieldSpec>, pair: (string, TypeRepr)) {
    exists f :: FirstNamed(specs, pair.0, f) && specs[f].isPublic && Takes(specs[f].ty, pair.1)
  }

  lemma {:induction false} FoundFirst(specs: seq<FieldSpec>, name: string, f: nat)
    requires FirstNamed(specs, name, f)
    ensures FindField(specs, name) == Some(specs[f])
  {
    if f > 0 {
      assert forall g :: 0 <= g < f ==> specs[1..][g] == specs[g + 1];
      FoundFirst(specs[1..], name, f - 1);
    }
  }

  lemma {:induction false} FirstExists(specs: seq<FieldSpec>, name: string) returns (f: nat)
    requires FindField(specs, name).Some?
    ensures FirstNamed(specs, name, f)
  {
    f := 0;
    if specs[0].name != name {
      f := FirstExists(specs[1..], name);
      assert forall g :: 0 < g <= f ==> specs[g] == specs[1..][g - 1];
      f := f + 1;
    }
  }

  lemma PairAccepts(specs: seq<FieldSpec>, pair: (string, TypeRepr))
    ensures CheckProvided(specs, pair).None? <==> PairTaken(specs, pair)
  {
    if FindField(specs, pair.0).Some? {
      var f := FirstExists(specs, pair.0);
      FoundFirst(specs, pair.0, f);
      FieldAccepts(specs[f], pair.1);
      forall g | FirstNamed(specs, pair.0, g) ensures g == f { }
    }
  }

  /** **What the named door accepts.** */
  lemma NamedAccepts(specs: seq<FieldSpec>, provided: seq<(string, TypeRepr)>)
    ensures NamedPlan(specs, provided).Ok? <==>
            && (forall i :: 0 <= i < |provided| ==> PairTaken(specs, provided[i]))
            && forall f :: 0 <= f < |specs| ==>
                 specs[f].optional || exists i :: 0 <= i < |provided| && provided[i].0 == specs[f].name
  {
    NamedAcceptance(specs, provided);
    forall i | 0 <= i < |provided|
      ensures CheckProvided(specs, provided[i]).None? <==> PairTaken(specs, provided[i])
    {
      PairAccepts(specs, provided[i]);
    }
    forall f | 0 <= f < |specs|
      ensures Supplies(provided, specs[f].name) <==>
        exists i :: 0 <= i < |provided| && provided[i].0 == specs[f].name
    {
    }
    forall s | s in specs ensures exists f :: 0 <= f < |specs| && specs[f] == s { }
  }

  lemma {:induction false} NoneRefusedInOrder(specs: seq<FieldSpec>, reprs: seq<TypeRepr>)
    requires |reprs| <= |specs|
    ensures FirstRefused(specs, reprs).None? <==> forall i :: 0 <= i < |reprs| ==> CheckField(specs[i], reprs[i]).None?
  {
    if reprs != [] {
      NoneRefusedInOrder(specs[1..], reprs[1..]);
      assert forall i :: 1 <= i < |reprs| ==> reprs[i] == reprs[1..][i - 1] && specs[i] == specs[1..][i - 1];
    }
  }

  lemma {:induction false} NoneRequired(specs: seq<FieldSpec>, n: nat)
    requires n <= |specs|
    ensures FirstRequired(specs, n).None? <==> forall f :: n <= f < |specs| ==> specs[f].optional
    decreases |specs| - n
  {
    if n < |specs| { NoneRequired(specs, n + 1); }
  }

  /** **What the positional door accepts**: no more values than fields, each for a public field that takes it,
      and nothing required past them. */
  lemma PositionalAccepts(specs: seq<FieldSpec>, reprs: seq<TypeRepr>)
    ensures PositionalPlan(specs, reprs).Ok? <==>
            && |reprs| <= |specs|
            && (forall i :: 0 <= i < |reprs| ==> specs[i].isPublic && Takes(specs[i].ty, reprs[i]))
            && forall f :: |reprs| <= f < |specs| ==> specs[f].optional
  {
    if |reprs| <= |specs| {
      NoneRefusedInOrder(specs, reprs);
      NoneRequired(specs, |reprs|);
      forall i | 0 <= i < |reprs|
        ensures CheckField(specs[i], reprs[i]).None? <==> specs[i].isPublic && Takes(specs[i].ty, reprs[i])
      {
        FieldAccepts(specs[i], reprs[i]);
      }
    }
  }

  // ----- The first refusal -----

  /** What is wrong with a pair: its name, else the field's visibility, else the value's type. */
  ghost predicate Refusal(specs: seq<FieldSpec>, pair: (string, TypeRepr), e: ConstructError) {
    if exists f :: FirstNamed(specs, pair.0, f) then
      exists f :: FirstNamed(specs, pair.0, f) &&
        if !specs[f].isPublic then e == PrivateField(pair.0)
        else !Takes(specs[f].ty, pair.1) && WrongFor(specs[f], pair.1, e)
    else e == NoSuchField(pair.0)
  }

  lemma RefusalIs(specs: seq<FieldSpec>, pair: (string, TypeRepr))
    requires CheckProvided(specs, pair).Some?
    ensures Refusal(specs, pair, CheckProvided(specs, pair).value)
  {
    if FindField(specs, pair.0).Some? {
      var f := FirstExists(specs, pair.0);
      FoundFirst(specs, pair.0, f);
      FieldAccepts(specs[f], pair.1);
    }
  }

  ghost predicate FirstRefusedPair(specs: seq<FieldSpec>, provided: seq<(string, TypeRepr)>, i: int) {
    0 <= i < |provided| && !PairTaken(specs, provided[i]) && forall j :: 0 <= j < i ==> PairTaken(specs, provided[j])
  }

  ghost predicate FirstUnfilled(specs: seq<FieldSpec>, provided: seq<(string, TypeRepr)>, f: int) {
    && 0 <= f < |specs| && !specs[f].optional && !Supplies(provided, specs[f].name)
    && forall g :: 0 <= g < f ==> specs[g].optional || Supplies(provided, specs[g].name)
  }

  lemma {:induction false} RefusedPair(specs: seq<FieldSpec>, provided: seq<(string, TypeRepr)>) returns (i: nat)
    requires FirstRefusedNamed(specs, provided).Some?
    ensures FirstRefusedPair(specs, provided, i)
    ensures FirstRefusedNamed(specs, provided) == CheckProvided(specs, provided[i])
  {
    i := 0;
    PairAccepts(specs, provided[0]);
    if CheckProvided(specs, provided[0]).None? {
      i := RefusedPair(specs, provided[1..]);
      assert forall j :: 0 < j <= i ==> provided[j] == provided[1..][j - 1];
      i := i + 1;
    }
  }

  lemma {:induction false} UnfilledField(specs: seq<FieldSpec>, provided: seq<(string, TypeRepr)>) returns (f: nat)
    requires FirstUnsupplied(specs, provided).Some?
    ensures FirstUnfilled(specs, provided, f)
    ensures FirstUnsupplied(specs, provided) == Some(MissingField(specs[f].name))
  {
    f := 0;
    if Supplies(provided, specs[0].name) || specs[0].optional {
      f := UnfilledField(specs[1..], provided);
      assert forall g :: 0 < g <= f ==> specs[g] == specs[1..][g - 1];
      f := f + 1;
    }
  }

  /** **What the named door answers when it refuses**: what is wrong with the first pair that is refused, else
      the first required field that no pair names. */
  lemma NamedRefusal(specs: seq<FieldSpec>, provided: seq<(string, TypeRepr)>)
    requires NamedPlan(specs, provided).Err?
    ensures var e := NamedPlan(specs, provided).error;
            || (exists i :: FirstRefusedPair(specs, provided, i) && Refusal(specs, provided[i], e))
            || ((forall i :: 0 <= i < |provided| ==> PairTaken(specs, provided[i]))
                && exists f :: FirstUnfilled(specs, provided, f) && e == MissingField(specs[f].name))
  {
    if FirstRefusedNamed(specs, provided).Some? {
      var i := RefusedPair(specs, provided);
      RefusalIs(specs, provided[i]);
    } else {
      NoneRefused(specs, provided);
      forall i | 0 <= i < |provided| ensures PairTaken(specs, provided[i]) { PairAccepts(specs, provided[i]); }
      var f := UnfilledField(specs, provided);
    }
  }

  /** The first value its field does not take. */
  ghost predicate FirstRefusedValue(specs: seq<FieldSpec>, reprs: seq<TypeRepr>, i: int) {
    && 0 <= i < |reprs| && i < |specs| && !(specs[i].isPublic && Takes(specs[i].ty, reprs[i]))
    && forall j :: 0 <= j < i ==> specs[j].isPublic && Takes(specs[j].ty, reprs[j])
  }

  lemma {:induction false} RefusedValue(specs: seq<FieldSpec>, reprs: seq<TypeRepr>) returns (i: nat)
    requires |reprs| <= |specs| && FirstRefused(specs, reprs).Some?
    ensures FirstRefusedValue(specs, reprs, i) && FirstRefused(specs, reprs) == CheckField(specs[i], reprs[i])
  {
    i := 0;
    FieldAccepts(specs[0], reprs[0]);
    if CheckField(specs[0], reprs[0]).None? {
      i := RefusedValue(specs[1..], reprs[1..]);
      assert forall j :: 0 < j <= i ==> specs[j] == specs[1..][j - 1] && reprs[j] == reprs[1..][j - 1];
      i := i + 1;
    }
  }

  lemma {:induction false} RequiredPast(specs: seq<FieldSpec>, n: nat) returns (f: nat)
    requires n <= |specs| && FirstRequired(specs, n).Some?
    ensures n <= f < |specs| && !specs[f].optional && forall g :: n <= g < f ==> specs[g].optional
    ensures FirstRequired(specs, n) == Some(MissingField(specs[f].name))
    decreases |specs| - n
  {
    f := n;
    if specs[n].optional { f := RequiredPast(specs, n + 1); }
  }

  /** **What the positional door answers when it refuses**: how many values there are for how many fields; else
      what is wrong with the first value that is refused; else the first required field past the values. */
  lemma PositionalRefusal(specs: seq<FieldSpec>, reprs: seq<TypeRepr>)
    requires PositionalPlan(specs, reprs).Err?
    ensures var e := PositionalPlan(specs, reprs).error;
            if |reprs| > |specs| then e == TooManyValues(|specs|, |reprs|)
            else if exists i :: FirstRefusedValue(specs, reprs, i) then
              exists i :: FirstRefusedValue(specs, reprs, i) &&
                if specs[i].isPublic then WrongFor(specs[i], reprs[i], e) else e == PrivateField(specs[i].name)
            else
              exists f :: |reprs| <= f < |specs| && !specs[f].optional && e == MissingField(specs[f].name)
                && forall g :: |reprs| <= g < f ==> specs[g].optional
  {
    if |reprs| <= |specs| {
      NoneRefusedInOrder(specs, reprs);
      if FirstRefused(specs, reprs).Some? {
        var i := RefusedValue(specs, reprs);
        FieldAccepts(specs[i], reprs[i]);
      } else {
        var f := RequiredPast(specs, |reprs|);
        forall i | 0 <= i < |reprs| ensures !FirstRefusedValue(specs, reprs, i) { FieldAccepts(specs[i], reprs[i]); }
      }
    }
  }
}
