/** Attribute arguments bound to fields twice over: once to check them, once to build the value. */
module AttributeArgs {
  import opened Wrappers

  datatype AttrValue =
    | BoolValue(truth: bool)
    | IntValue(value: int)
    | StrValue(text: string)
    | IdentValue(name: string)
    | ListValue(items: seq<AttrValue>)

  datatype FieldType = FieldType(name: string, args: seq<FieldType>)
  datatype Field = Field(name: string, ty: FieldType, hasDefault: bool)
  datatype Arg = Arg(name: Option<string>, value: AttrValue)

  /** What can be wrong inside a literal: a value that is not assignable where it stands, or a name that is
      no type. A composite literal may have several. */
  datatype ValueFault = Mismatch(got: string, want: FieldType) | UnknownType(name: string)

  /** Everything wrong with a literal against a field type, in order. */
  type Check = (AttrValue, FieldType) -> seq<ValueFault>

  datatype ArgError =
    | UnknownField(arg: nat, name: string)
    | TooManyArgs(arg: nat, fields: nat)
    | SetTwice(arg: nat, field: nat)
    | WrongType(arg: nat, field: nat, fault: ValueFault)
    | MissingField(field: nat)

  // ----- Where an argument goes -----

  /** The first field of that name. */
  function Position(fields: seq<Field>, name: string): (r: Option<nat>)
    ensures r.Some? ==> r.value < |fields| && fields[r.value].name == name && forall i :: 0 <= i < r.value ==>
      fields[i].name != name
    ensures r.None? ==> forall i :: 0 <= i < |fields| ==> fields[i].name != name
  {
    if fields == [] then None
    else if fields[0].name == name then Some(0)
    else match Position(fields[1..], name) case None => None case Some(i) => Some(i + 1)
  }

  /** How many of the arguments are positional. */
  function Positionals(args: seq<Arg>): nat {
    if args == [] then 0 else Positionals(args[..|args| - 1]) + if args[|args| - 1].name.None? then 1 else 0
  }

  /** The field the `k`-th argument names, or that its rank among the positional ones picks. */
  function Target(fields: seq<Field>, args: seq<Arg>, k: nat): (r: Option<nat>)
    requires k < |args|
    ensures r.Some? ==> r.value < |fields|
  {
    match args[k].name
    case Some(name) => Position(fields, name)
    case None => if Positionals(args[..k]) < |fields| then Some(Positionals(args[..k])) else None
  }

  ghost predicate FilledBefore(fields: seq<Field>, args: seq<Arg>, k: nat, i: nat)
    requires k <= |args|
  {
    exists j: nat :: j < k && Target(fields, args, j) == Some(i)
  }

  /** What keeps the `k`-th argument from a field of its own, if anything. */
  ghost function BindFault(fields: seq<Field>, args: seq<Arg>, k: nat): Option<ArgError>
    requires k < |args|
  {
    match Target(fields, args, k)
    case None => Some(if args[k].name.Some? then UnknownField(k, args[k].name.value) else TooManyArgs(k, |fields|))
    case Some(i) => if FilledBefore(fields, args, k, i) then Some(SetTwice(k, i)) else None
  }

  function ValueErrors(k: nat, i: nat, faults: seq<ValueFault>): (es: seq<ArgError>)
    ensures |es| == |faults| && forall j :: 0 <= j < |faults| ==> es[j] == WrongType(k, i, faults[j])
  {
    seq(|faults|, j requires 0 <= j < |faults| => WrongType(k, i, faults[j]))
  }

  /** Everything wrong with the `k`-th argument: its binding, else what is wrong inside its value. */
  ghost function ArgErrors(fields: seq<Field>, args: seq<Arg>, check: Check, k: nat): seq<ArgError>
    requires k < |args|
  {
    match BindFault(fields, args, k)
    case Some(e) => [e]
    case None =>
      var i := Target(fields, args, k).value;
      ValueErrors(k, i, check(args[k].value, fields[i].ty))
  }

  /** The errors found at 0, 1, … `n - 1`, in order. */
  ghost function Gather(at: nat -> seq<ArgError>, n: nat): seq<ArgError> {
    if n == 0 then [] else Gather(at, n - 1) + at(n - 1)
  }

  lemma {:induction false} GatherEmpty(at: nat -> seq<ArgError>, n: nat)
    ensures Gather(at, n) == [] <==> forall k: nat :: k < n ==> at(k) == []
  {
    if n > 0 { GatherEmpty(at, n - 1); }
  }

  ghost function ErrorsAt(fields: seq<Field>, args: seq<Arg>, check: Check): nat -> seq<ArgError> {
    (k: nat) => if k < |args| then ArgErrors(fields, args, check, k) else []
  }

  ghost function ArgFaults(fields: seq<Field>, args: seq<Arg>, check: Check, n: nat): seq<ArgError> {
    Gather(ErrorsAt(fields, args, check), n)
  }

  ghost predicate Lacks(fields: seq<Field>, args: seq<Arg>, i: nat)
    requires i < |fields|
  {
    !fields[i].hasDefault && !FilledBefore(fields, args, |args|, i)
  }

  ghost function LacksAt(fields: seq<Field>, args: seq<Arg>): nat -> seq<ArgError> {
    (i: nat) => if i < |fields| && Lacks(fields, args, i) then [MissingField(i)] else []
  }

  ghost function FieldFaults(fields: seq<Field>, args: seq<Arg>, n: nat): seq<ArgError> {
    Gather(LacksAt(fields, args), n)
  }

  /** Everything the check reports: argument by argument, then field by field. */
  ghost function Faults(fields: seq<Field>, args: seq<Arg>, check: Check): seq<ArgError> {
    ArgFaults(fields, args, check, |args|) + FieldFaults(fields, args, |fields|)
  }

  // ----- The check -----

  method CheckAttributeConstruction(fields: seq<Field>, args: seq<Arg>, check: Check) returns (errors: seq<ArgError>)
    ensures errors == Faults(fields, args, check)
  {
    var filled := new bool[|fields|](_ => false);
    var nextPositional: nat := 0;
    errors := [];
    for k := 0 to |args|
      invariant nextPositional == Positionals(args[..k])
      invariant errors == ArgFaults(fields, args, check, k)
      invariant forall i: nat :: i < |fields| ==> (filled[i] <==> FilledBefore(fields, args, k, i))
    {
      PositionalsStep(args, k);
      ghost var was := filled[..];
      var target: Option<nat>;
      match args[k].name {
        case None =>
          target := if nextPositional < |fields| then Some(nextPositional) else None;
          nextPositional := nextPositional + 1;
        case Some(name) =>
          target := Position(fields, name);
      }
      assert target == Target(fields, args, k);
      if target.None? {
        errors := errors + [if args[k].name.Some? then UnknownField(k, args[k].name.value)
          else TooManyArgs(k, |fields|)];
      } else if filled[target.value] {
        errors := errors + [SetTwice(k, target.value)];
      } else {
        filled[target.value] := true;
        errors := errors + ValueErrors(k, target.value, check(args[k].value, fields[target.value].ty));
      }
      assert forall i: nat :: i < |fields| ==> (filled[i] <==> was[i] || target == Some(i));
      FilledStep(fields, args, k);
    }
    var missing := MissingFields(fields, args, filled);
    errors := errors + missing;
  }

  /** The fields no argument filled and no default fills. */
  method MissingFields(fields: seq<Field>, args: seq<Arg>, filled: array<bool>) returns (errors: seq<ArgError>)
    requires filled.Length == |fields|
    requires forall i: nat :: i < |fields| ==> (filled[i] <==> FilledBefore(fields, args, |args|, i))
    ensures errors == FieldFaults(fields, args, |fields|)
  {
    errors := [];
    for i := 0 to |fields|
      invariant errors == FieldFaults(fields, args, i)
    {
      if !filled[i] && !fields[i].hasDefault {
        errors := errors + [MissingField(i)];
      }
    }
  }

  lemma PositionalsStep(args: seq<Arg>, k: nat)
    requires k < |args|
    ensures Positionals(args[..k + 1]) == Positionals(args[..k]) + if args[k].name.None? then 1 else 0
  {
    assert args[..k + 1][..k] == args[..k];
  }

  lemma FilledStep(fields: seq<Field>, args: seq<Arg>, k: nat)
    requires k < |args|
    ensures forall i: nat :: FilledBefore(fields, args, k + 1, i) <==>
      FilledBefore(fields, args, k, i) || Target(fields, args, k) == Some(i)
  {
    forall i: nat | FilledBefore(fields, args, k, i) || Target(fields, args, k) == Some(i)
      ensures FilledBefore(fields, args, k + 1, i)
    {
      if Target(fields, args, k) != Some(i) {
        var j: nat :| j < k && Target(fields, args, j) == Some(i);
        assert j < k + 1;
      }
    }
  }

  // ----- Materialization -----

  /** The last argument among the first `n` that goes to field `i`. */
  function LastTo(fields: seq<Field>, args: seq<Arg>, n: nat, i: nat): (r: Option<nat>)
    requires n <= |args|
    ensures r.Some? ==> r.value < n && Target(fields, args, r.value) == Some(i)
    ensures r.Some? ==> forall j: nat :: r.value < j < n ==> Target(fields, args, j) != Some(i)
    ensures r.None? ==> forall j: nat :: j < n ==> Target(fields, args, j) != Some(i)
  {
    if n == 0 then None
    else if Target(fields, args, n - 1) == Some(i) then Some(n - 1)
    else LastTo(fields, args, n - 1, i)
  }

  /** What field `i` is built with: its last argument, else its default, else `false`. */
  function Built(fields: seq<Field>, args: seq<Arg>, defaults: seq<Option<AttrValue>>, i: nat): AttrValue {
    match LastTo(fields, args, |args|, i)
    case Some(k) => args[k].value
    case None => if i < |defaults| && defaults[i].Some? then defaults[i].value else BoolValue(false)
  }

  method MaterializeArgs(
    fields: seq<Field>, args: seq<Arg>, defaults: seq<Option<AttrValue>>) returns (values: seq<AttrValue>)
    ensures |values| == |fields| && forall i :: 0 <= i < |fields| ==> values[i] == Built(fields, args, defaults, i)
  {
    var slots := new Option<AttrValue>[|fields|](_ => None);
    var nextPositional: nat := 0;
    for k := 0 to |args|
      invariant nextPositional == Positionals(args[..k])
      invariant forall i: nat :: i < |fields| ==>
        slots[i] == match LastTo(fields, args, k, i) { case None => None case Some(j) => Some(args[j].value) }
    {
      PositionalsStep(args, k);
      var idx: Option<nat>;
      match args[k].name {
        case Some(name) =>
          idx := Position(fields, name);
        case None =>
          idx := Some(nextPositional);
          nextPositional := nextPositional + 1;
      }
      if idx.Some? && idx.value < slots.Length {
        slots[idx.value] := Some(args[k].value);
      }
    }
    values := [];
    for i := 0 to |fields|
      invariant |values| == i && forall j :: 0 <= j < i ==> values[j] == Built(fields, args, defaults, j)
    {
      var v := if slots[i].Some? then slots[i] else if i < |defaults| then defaults[i] else None;
      values := values + [if v.Some? then v.value else BoolValue(false)];
    }
  }

  // ----- What the check guarantees -----

  /** Each argument has a field of its own. */
  ghost predicate OneFieldEach(fields: seq<Field>, args: seq<Arg>) {
    && (forall k: nat :: k < |args| ==> Target(fields, args, k).Some?)
    && forall j: nat, k: nat :: j < k < |args| ==> Target(fields, args, j) != Target(fields, args, k)
  }

  lemma NoArgFaults(fields: seq<Field>, args: seq<Arg>, check: Check)
    ensures ArgFaults(fields, args, check, |args|) == [] <==>
            forall k: nat :: k < |args| ==> ArgErrors(fields, args, check, k) == []
  {
    GatherEmpty(ErrorsAt(fields, args, check), |args|);
    assert forall k: nat :: k < |args| ==> ErrorsAt(fields, args, check)(k) == ArgErrors(fields, args, check, k);
  }

  lemma NoFieldFaults(fields: seq<Field>, args: seq<Arg>)
    ensures FieldFaults(fields, args, |fields|) == [] <==> forall i: nat :: i < |fields| ==> !Lacks(fields, args, i)
  {
    GatherEmpty(LacksAt(fields, args), |fields|);
    assert forall i: nat :: i < |fields| ==> (LacksAt(fields, args)(i) == [] <==> !Lacks(fields, args, i));
  }

  /** Nothing is wrong inside any value, against the field it goes to. */
  ghost predicate ValuesFit(fields: seq<Field>, args: seq<Arg>, check: Check) {
    forall k: nat :: k < |args| && Target(fields, args, k).Some? ==>
      check(args[k].value, fields[Target(fields, args, k).value].ty) == []
  }

  lemma BoundApart(fields: seq<Field>, args: seq<Arg>)
    ensures (forall k: nat :: k < |args| ==> BindFault(fields, args, k).None?) <==> OneFieldEach(fields, args)
  {
    if forall k: nat :: k < |args| ==> BindFault(fields, args, k).None? {
      forall k: nat | k < |args|
        ensures Target(fields, args, k).Some? && forall j: nat :: j < k ==>
          Target(fields, args, j) != Target(fields, args, k)
      {
        assert BindFault(fields, args, k).None?;
        assert !FilledBefore(fields, args, k, Target(fields, args, k).value);
      }
    }
    if OneFieldEach(fields, args) {
      forall k: nat | k < |args| ensures BindFault(fields, args, k).None? {
        assert !FilledBefore(fields, args, k, Target(fields, args, k).value);
      }
    }
  }

  lemma ArgAcceptance(fields: seq<Field>, args: seq<Arg>, check: Check)
    ensures (forall k: nat :: k < |args| ==> ArgErrors(fields, args, check, k) == []) <==>
            OneFieldEach(fields, args) && ValuesFit(fields, args, check)
  {
    BoundApart(fields, args);
    if forall k: nat :: k < |args| ==> ArgErrors(fields, args, check, k) == [] {
      forall k: nat | k < |args|
        ensures BindFault(fields, args, k).None? && check(args[k].value, fields[Target(fields, args, k).value].ty) == []
      {
        assert ArgErrors(fields, args, check, k) == [];
      }
    }
    if OneFieldEach(fields, args) && ValuesFit(fields, args, check) {
      forall k: nat | k < |args| ensures ArgErrors(fields, args, check, k) == [] {
        assert BindFault(fields, args, k).None?;
      }
    }
  }

  /** **Acceptance.** The check reports nothing exactly when every argument has a field of its own that
      its value fits, and every field without a default is one of them. */
  lemma AcceptanceIs(fields: seq<Field>, args: seq<Arg>, check: Check)
    ensures Faults(fields, args, check) == [] <==>
            && OneFieldEach(fields, args) && ValuesFit(fields, args, check)
            && (forall i: nat :: i < |fields| && !fields[i].hasDefault ==> FilledBefore(fields, args, |args|, i))
  {
    NoArgFaults(fields, args, check);
    NoFieldFaults(fields, args);
    ArgAcceptance(fields, args, check);
    if forall i: nat :: i < |fields| ==> !Lacks(fields, args, i) {
      forall i: nat | i < |fields| && !fields[i].hasDefault ensures FilledBefore(fields, args, |args|, i) {
        assert !Lacks(fields, args, i);
      }
    }
  }

  /** What was asked for under a name or a place is what the built value holds there. */
  ghost predicate Survives(fields: seq<Field>, args: seq<Arg>, k: nat)
    requires k < |args|
  {
    Target(fields, args, k).Some? && LastTo(fields, args, |args|, Target(fields, args, k).value) == Some(k)
  }

  lemma SecondIsFault(fields: seq<Field>, args: seq<Arg>, j: nat, k: nat)
    requires j < k < |args| && Target(fields, args, j).Some? && Target(fields, args, j) == Target(fields, args, k)
    ensures BindFault(fields, args, k) == Some(SetTwice(k, Target(fields, args, k).value))
  {
    assert FilledBefore(fields, args, k, Target(fields, args, k).value);
  }

  lemma SurvivorsApart(fields: seq<Field>, args: seq<Arg>, j: nat, k: nat)
    requires j < k < |args| && Survives(fields, args, j) && Survives(fields, args, k)
    ensures Target(fields, args, j) != Target(fields, args, k)
  {
  }

  /** Every argument is in the built value exactly when the check finds no name unknown, no argument too
      many and no field set twice. */
  lemma SurvivalIs(fields: seq<Field>, args: seq<Arg>)
    ensures (forall k: nat :: k < |args| ==> Survives(fields, args, k)) <==>
            (forall k: nat :: k < |args| ==> BindFault(fields, args, k).None?)
  {
    if forall k: nat :: k < |args| ==> Survives(fields, args, k) {
      forall k: nat | k < |args| ensures BindFault(fields, args, k).None? {
        assert Survives(fields, args, k);
        forall j: nat | j < k ensures Target(fields, args, j) != Target(fields, args, k) {
          assert Survives(fields, args, j);
          SurvivorsApart(fields, args, j, k);
        }
      }
    }
    if forall k: nat :: k < |args| ==> BindFault(fields, args, k).None? {
      forall k: nat | k < |args| ensures Survives(fields, args, k) {
        assert BindFault(fields, args, k).None?;
        var last := LastTo(fields, args, |args|, Target(fields, args, k).value).value;
        if last > k { SecondIsFault(fields, args, k, last); }
      }
    }
  }

  /** **An accepted attribute materializes faithfully.** Each argument is the value of the one field the
      check bound it to, and a field without an argument has its default; the fallback is used for no
      field whose default folds to a literal. */
  lemma AcceptedIsFaithful(fields: seq<Field>, args: seq<Arg>, check: Check, defaults: seq<Option<AttrValue>>)
    requires Faults(fields, args, check) == []
    ensures forall k: nat :: k < |args| ==>
              && Target(fields, args, k).Some? && Target(fields, args, k).value < |fields|
              && Built(fields, args, defaults, Target(fields, args, k).value) == args[k].value
              && check(args[k].value, fields[Target(fields, args, k).value].ty) == []
    ensures forall i: nat :: i < |fields| && !FilledBefore(fields, args, |args|, i) ==>
              && fields[i].hasDefault
              && (i < |defaults| && defaults[i].Some? ==> Built(fields, args, defaults, i) == defaults[i].value)
  {
    AcceptanceIs(fields, args, check);
    BoundApart(fields, args);
    SurvivalIs(fields, args);
    forall k: nat | k < |args|
      ensures Target(fields, args, k).Some? && Target(fields, args, k).value < |fields|
      ensures Built(fields, args, defaults, Target(fields, args, k).value) == args[k].value
      ensures check(args[k].value, fields[Target(fields, args, k).value].ty) == []
    {
      assert Survives(fields, args, k);
    }
    forall i: nat | i < |fields| && !FilledBefore(fields, args, |args|, i)
      ensures fields[i].hasDefault && LastTo(fields, args, |args|, i).None?
    {
    }
  }

  /** The fallback shows through an accepted attribute exactly where a field was left out and its
      default did not fold. */
  ghost predicate FallsBack(fields: seq<Field>, args: seq<Arg>, defaults: seq<Option<AttrValue>>, i: nat) {
    LastTo(fields, args, |args|, i).None? && !(i < |defaults| && defaults[i].Some?)
  }

  lemma FallbackUnreached(fields: seq<Field>, args: seq<Arg>, check: Check, defaults: seq<Option<AttrValue>>)
    requires Faults(fields, args, check) == []
    ensures (forall i: nat :: i < |fields| ==> !FallsBack(fields, args, defaults, i)) <==>
            (forall i: nat :: i < |fields| && fields[i].hasDefault && !FilledBefore(fields, args, |args|, i) ==>
               i < |defaults| && defaults[i].Some?)
  {
    AcceptanceIs(fields, args, check);
    forall i: nat | i < |fields|
      ensures LastTo(fields, args, |args|, i).None? <==> !FilledBefore(fields, args, |args|, i)
    {
    }
    if forall i: nat :: i < |fields| ==> !FallsBack(fields, args, defaults, i) {
      forall i: nat | i < |fields| && fields[i].hasDefault && !FilledBefore(fields, args, |args|, i)
        ensures i < |defaults| && defaults[i].Some?
      {
        assert !FallsBack(fields, args, defaults, i);
      }
    }
  }

  /** A second value for a field replaces the first one, which is why the check must refuse it. */
  lemma UncheckedOverwrites()
    ensures var fields := [Field("level", FieldType("int", []), false)];
            var args := [Arg(None, IntValue(1)), Arg(Some("level"), IntValue(2))];
            Built(fields, args, [None], 0) == IntValue(2) && !Survives(fields, args, 0)
  {
    var fields := [Field("level", FieldType("int", []), false)];
    var args := [Arg(None, IntValue(1)), Arg(Some("level"), IntValue(2))];
    assert Position(fields, "level") == Some(0);
    assert Target(fields, args, 1) == Some(0);
    assert LastTo(fields, args, 2, 0) == Some(1);
    assert args[..0] == [];
    assert Target(fields, args, 0) == Some(0);
  }

  /** The fallback is reached: an accepted attribute leaves out a field whose default is no literal, such as
      an enum value or a call, and the field is built as `false`. */
  lemma DefaultThatDoesNotFold(name: string, ty: FieldType, check: Check)
    ensures var fields := [Field(name, ty, true)];
            && Faults(fields, [], check) == []
            && FallsBack(fields, [], [None], 0) && Built(fields, [], [None], 0) == BoolValue(false)
  {
    AcceptanceIs([Field(name, ty, true)], [], check);
  }
}
