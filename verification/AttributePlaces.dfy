/** Which field each attribute argument goes to, what is reported, and what is built, argument by argument. */
module AttributePlaces {
  import opened Wrappers
  import opened AttributeArgs

  // ----- Where an argument goes -----

  /** The positional arguments ahead of the `k`-th. */
  ghost function PositionalsAhead(args: seq<Arg>, k: nat): set<nat>
    requires k <= |args|
  {
    set j: nat | j < k && args[j].name.None?
  }

  /** The `k`-th argument goes to field `i`: the first of the name it gives, or, with no name, the one with as
      many fields ahead of it as there are positional arguments ahead. */
  ghost predicate GoesTo(fields: seq<Field>, args: seq<Arg>, k: nat, i: nat)
    requires k < |args|
  {
    i < |fields| &&
    match args[k].name
    case Some(name) => fields[i].name == name && forall j :: 0 <= j < i ==> fields[j].name != name
    case None => |PositionalsAhead(args, k)| == i
  }

  lemma {:induction false} PositionalsCount(args: seq<Arg>, k: nat)
    requires k <= |args|
    ensures Positionals(args[..k]) == |PositionalsAhead(args, k)|
  {
    if k > 0 {
      PositionalsCount(args, k - 1);
      PositionalsStep(args, k - 1);
      var before := PositionalsAhead(args, k - 1);
      assert PositionalsAhead(args, k) == if args[k - 1].name.None? then before + {k - 1} else before;
    }
  }

  lemma TargetIs(fields: seq<Field>, args: seq<Arg>, k: nat)
    requires k < |args|
    ensures forall i: nat :: Target(fields, args, k) == Some(i) <==> GoesTo(fields, args, k, i)
  {
    PositionalsCount(args, k);
  }

  lemma TargetsAre(fields: seq<Field>, args: seq<Arg>)
    ensures forall k: nat, i: nat :: k < |args| ==> (Target(fields, args, k) == Some(i) <==> GoesTo(fields, args, k, i))
  {
    forall k: nat, i: nat | k < |args| ensures Target(fields, args, k) == Some(i) <==> GoesTo(fields, args, k, i) {
      TargetIs(fields, args, k);
    }
  }

  // ----- What is built -----

  /** No later argument goes where the `k`-th does. */
  ghost predicate LastThere(fields: seq<Field>, args: seq<Arg>, k: nat, i: nat) {
    k < |args| && GoesTo(fields, args, k, i) && forall j: nat :: k < j < |args| ==> !GoesTo(fields, args, j, i)
  }

  /** **What a field is built with.** The value of the last argument that goes to it; with none, its default if
      there is a literal one, and `false` if not. */
  lemma BuiltIs(fields: seq<Field>, args: seq<Arg>, defaults: seq<Option<AttrValue>>, i: nat)
    ensures forall k: nat :: LastThere(fields, args, k, i) ==> Built(fields, args, defaults, i) == args[k].value
    ensures (forall k: nat :: k < |args| ==> !GoesTo(fields, args, k, i)) ==>
              Built(fields, args, defaults, i) ==
                if i < |defaults| && defaults[i].Some? then defaults[i].value else BoolValue(false)
  {
    TargetsAre(fields, args);
    forall k: nat | LastThere(fields, args, k, i) ensures Built(fields, args, defaults, i) == args[k].value {
      var last := LastTo(fields, args, |args|, i);
      assert Target(fields, args, k) == Some(i);
      assert last.Some? && last.value == k;
    }
  }

  // ----- What is reported -----

  /** An error is among those reported exactly when it is one argument's, or one missing field's. */
  lemma {:induction false} Gathered(at: nat -> seq<ArgError>, n: nat, e: ArgError)
    ensures e in Gather(at, n) <==> exists k: nat :: k < n && e in at(k)
  {
    if n > 0 { Gathered(at, n - 1, e); }
  }

  /** Something is the matter with the `k`-th argument, and it is `e`. */
  ghost predicate Reported(fields: seq<Field>, args: seq<Arg>, check: Check, e: ArgError) {
    match e
    case UnknownField(k, name) =>
      k < |args| && args[k].name == Some(name) && forall i :: 0 <= i < |fields| ==> fields[i].name != name
    case TooManyArgs(k, n) =>
      k < |args| && args[k].name.None? && |PositionalsAhead(args, k)| >= |fields| == n
    case SetTwice(k, i) =>
      k < |args| && GoesTo(fields, args, k, i) && exists j: nat :: j < k && GoesTo(fields, args, j, i)
    case WrongType(k, i, fault) =>
      && k < |args| && GoesTo(fields, args, k, i) && (forall j: nat :: j < k ==> !GoesTo(fields, args, j, i))
      && fault in check(args[k].value, fields[i].ty)
    case MissingField(i) =>
      i < |fields| && !fields[i].hasDefault && forall k: nat :: k < |args| ==> !GoesTo(fields, args, k, i)
  }

  lemma FilledIs(fields: seq<Field>, args: seq<Arg>, k: nat, i: nat)
    requires k <= |args|
    ensures FilledBefore(fields, args, k, i) <==> exists j: nat :: j < k && GoesTo(fields, args, j, i)
  {
    TargetsAre(fields, args);
    if FilledBefore(fields, args, k, i) {
      var j: nat :| j < k && Target(fields, args, j) == Some(i);
      assert GoesTo(fields, args, j, i);
    }
    if j: nat :| j < k && GoesTo(fields, args, j, i) { assert Target(fields, args, j) == Some(i); }
  }

  /** The argument an error is about, if it is about one. */
  function AboutArg(e: ArgError): Option<nat> {
    match e
    case UnknownField(k, _) => Some(k)
    case TooManyArgs(k, _) => Some(k)
    case SetTwice(k, _) => Some(k)
    case WrongType(k, _, _) => Some(k)
    case MissingField(_) => None
  }

  lemma ArgReported(fields: seq<Field>, args: seq<Arg>, check: Check, k: nat, e: ArgError)
    requires k < |args|
    ensures e in ArgErrors(fields, args, check, k) <==>
            AboutArg(e) == Some(k) && Reported(fields, args, check, e)
  {
    TargetIs(fields, args, k);
    PositionalsCount(args, k);
    match Target(fields, args, k)
    case None =>
    case Some(i) =>
      FilledIs(fields, args, k, i);
      ValueReported(k, i, check(args[k].value, fields[i].ty), e);
      OnlyPlace(fields, args, k, i);
  }

  lemma ValueReported(k: nat, i: nat, faults: seq<ValueFault>, e: ArgError)
    ensures e in ValueErrors(k, i, faults) <==> e.WrongType? && e.arg == k && e.field == i && e.fault in faults
  {
    if e.WrongType? && e.arg == k && e.field == i && e.fault in faults {
      var j :| 0 <= j < |faults| && faults[j] == e.fault;
      assert ValueErrors(k, i, faults)[j] == e;
    }
  }

  lemma OnlyPlace(fields: seq<Field>, args: seq<Arg>, k: nat, i: nat)
    requires k < |args| && GoesTo(fields, args, k, i)
    ensures forall j: nat :: GoesTo(fields, args, k, j) ==> j == i
  {
    TargetIs(fields, args, k);
  }

  /** **What the check reports**, error by error. */
  lemma ReportedIs(fields: seq<Field>, args: seq<Arg>, check: Check, e: ArgError)
    ensures e in Faults(fields, args, check) <==> Reported(fields, args, check, e)
  {
    Gathered(ErrorsAt(fields, args, check), |args|, e);
    Gathered(LacksAt(fields, args), |fields|, e);
    forall k: nat | k < |args|
      ensures e in ErrorsAt(fields, args, check)(k) <==> AboutArg(e) == Some(k) && Reported(fields, args, check, e)
    {
      ArgReported(fields, args, check, k, e);
    }
    forall i: nat | i < |fields|
      ensures e in LacksAt(fields, args)(i) <==> e == MissingField(i) && Reported(fields, args, check, e)
    {
      FilledIs(fields, args, |args|, i);
    }
  }

  /** **In what order**: argument by argument, then the missing fields, in theirs. */
  ghost predicate Before(d: ArgError, e: ArgError) {
    match AboutArg(d)
    case Some(k) => AboutArg(e).Some? ==> k <= AboutArg(e).value
    case None => AboutArg(e).None? && d.field < e.field
  }

  ghost predicate InOrder(errors: seq<ArgError>) {
    forall m, n :: 0 <= m < n < |errors| ==> Before(errors[m], errors[n])
  }

  lemma {:induction false} ArgsInOrder(fields: seq<Field>, args: seq<Arg>, check: Check, n: nat)
    requires n <= |args|
    ensures InOrder(ArgFaults(fields, args, check, n))
    ensures forall e :: e in ArgFaults(fields, args, check, n) ==> AboutArg(e).Some? && AboutArg(e).value < n
  {
    if n > 0 {
      ArgsInOrder(fields, args, check, n - 1);
      forall e | e in ArgErrors(fields, args, check, n - 1) ensures AboutArg(e) == Some(n - 1) {
        ArgReported(fields, args, check, n - 1, e);
      }
      Appended(ArgFaults(fields, args, check, n - 1), ArgErrors(fields, args, check, n - 1));
    }
  }

  lemma Appended(a: seq<ArgError>, b: seq<ArgError>)
    requires InOrder(a) && InOrder(b) && forall d, e :: d in a && e in b ==> Before(d, e)
    ensures InOrder(a + b)
  {
    forall m, n | 0 <= m < n < |a + b| ensures Before((a + b)[m], (a + b)[n]) {
      if m < |a| <= n { assert a[m] in a && b[n - |a|] in b; }
    }
  }

  lemma {:induction false} FieldsInOrder(fields: seq<Field>, args: seq<Arg>, n: nat)
    requires n <= |fields|
    ensures InOrder(FieldFaults(fields, args, n))
    ensures forall e :: e in FieldFaults(fields, args, n) ==> e.MissingField? && e.field < n
  {
    if n > 0 {
      FieldsInOrder(fields, args, n - 1);
      Appended(FieldFaults(fields, args, n - 1), LacksAt(fields, args)(n - 1));
    }
  }

  lemma ReportedInOrder(fields: seq<Field>, args: seq<Arg>, check: Check)
    ensures InOrder(Faults(fields, args, check))
  {
    ArgsInOrder(fields, args, check, |args|);
    FieldsInOrder(fields, args, |fields|);
    Appended(ArgFaults(fields, args, check, |args|), FieldFaults(fields, args, |fields|));
  }

  // ----- With no names at all -----

  lemma {:induction false} AllAhead(args: seq<Arg>, k: nat)
    requires k <= |args| && forall j :: 0 <= j < k ==> args[j].name.None?
    ensures |PositionalsAhead(args, k)| == k
  {
    if k > 0 {
      AllAhead(args, k - 1);
      assert PositionalsAhead(args, k) == PositionalsAhead(args, k - 1) + {k - 1};
    }
  }

  /** **Positional arguments fill the fields in order**: the `k`-th is field `k`, and from the first one past the
      fields on, each is too many. */
  lemma PositionalFill(fields: seq<Field>, args: seq<Arg>, check: Check, defaults: seq<Option<AttrValue>>, k: nat)
    requires k < |args| && forall j :: 0 <= j < |args| ==> args[j].name.None?
    ensures k < |fields| ==> Built(fields, args, defaults, k) == args[k].value
    ensures TooManyArgs(k, |fields|) in Faults(fields, args, check) <==> k >= |fields|
  {
    forall j: nat | j < |args| ensures |PositionalsAhead(args, j)| == j { AllAhead(args, j); }
    if k < |fields| { assert LastThere(fields, args, k, k); }
    BuiltIs(fields, args, defaults, k);
    ReportedIs(fields, args, check, TooManyArgs(k, |fields|));
  }
}
