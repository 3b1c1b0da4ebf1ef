/** When a named call is accepted, and which refusal each fault gives. */
module NamedAcceptance {
  import opened Wrappers
  import opened NamedCalls

  // ----- What a caller sees -----

  /** `name` is a parameter's. */
  ghost predicate Known(params: seq<ParamSig>, name: string) {
    exists p :: 0 <= p < |params| && params[p].name == name
  }

  /** Parameter `p` is the first of its name, and a value is given under that name. */
  ghost predicate Supplied(params: seq<ParamSig>, provided: seq<string>, p: int) {
    0 <= p < |params| && params[p].name in provided && forall q :: 0 <= q < p ==> params[q].name != params[p].name
  }

  /** The parameters supplied are the first few. */
  ghost predicate FirstFew(params: seq<ParamSig>, provided: seq<string>) {
    exists k :: SuppliedUpTo(params, provided, k)
  }

  ghost predicate SuppliedUpTo(params: seq<ParamSig>, provided: seq<string>, k: int) {
    0 <= k <= |params| && forall p :: 0 <= p < |params| ==> (Supplied(params, provided, p) <==> p < k)
  }

  /** Every parameter that needs a value has one. */
  ghost predicate NothingMissing(params: seq<ParamSig>, provided: seq<string>) {
    forall p :: 0 <= p < |params| ==> params[p].optional || Supplied(params, provided, p)
  }

  /** No parameter at 63 or above is supplied. */
  ghost predicate WithinMask(params: seq<ParamSig>, provided: seq<string>) {
    forall p :: 63 <= p < |params| ==> !Supplied(params, provided, p)
  }

  /** The last parameter supplied. */
  ghost predicate LastSupplied(params: seq<ParamSig>, provided: seq<string>, p: int) {
    Supplied(params, provided, p) && forall q :: p < q < |params| ==> !Supplied(params, provided, q)
  }

  // ----- The binding fills exactly those -----

  lemma PositionIs(params: seq<ParamSig>, name: string, p: nat)
    requires p < |params|
    ensures Position(params, name) == Some(p) <==>
            params[p].name == name && forall q :: 0 <= q < p ==> params[q].name != name
  {
  }

  lemma {:induction false} BoundIsSupplied(params: seq<ParamSig>, provided: seq<string>, p: nat)
    requires p < |params|
    ensures Binding(params, provided)[p].Some? <==> Supplied(params, provided, p)
  {
    if provided != [] {
      var init, last := provided[..|provided| - 1], provided[|provided| - 1];
      assert provided == init + [last];
      BoundIsSupplied(params, init, p);
      PositionIs(params, last, p);
    }
  }

  lemma {:induction false} UnknownIs(params: seq<ParamSig>, provided: seq<string>)
    ensures FirstUnknown(params, provided).None? <==> forall i :: 0 <= i < |provided| ==> Known(params, provided[i])
  {
    if provided != [] {
      UnknownIs(params, provided[1..]);
      KnownIs(params, provided[0]);
      assert forall i :: 1 <= i < |provided| ==> provided[i] == provided[1..][i - 1];
    }
  }

  lemma KnownIs(params: seq<ParamSig>, name: string)
    ensures Known(params, name) <==> Position(params, name).Some?
  {
  }

  lemma {:induction false} MissingIs(params: seq<ParamSig>, b: seq<Option<nat>>)
    requires |b| == |params|
    ensures FirstMissing(params, b).None? <==> forall p :: 0 <= p < |params| ==> params[p].optional || b[p].Some?
  {
    if params != [] {
      MissingIs(params[1..], b[1..]);
      assert forall p :: 1 <= p < |params| ==> params[p] == params[1..][p - 1] && b[p] == b[1..][p - 1];
    }
  }

  lemma DenseIs(params: seq<ParamSig>, provided: seq<string>)
    ensures Dense(Binding(params, provided)) <==> FirstFew(params, provided)
  {
    var b := Binding(params, provided);
    forall p: nat | p < |params| ensures b[p].Some? <==> Supplied(params, provided, p) {
      BoundIsSupplied(params, provided, p);
    }
    DenseMeansPrefix(b);
    if Dense(b) { assert SuppliedUpTo(params, provided, |Flatten(b)|); }
    if k :| SuppliedUpTo(params, provided, k) { assert FilledUpTo(b, k); }
  }

  lemma LastIs(params: seq<ParamSig>, provided: seq<string>)
    ensures var last := LastBound(Binding(params, provided));
            && (last.Some? ==> LastSupplied(params, provided, last.value))
            && (last.Some? && last.value >= 63 <==> !WithinMask(params, provided))
  {
    var b := Binding(params, provided);
    forall p: nat | p < |params| ensures b[p].Some? <==> Supplied(params, provided, p) {
      BoundIsSupplied(params, provided, p);
    }
  }

  // ----- The verdict -----

  /** **When a named call is accepted.** Exactly when the signature is the callee's, every name is a
      parameter's, every parameter that needs a value has one, and the supplied parameters are the first few
      or all stand below 63. */
  lemma CallAccepted(params: seq<ParamSig>, declaredArity: nat, provided: seq<string>)
    ensures Plan(params, declaredArity, provided).Ok? <==>
            && |params| == declaredArity
            && (forall i :: 0 <= i < |provided| ==> Known(params, provided[i]))
            && NothingMissing(params, provided)
            && (FirstFew(params, provided) || WithinMask(params, provided))
  {
    CallVerdict(params, declaredArity, provided);
  }

  /** The first parameter left without a value it needs. */
  ghost predicate FirstLeftOut(params: seq<ParamSig>, provided: seq<string>, p: int) {
    && 0 <= p < |params| && !params[p].optional && !Supplied(params, provided, p)
    && forall q :: 0 <= q < p ==> params[q].optional || Supplied(params, provided, q)
  }

  /** The first provided name that is no parameter's. */
  ghost predicate FirstStranger(params: seq<ParamSig>, provided: seq<string>, i: int) {
    0 <= i < |provided| && !Known(params, provided[i]) && forall j :: 0 <= j < i ==> Known(params, provided[j])
  }

  lemma {:induction false} StrangerAt(params: seq<ParamSig>, provided: seq<string>) returns (i: nat)
    requires FirstUnknown(params, provided).Some?
    ensures FirstStranger(params, provided, i) && FirstUnknown(params, provided) == Some(provided[i])
  {
    KnownIs(params, provided[0]);
    if Known(params, provided[0]) {
      i := StrangerAt(params, provided[1..]);
      assert forall j :: 0 < j <= i ==> provided[j] == provided[1..][j - 1];
      i := i + 1;
    } else {
      i := 0;
    }
  }

  lemma {:induction false} LeftOutAt(params: seq<ParamSig>, b: seq<Option<nat>>) returns (p: nat)
    requires |b| == |params| && FirstMissing(params, b).Some?
    ensures p < |params| && !params[p].optional && b[p].None? && FirstMissing(params, b) == Some(params[p].name)
    ensures forall q :: 0 <= q < p ==> params[q].optional || b[q].Some?
  {
    if b[0].None? && !params[0].optional {
      p := 0;
    } else {
      p := LeftOutAt(params[1..], b[1..]);
      assert forall q :: 0 < q <= p ==> params[q] == params[1..][q - 1] && b[q] == b[1..][q - 1];
      p := p + 1;
    }
  }

  /** **What each fault is answered with.** The faults are looked for in this order, and each is reported
      where it first shows; a call that skips a parameter and reaches 63 is refused for the last it supplies. */
  lemma CallVerdict(params: seq<ParamSig>, declaredArity: nat, provided: seq<string>)
    ensures var plan := Plan(params, declaredArity, provided);
            if |params| != declaredArity then plan == Err(TakesNoNames)
            else if exists i :: 0 <= i < |provided| && !Known(params, provided[i]) then
              exists i :: FirstStranger(params, provided, i) && plan == Err(NoParameter(provided[i]))
            else if !NothingMissing(params, provided) then
              exists p :: FirstLeftOut(params, provided, p) && plan == Err(MissingRequired(params[p].name))
            else if !FirstFew(params, provided) && !WithinMask(params, provided) then
              exists p :: LastSupplied(params, provided, p) && plan == Err(SkipsPastMask(params[p].name))
            else plan.Ok? && (plan.value.supplied.None? <==> FirstFew(params, provided))
  {
    var b := Binding(params, provided);
    forall p: nat | p < |params| ensures b[p].Some? <==> Supplied(params, provided, p) {
      BoundIsSupplied(params, provided, p);
    }
    UnknownIs(params, provided);
    MissingIs(params, b);
    DenseIs(params, provided);
    LastIs(params, provided);
    if FirstUnknown(params, provided).Some? {
      var i := StrangerAt(params, provided);
    } else if FirstMissing(params, b).Some? {
      var p := LeftOutAt(params, b);
      assert FirstLeftOut(params, provided, p);
    } else if LastBound(b).Some? {
      assert LastSupplied(params, provided, LastBound(b).value);
    }
  }
}
