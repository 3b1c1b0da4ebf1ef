/** Binding a name-keyed argument list to a callable's parameters: a positional list, and a 64-bit
    mask of supplied parameters when the list alone would be misread. */
module NamedCalls {
  import opened Wrappers

  datatype ParamSig = ParamSig(name: string, optional: bool)

  /** `order[k]` is the index, among the provided values, of the k-th argument passed. */
  datatype NamedCall = NamedCall(supplied: Option<nat>, order: seq<nat>)

  datatype CallError =
    | TakesNoNames
    | NoParameter(name: string)
    | MissingRequired(name: string)
    | SkipsPastMask(name: string)

  const MASKED_PARAM_LIMIT: nat := 63
  const WORD: nat := 0x1_0000_0000_0000_0000

  // ----- 64-bit masks -----

  function Pow2(p: nat): nat {
    if p == 0 then 1 else 2 * Pow2(p - 1)
  }

  function Bit(m: nat, p: nat): bool {
    if p == 0 then m % 2 == 1 else Bit(m / 2, p - 1)
  }

  function CountBelow(m: nat, p: nat): nat {
    if p == 0 then 0 else m % 2 + CountBelow(m / 2, p - 1)
  }

  function PopCount(m: nat): nat {
    if m == 0 then 0 else m % 2 + PopCount(m / 2)
  }

  function BitOr(a: nat, b: nat): nat {
    if a == 0 && b == 0 then 0
    else (if a % 2 == 1 || b % 2 == 1 then 1 else 0) + 2 * BitOr(a / 2, b / 2)
  }

  /** A left shift in a 64-bit word. */
  function Shl(m: nat, n: nat): nat {
    (m * Pow2(n)) % WORD
  }

  /** The word whose bit `p` is `bits[p]`. */
  function MaskOf(bits: seq<bool>): nat {
    if bits == [] then 0 else (if bits[0] then 1 else 0) + 2 * MaskOf(bits[1..])
  }

  function Count(bits: seq<bool>): nat {
    if bits == [] then 0 else (if bits[0] then 1 else 0) + Count(bits[1..])
  }

  lemma {:induction false} MaskBits(bits: seq<bool>, p: nat)
    ensures Bit(MaskOf(bits), p) <==> p < |bits| && bits[p]
    ensures CountBelow(MaskOf(bits), p) == if p <= |bits| then Count(bits[..p]) else Count(bits)
    decreases p
  {
    if p > 0 {
      if bits != [] {
        assert MaskOf(bits) / 2 == MaskOf(bits[1..]);
        MaskBits(bits[1..], p - 1);
        if p <= |bits| { assert bits[..p][1..] == bits[1..][..p - 1]; }
      } else {
        MaskBits(bits, p - 1);
      }
    }
  }

  lemma {:induction false} MaskPopCount(bits: seq<bool>)
    ensures PopCount(MaskOf(bits)) == Count(bits)
  {
    if bits != [] {
      MaskPopCount(bits[1..]);
      assert MaskOf(bits) / 2 == MaskOf(bits[1..]);
      if MaskOf(bits) == 0 { assert MaskOf(bits[1..]) == 0; }
    }
  }

  lemma {:induction false} MaskBound(bits: seq<bool>, n: nat)
    requires forall p :: n <= p < |bits| ==> !bits[p]
    ensures MaskOf(bits) < Pow2(n)
    decreases |bits|
  {
    if bits != [] {
      forall p | (if n == 0 then 0 else n - 1) <= p < |bits| - 1 ensures !bits[1..][p] {
        assert bits[1..][p] == bits[p + 1];
      }
      if n == 0 {
        MaskBound(bits[1..], 0);
        assert !bits[0];
      } else {
        MaskBound(bits[1..], n - 1);
        assert Pow2(n) == 2 * Pow2(n - 1);
      }
    } else {
      Pow2Grows(0, n);
    }
  }

  /** Setting the next bit up is adding it: `m | (1 << p)` extends the mask by one parameter. */
  lemma {:induction false} MaskSnoc(bits: seq<bool>, b: bool)
    ensures MaskOf(bits + [b]) == if b then BitOr(MaskOf(bits), Pow2(|bits|)) else MaskOf(bits)
  {
    if bits == [] {
      assert BitOr(0, 1) == 1;
    } else {
      assert (bits + [b])[1..] == bits[1..] + [b];
      MaskSnoc(bits[1..], b);
      assert MaskOf(bits) / 2 == MaskOf(bits[1..]) && Pow2(|bits|) / 2 == Pow2(|bits| - 1);
    }
  }

  lemma {:induction false} Pow2Grows(p: nat, q: nat)
    requires p <= q
    ensures 0 < Pow2(p) <= Pow2(q)
    decreases q
  {
    if p < q {
      Pow2Grows(p, q - 1);
    } else if p > 0 {
      Pow2Grows(p - 1, p - 1);
    }
  }

  lemma WordSize()
    ensures Pow2(64) == WORD
  {
    assert Pow2(8) == 256;
    assert Pow2(16) == 0x1_0000;
    assert Pow2(24) == 0x100_0000;
    assert Pow2(32) == 0x1_0000_0000;
    assert Pow2(40) == 0x100_0000_0000;
    assert Pow2(48) == 0x1_0000_0000_0000;
    assert Pow2(56) == 0x100_0000_0000_0000;
  }

  // ----- The plan, as a value -----

  /** The first parameter called `name`. */
  function Position(params: seq<ParamSig>, name: string): (r: Option<nat>)
    ensures r.None? <==> forall p :: 0 <= p < |params| ==> params[p].name != name
    ensures r.Some? ==> r.value < |params| && params[r.value].name == name && forall p :: 0 <= p < r.value ==>
      params[p].name != name
  {
    if params == [] then None
    else if params[0].name == name then Some(0)
    else
      match Position(params[1..], name)
      case None => None
      case Some(p) => Some(p + 1)
  }

  /** Which provided value each parameter receives: the last one given under its name. */
  function Binding(params: seq<ParamSig>, provided: seq<string>): (b: seq<Option<nat>>)
    ensures |b| == |params|
  {
    if provided == [] then seq(|params|, _ => None)
    else
      var b := Binding(params, provided[..|provided| - 1]);
      match Position(params, provided[|provided| - 1])
      case None => b
      case Some(p) => b[p := Some(|provided| - 1)]
  }

  /** The values bound, in parameter order. */
  function Flatten(b: seq<Option<nat>>): seq<nat> {
    if b == [] then []
    else Flatten(b[..|b| - 1]) + if b[|b| - 1].Some? then [b[|b| - 1].value] else []
  }

  function Bits(b: seq<Option<nat>>): (bits: seq<bool>)
    ensures |bits| == |b| && forall p :: 0 <= p < |b| ==> bits[p] == b[p].Some?
  {
    seq(|b|, p requires 0 <= p < |b| => b[p].Some?)
  }

  /** The bound parameters are exactly the first few. */
  predicate Dense(b: seq<Option<nat>>) {
    forall p | 0 <= p < |Flatten(b)| && p < |b| :: b[p].Some?
  }

  function FirstUnknown(params: seq<ParamSig>, provided: seq<string>): Option<string> {
    if provided == [] then None
    else if Position(params, provided[0]).None? then Some(provided[0])
    else FirstUnknown(params, provided[1..])
  }

  function FirstMissing(params: seq<ParamSig>, b: seq<Option<nat>>): Option<string>
    requires |b| == |params|
  {
    if params == [] then None
    else if b[0].None? && !params[0].optional then Some(params[0].name)
    else FirstMissing(params[1..], b[1..])
  }

  function LastBound(b: seq<Option<nat>>): (r: Option<nat>)
    ensures r.None? <==> forall p :: 0 <= p < |b| ==> b[p].None?
    ensures r.Some? ==> r.value < |b| && b[r.value].Some? && forall p :: r.value < p < |b| ==> b[p].None?
  {
    if b == [] then None
    else if b[|b| - 1].Some? then Some(|b| - 1)
    else LastBound(b[..|b| - 1])
  }

  function Plan(params: seq<ParamSig>, declaredArity: nat, provided: seq<string>): Result<NamedCall, CallError> {
    var b := Binding(params, provided);
    if |params| != declaredArity then Err(TakesNoNames)
    else if FirstUnknown(params, provided).Some? then Err(NoParameter(FirstUnknown(params, provided).value))
    else if FirstMissing(params, b).Some? then Err(MissingRequired(FirstMissing(params, b).value))
    else if Dense(b) then Ok(NamedCall(None, Flatten(b)))
    else if LastBound(b).Some? && LastBound(b).value >= MASKED_PARAM_LIMIT
      then Err(SkipsPastMask(params[LastBound(b).value].name))
    else Ok(NamedCall(Some(MaskOf(Bits(b))), Flatten(b)))
  }

  // ----- The plan, as it runs -----

  lemma {:induction false} UnknownSnoc(params: seq<ParamSig>, init: seq<string>, last: string)
    ensures FirstUnknown(params, init + [last]) ==
            if FirstUnknown(params, init).Some? then FirstUnknown(params, init)
            else if Position(params, last).None? then Some(last) else None
  {
    if init == [] {
      assert [last][1..] == [] && [] + [last] == [last];
    } else {
      assert (init + [last])[1..] == init[1..] + [last];
      UnknownSnoc(params, init[1..], last);
    }
  }

  lemma {:induction false} UnknownPrefix(params: seq<ParamSig>, provided: seq<string>, n: nat)
    requires n <= |provided| && FirstUnknown(params, provided[..n]).Some?
    ensures FirstUnknown(params, provided) == FirstUnknown(params, provided[..n])
    decreases |provided| - n
  {
    if n < |provided| {
      assert provided[..n + 1] == provided[..n] + [provided[n]];
      UnknownSnoc(params, provided[..n], provided[n]);
      UnknownPrefix(params, provided, n + 1);
    } else {
      assert provided[..n] == provided;
    }
  }

  lemma {:induction false} MissingAt(params: seq<ParamSig>, b: seq<Option<nat>>, n: nat)
    requires |b| == |params| && n <= |params|
    requires forall p :: 0 <= p < n ==> b[p].Some? || params[p].optional
    ensures n == |params| ==> FirstMissing(params, b) == None
    ensures n < |params| && b[n].None? && !params[n].optional ==> FirstMissing(params, b) == Some(params[n].name)
  {
    if n > 0 {
      forall p | 0 <= p < n - 1 ensures b[1..][p].Some? || params[1..][p].optional {
        assert b[1..][p] == b[p + 1] && params[1..][p] == params[p + 1];
      }
      MissingAt(params[1..], b[1..], n - 1);
    }
  }

  /** Bind each provided name to the first parameter that carries it. */
  method BindNames(params: seq<ParamSig>, provided: seq<string>) returns (r: Result<seq<Option<nat>>, CallError>)
    ensures match FirstUnknown(params, provided)
            case Some(name) => r == Err(NoParameter(name))
            case None => r == Ok(Binding(params, provided))
  {
    var binding: seq<Option<nat>> := seq(|params|, _ => None);
    for i := 0 to |provided|
      invariant binding == Binding(params, provided[..i])
      invariant FirstUnknown(params, provided[..i]).None?
    {
      assert provided[..i + 1] == provided[..i] + [provided[i]];
      assert provided[..i + 1][..i] == provided[..i];
      UnknownSnoc(params, provided[..i], provided[i]);
      match Position(params, provided[i])
      case None =>
        UnknownPrefix(params, provided, i + 1);
        return Err(NoParameter(provided[i]));
      case Some(p) =>
        binding := binding[p := Some(i)];
    }
    assert provided[..|provided|] == provided;
    return Ok(binding);
  }

  /** Look for a parameter that is neither bound nor optional. */
  method FindMissing(params: seq<ParamSig>, binding: seq<Option<nat>>) returns (missing: Option<string>)
    requires |binding| == |params|
    ensures missing == FirstMissing(params, binding)
  {
    for p := 0 to |params|
      invariant forall q :: 0 <= q < p ==> binding[q].Some? || params[q].optional
    {
      if binding[p].None? && !params[p].optional {
        MissingAt(params, binding, p);
        return Some(params[p].name);
      }
    }
    MissingAt(params, binding, |params|);
    return None;
  }

  /** Fold the supplied parameters into a 64-bit word, one `m | (1 << p)` at a time. */
  method SuppliedMask(binding: seq<Option<nat>>) returns (mask: nat)
    requires forall p :: MASKED_PARAM_LIMIT <= p < |binding| ==> binding[p].None?
    ensures mask == MaskOf(Bits(binding))
  {
    mask := 0;
    ghost var bits := Bits(binding);
    for p := 0 to |binding|
      invariant mask == MaskOf(bits[..p])
    {
      assert bits[..p + 1] == bits[..p] + [bits[p]];
      MaskSnoc(bits[..p], bits[p]);
      if binding[p].Some? {
        ShiftedOne(p);
        mask := BitOr(mask, Shl(1, p));
      }
    }
    assert bits[..|binding|] == bits;
  }

  lemma ShiftedOne(p: nat)
    requires p < 64
    ensures Shl(1, p) == Pow2(p)
  {
    WordSize();
    Pow2Grows(p + 1, 64);
  }

  method PlanInvokeNamed(params: seq<ParamSig>, declaredArity: nat, provided: seq<string>)
    returns (r: Result<NamedCall, CallError>)
    ensures r == Plan(params, declaredArity, provided)
  {
    if |params| != declaredArity {
      return Err(TakesNoNames);
    }
    var bound := BindNames(params, provided);
    if bound.Err? {
      return Err(bound.error);
    }
    var binding := bound.value;
    var missing := FindMissing(params, binding);
    if missing.Some? {
      return Err(MissingRequired(missing.value));
    }
    var order := Flatten(binding);
    FlattenLength(binding);
    if forall p | 0 <= p < |order| :: binding[p].Some? {
      return Ok(NamedCall(None, order));
    }
    var last := LastBound(binding);
    if last.Some? && last.value >= MASKED_PARAM_LIMIT {
      return Err(SkipsPastMask(params[last.value].name));
    }
    var mask := SuppliedMask(binding);
    return Ok(NamedCall(Some(mask), order));
  }

  // ----- What the plan means to the callee -----

  /** What parameter `p` finds among the passed arguments: with a mask, the k-th argument belongs to
      the k-th set bit; without one, the arguments fill the first parameters. */
  function Decode(supplied: Option<nat>, args: seq<nat>, p: nat): Option<nat> {
    match supplied
    case None => if p < |args| then Some(args[p]) else None
    case Some(mask) =>
      if Bit(mask, p) && CountBelow(mask, p) < |args| then Some(args[CountBelow(mask, p)]) else None
  }

  lemma {:induction false} FlattenLength(b: seq<Option<nat>>)
    ensures |Flatten(b)| == Count(Bits(b)) <= |b|
  {
    if b != [] {
      var init := b[..|b| - 1];
      FlattenLength(init);
      assert Bits(b) == Bits(init) + [b[|b| - 1].Some?];
      CountSnoc(Bits(init), b[|b| - 1].Some?);
    }
  }

  lemma {:induction false} CountSnoc(bits: seq<bool>, x: bool)
    ensures Count(bits + [x]) == Count(bits) + if x then 1 else 0
  {
    if bits == [] {
      assert [] + [x] == [x] && [x][1..] == [];
    } else {
      assert (bits + [x])[1..] == bits[1..] + [x];
      CountSnoc(bits[1..], x);
    }
  }

  /** A bound parameter's value sits, in the flattened list, after those bound before it. */
  lemma {:induction false} FlattenAt(b: seq<Option<nat>>, p: nat)
    requires p < |b| && b[p].Some?
    ensures |Flatten(b[..p])| < |Flatten(b)| && Flatten(b)[|Flatten(b[..p])|] == b[p].value
  {
    var init := b[..|b| - 1];
    if p < |b| - 1 {
      FlattenAt(init, p);
      assert init[..p] == b[..p];
    }
  }

  /** Exactly the first `k` parameters are bound. */
  ghost predicate FilledUpTo(b: seq<Option<nat>>, k: nat) {
    k <= |b| && forall p :: 0 <= p < |b| ==> (b[p].Some? <==> p < k)
  }

  lemma SplitCount(b: seq<Option<nat>>, m: nat)
    requires m <= |b|
    ensures |Flatten(b)| == Count(Bits(b[..m])) + Count(Bits(b[m..])) <= |b|
  {
    FlattenLength(b);
    assert Bits(b) == Bits(b[..m]) + Bits(b[m..]);
    CountAppend(Bits(b[..m]), Bits(b[m..]));
  }

  lemma DenseIsPrefix(b: seq<Option<nat>>)
    requires Dense(b)
    ensures FilledUpTo(b, |Flatten(b)|)
  {
    FlattenLength(b);
    var n := |Flatten(b)|;
    SplitCount(b, n);
    CountAll(Bits(b[..n]));
    CountNone(Bits(b[n..]));
    forall p | n <= p < |b| ensures b[p].None? { assert Bits(b[n..])[p - n] == b[n..][p - n].Some?; }
  }

  lemma PrefixIsDense(b: seq<Option<nat>>, m: nat)
    requires FilledUpTo(b, m)
    ensures Dense(b)
  {
    SplitCount(b, m);
    CountAll(Bits(b[..m]));
    CountZero(Bits(b[m..]));
  }

  lemma DenseMeansPrefix(b: seq<Option<nat>>)
    ensures Dense(b) <==> exists k :: FilledUpTo(b, k)
    ensures Dense(b) ==> FilledUpTo(b, |Flatten(b)|)
  {
    if Dense(b) {
      DenseIsPrefix(b);
    }
    if m: nat :| FilledUpTo(b, m) {
      PrefixIsDense(b, m);
    }
  }

  lemma {:induction false} CountAppend(a: seq<bool>, b: seq<bool>)
    ensures Count(a + b) == Count(a) + Count(b)
  {
    if a == [] {
      assert a + b == b;
    } else {
      assert (a + b)[1..] == a[1..] + b;
      CountAppend(a[1..], b);
    }
  }

  lemma {:induction false} CountAll(a: seq<bool>)
    ensures Count(a) <= |a| && ((forall p :: 0 <= p < |a| ==> a[p]) <==> Count(a) == |a|)
  {
    if a != [] {
      CountAll(a[1..]);
      if forall p :: 0 <= p < |a[1..]| ==> a[1..][p] {
        assert forall p :: 1 <= p < |a| ==> a[p] == a[1..][p - 1];
      }
    }
  }

  lemma {:induction false} CountNone(a: seq<bool>)
    ensures Count(a) == 0 ==> forall p :: 0 <= p < |a| ==> !a[p]
  {
    if a != [] {
      CountNone(a[1..]);
      if Count(a) == 0 { assert forall p :: 1 <= p < |a| ==> a[p] == a[1..][p - 1]; }
    }
  }

  lemma {:induction false} CountZero(a: seq<bool>)
    requires forall p :: 0 <= p < |a| ==> !a[p]
    ensures Count(a) == 0
  {
    if a != [] { CountZero(a[1..]); }
  }

  /** A value lands on the parameter of its name, and on no other. */
  lemma {:induction false} BindingNames(params: seq<ParamSig>, provided: seq<string>)
    ensures var b := Binding(params, provided);
            forall p :: 0 <= p < |b| && b[p].Some? ==> b[p].value < |provided| && provided[b[p].value] == params[p].name
  {
    if provided != [] { BindingNames(params, provided[..|provided| - 1]); }
  }

  lemma {:induction false} BindingHolds(params: seq<ParamSig>, provided: seq<string>, i: nat)
    requires i < |provided| && Position(params, provided[i]).Some?
    requires forall j :: i < j < |provided| ==> provided[j] != provided[i]
    ensures Binding(params, provided)[Position(params, provided[i]).value] == Some(i)
  {
    if i < |provided| - 1 {
      BindingHolds(params, provided[..|provided| - 1], i);
      assert provided[|provided| - 1] != provided[i];
    }
  }

  lemma {:induction false} NoUnknown(params: seq<ParamSig>, provided: seq<string>, i: nat)
    requires FirstUnknown(params, provided).None? && i < |provided|
    ensures Position(params, provided[i]).Some?
  {
    if i > 0 { NoUnknown(params, provided[1..], i - 1); }
  }

  lemma {:induction false} NoMissing(params: seq<ParamSig>, b: seq<Option<nat>>, p: nat)
    requires |b| == |params| && FirstMissing(params, b).None? && p < |params|
    ensures b[p].Some? || params[p].optional
  {
    if p > 0 { NoMissing(params[1..], b[1..], p - 1); }
  }

  /** Reading the plan back gives the binding, parameter by parameter, masked or not. */
  lemma DecodeGivesBinding(params: seq<ParamSig>, declaredArity: nat, provided: seq<string>, p: nat)
    requires Plan(params, declaredArity, provided).Ok? && p < |params|
    ensures var call := Plan(params, declaredArity, provided).value;
            Decode(call.supplied, call.order, p) == Binding(params, provided)[p]
  {
    var b := Binding(params, provided);
    if Dense(b) {
      DenseMeansPrefix(b);
      if b[p].Some? {
        FlattenAt(b, p);
        DensePrefixLength(b, p);
      }
    } else {
      var bits := Bits(b);
      MaskBits(bits, p);
      if b[p].Some? {
        FlattenAt(b, p);
        FlattenLength(b[..p]);
        assert Bits(b[..p]) == bits[..p];
      }
    }
  }

  lemma DensePrefixLength(b: seq<Option<nat>>, p: nat)
    requires p <= |b| && forall q :: 0 <= q < p ==> b[q].Some?
    ensures |Flatten(b[..p])| == p
  {
    FlattenLength(b[..p]);
    CountAll(Bits(b[..p]));
  }

  /** **A named call delivers.** Every value given under a distinct name reaches the parameter of that
      name; every parameter reached holds a value given under its name; and whatever is left unfilled
      declared itself optional. */
  lemma NamedCallDelivers(params: seq<ParamSig>, declaredArity: nat, provided: seq<string>)
    requires Plan(params, declaredArity, provided).Ok?
    requires forall i, j :: 0 <= i < j < |provided| ==> provided[i] != provided[j]
    ensures var call := Plan(params, declaredArity, provided).value;
            && (forall i :: 0 <= i < |provided| ==>
                  exists p :: 0 <= p < |params| && params[p].name == provided[i]
                    && Decode(call.supplied, call.order, p) == Some(i))
            && (forall p :: 0 <= p < |params| ==>
                  match Decode(call.supplied, call.order, p)
                  case Some(i) => i < |provided| && provided[i] == params[p].name
                  case None => params[p].optional)
  {
    var call := Plan(params, declaredArity, provided).value;
    var b := Binding(params, provided);
    forall i | 0 <= i < |provided|
      ensures exists p ::
                && 0 <= p < |params| && params[p].name == provided[i]
                && Decode(call.supplied, call.order, p) == Some(i)
    {
      NoUnknown(params, provided, i);
      var p := Position(params, provided[i]).value;
      BindingHolds(params, provided, i);
      DecodeGivesBinding(params, declaredArity, provided, p);
    }
    BindingNames(params, provided);
    forall p | 0 <= p < |params|
      ensures match Decode(call.supplied, call.order, p)
              case Some(i) => i < |provided| && provided[i] == params[p].name
              case None => params[p].optional
    {
      DecodeGivesBinding(params, declaredArity, provided, p);
      NoMissing(params, b, p);
    }
  }

  /** The mask is carried exactly when the filled parameters are not the first few; it then has one
      bit per argument, and room for the receiver's bit below it. */
  lemma MaskIsTight(params: seq<ParamSig>, declaredArity: nat, provided: seq<string>)
    requires Plan(params, declaredArity, provided).Ok?
    ensures var call := Plan(params, declaredArity, provided).value;
            var b := Binding(params, provided);
            && (call.supplied.None? <==> exists k :: FilledUpTo(b, k))
            && (call.supplied.Some? ==> PopCount(call.supplied.value) == |call.order| && call.supplied.value < Pow2(63))
  {
    var b := Binding(params, provided);
    DenseMeansPrefix(b);
    if !Dense(b) {
      MaskPopCount(Bits(b));
      FlattenLength(b);
      MaskBound(Bits(b), 63);
    }
  }

  /** A method call shifts the mask up by one and sets the receiver's bit. Below 2^63 nothing is lost:
      the receiver is found at 0 and every parameter one place further up. */
  lemma ReceiverShift(mask: nat, args: seq<nat>, receiver: nat, p: nat)
    requires mask < Pow2(63)
    ensures var shifted := BitOr(Shl(mask, 1), 1);
            && Decode(Some(shifted), [receiver] + args, 0) == Some(receiver)
            && Decode(Some(shifted), [receiver] + args, p + 1) == Decode(Some(mask), args, p)
  {
    WordSize();
    assert Pow2(1) == 2 && mask * 2 < WORD;
    assert Shl(mask, 1) == 2 * mask;
    OrZero(mask);
    var shifted := BitOr(2 * mask, 1);
    assert shifted == 1 + 2 * mask && shifted / 2 == mask;
  }

  lemma {:induction false} OrZero(m: nat)
    ensures BitOr(m, 0) == m
  {
    if m > 0 { OrZero(m / 2); }
  }

  /** And the limit is exact: a mask that uses bit 63 loses it to the shift. */
  lemma ShiftLosesTopBit(mask: nat)
    requires mask < Pow2(64)
    ensures Shl(mask, 1) / 2 == mask <==> mask < Pow2(63)
  {
    WordSize();
    assert Pow2(1) == 2 && Pow2(64) == 2 * Pow2(63);
    if mask >= Pow2(63) {
      assert mask * 2 - WORD < WORD && (mask * 2) % WORD == mask * 2 - WORD;
    }
  }
}
