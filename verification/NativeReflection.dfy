/** Native reflection answered lazily, name by name, out of a registry installed once. */
module NativeReflection {
  import opened Wrappers

  datatype Fn = Fn(name: string, sig: string)
  datatype Module = Module(name: string, functions: seq<Fn>, ctxFunctions: seq<Fn>, typedFunctions: seq<Fn>)
  datatype Nominal = Nominal(namespace: string, name: string, methods: seq<Fn>, ctxMethods: seq<Fn>, isAttribute: bool)
  datatype Unit = Unit(root: string, modules: seq<Module>, traits: seq<Nominal>, types: seq<Nominal>,
                       fielded: seq<Nominal>, enums: seq<Nominal>, attributes: seq<Nominal>)
  type Registry = seq<Unit>

  datatype TypeInfo =
    | Prelude(name: string)
    | FromAttribute(decl: Nominal)
    | FromFielded(decl: Nominal)
    | FromEnum(decl: Nominal)

  /** A native callable: what owns it, and its own name and signature. */
  datatype ParamRecord = ParamRecord(owner: string, fn: Fn)

  // ----- Dotted names -----

  function Join(parts: seq<string>): string {
    if parts == [] then ""
    else if |parts| == 1 then parts[0]
    else Join(parts[..|parts| - 1]) + "." + parts[|parts| - 1]
  }

  /** Compare a dotted identity part by part, eating the target as it matches. */
  method JoinedEq(parts: seq<string>, target: string) returns (b: bool)
    ensures b <==> Join(parts) == target
  {
    var rest := target;
    for k := 0 to |parts|
      invariant target == Join(parts[..k]) + rest
    {
      assert parts[..k + 1][..k] == parts[..k];
      JoinStep(parts, k);
      ghost var was := rest;
      if k > 0 {
        if !("." <= rest) {
          if "." + parts[k] <= rest { PrefixOfPrefix(".", parts[k], rest); }
          MismatchStays(parts, k, target, rest);
          return false;
        }
        rest := rest[1..];
        assert was == "." + rest;
      }
      if !(parts[k] <= rest) {
        if k > 0 && "." + parts[k] <= was { TailPrefix(".", parts[k], rest); }
        MismatchStays(parts, k, target, was);
        return false;
      }
      rest := rest[|parts[k]|..];
    }
    assert parts[..|parts|] == parts;
    return rest == "";
  }

  lemma JoinStep(parts: seq<string>, k: nat)
    requires k < |parts|
    ensures Join(parts[..k + 1]) == Join(parts[..k]) + (if k > 0 then "." else "") + parts[k]
  {
    assert parts[..k + 1][..k] == parts[..k];
  }

  lemma {:induction false} JoinPrefix(parts: seq<string>, k: nat)
    requires k <= |parts|
    ensures Join(parts[..k]) <= Join(parts)
    decreases |parts| - k
  {
    if k < |parts| {
      JoinStep(parts, k);
      JoinPrefix(parts, k + 1);
    } else {
      assert parts[..k] == parts;
    }
  }

  lemma MismatchStays(parts: seq<string>, k: nat, target: string, rest: string)
    requires k < |parts| && target == Join(parts[..k]) + rest
    requires !((if k > 0 then "." else "") + parts[k] <= rest)
    ensures Join(parts) != target
  {
    JoinPrefix(parts, k + 1);
    JoinStep(parts, k);
    if Join(parts) == target { PrefixCancels(Join(parts[..k]), if k > 0 then "." else "", parts[k], rest); }
  }

  lemma PrefixOfPrefix(a: string, b: string, c: string)
    requires a + b <= c
    ensures a <= c
  {
    assert forall i :: 0 <= i < |a| ==> a[i] == (a + b)[i];
  }

  lemma TailPrefix(a: string, b: string, c: string)
    requires a + b <= a + c
    ensures b <= c
  {
    assert forall i :: 0 <= i < |b| ==> b[i] == (a + b)[|a| + i] && c[i] == (a + c)[|a| + i];
  }

  lemma PrefixCancels(head: string, dot: string, part: string, rest: string)
    requires head + dot + part <= head + rest
    ensures dot + part <= rest
  {
    var all, next := head + dot + part, dot + part;
    assert forall i :: 0 <= i < |next| ==> next[i] == all[|head| + i] && rest[i] == (head + rest)[|head| + i];
  }

  /** Everything up to the last dot, and the rest. */
  function SplitLast(target: string): (r: Option<(string, string)>)
    ensures r.Some? ==> target == r.value.0 + "." + r.value.1 && '.' !in r.value.1
    ensures r.None? ==> '.' !in target
  {
    if target == "" then None
    else
      var last := |target| - 1;
      if target[last] == '.' then
        assert target == target[..last] + "." + "";
        Some((target[..last], ""))
      else
        match SplitLast(target[..last])
        case None => None
        case Some(p) =>
          assert target == p.0 + "." + (p.1 + [target[last]]);
          Some((p.0, p.1 + [target[last]]))
  }

  lemma {:induction false} SplitsBack(owner: string, name: string)
    requires '.' !in name
    ensures SplitLast(owner + "." + name) == Some((owner, name))
    decreases |name|
  {
    var target := owner + "." + name;
    var last := |target| - 1;
    if name == "" {
      assert target[..last] == owner;
    } else {
      var init := name[..|name| - 1];
      SplitsBack(owner, init);
      assert target[..last] == owner + "." + init && init + [target[last]] == name;
    }
  }

  /** The qualified name of a declaration, compared by length, by the byte between, and at both ends. */
  predicate IsQualified(d: Nominal, q: string) {
    && |q| == |d.namespace| + 1 + |d.name| && q[|d.namespace|] == '.'
    && d.namespace <= q && q[|q| - |d.name|..] == d.name
  }

  lemma QualifiedIs(d: Nominal, q: string)
    ensures IsQualified(d, q) <==> q == d.namespace + "." + d.name
  {
    if IsQualified(d, q) {
      var n := |d.namespace|;
      assert q == q[..n] + [q[n]] + q[n + 1..];
    }
  }

  // ----- What the eager seeding would have pushed, in its order -----

  function Records(owner: string, fns: seq<Fn>): (r: seq<ParamRecord>)
    ensures |r| == |fns| && forall i :: 0 <= i < |fns| ==> r[i] == ParamRecord(owner, fns[i])
  {
    seq(|fns|, i requires 0 <= i < |fns| => ParamRecord(owner, fns[i]))
  }

  function ModuleRecords(root: string, ms: seq<Module>): seq<ParamRecord> {
    if ms == [] then []
    else
      var m := ms[|ms| - 1];
      ModuleRecords(root, ms[..|ms| - 1])
        + Records(Join([root, m.name]), m.functions + m.ctxFunctions + m.typedFunctions)
  }

  /** The methods of native declarations, context methods last and only where they count. */
  function NominalRecords(ds: seq<Nominal>, withCtx: bool): seq<ParamRecord> {
    if ds == [] then []
    else
      var d := ds[|ds| - 1];
      NominalRecords(ds[..|ds| - 1], withCtx)
      + Records(d.namespace + "." + d.name, d.methods + if withCtx then d.ctxMethods else [])
  }

  function UnitRecords(us: seq<Unit>): seq<ParamRecord> {
    if us == [] then []
    else
      var u := us[|us| - 1];
      UnitRecords(us[..|us| - 1]) + (ModuleRecords(u.root, u.modules) + NominalRecords(u.traits, false))
  }

  function AllTypes(us: seq<Unit>): seq<Nominal> {
    if us == [] then [] else AllTypes(us[..|us| - 1]) + us[|us| - 1].types
  }

  function AllFielded(us: seq<Unit>): seq<Nominal> {
    if us == [] then [] else AllFielded(us[..|us| - 1]) + us[|us| - 1].fielded
  }

  function AllEnums(us: seq<Unit>): seq<Nominal> {
    if us == [] then [] else AllEnums(us[..|us| - 1]) + us[|us| - 1].enums
  }

  function AllAttributes(us: seq<Unit>): seq<Nominal> {
    if us == [] then [] else AllAttributes(us[..|us| - 1]) + us[|us| - 1].attributes
  }

  /** Module functions and trait methods unit by unit, then types, fielded types and enums. */
  function EagerRecords(reg: Registry): seq<ParamRecord> {
    UnitRecords(reg) + NominalRecords(AllTypes(reg), true) + NominalRecords(AllFielded(reg), false)
      + NominalRecords(AllEnums(reg), false)
  }

  /** The first record of that owner and name. */
  function FirstRecord(rs: seq<ParamRecord>, owner: string, name: string): Option<ParamRecord> {
    if rs == [] then None
    else if rs[0].owner == owner && rs[0].fn.name == name then Some(rs[0])
    else FirstRecord(rs[1..], owner, name)
  }

  /** The first record spelled that way. */
  function FirstSpelled(rs: seq<ParamRecord>, target: string): Option<ParamRecord> {
    if rs == [] then None
    else if rs[0].owner + "." + rs[0].fn.name == target then Some(rs[0])
    else FirstSpelled(rs[1..], target)
  }

  lemma {:induction false} FirstOfJoined(a: seq<ParamRecord>, b: seq<ParamRecord>, owner: string, name: string)
    ensures FirstRecord(a + b, owner, name) == if FirstRecord(a, owner, name).Some? then FirstRecord(a, owner, name)
      else FirstRecord(b, owner, name)
  {
    if a == [] {
      assert a + b == b;
    } else {
      assert (a + b)[0] == a[0] && (a + b)[1..] == a[1..] + b;
      FirstOfJoined(a[1..], b, owner, name);
    }
  }

  /** Where no callable has a dot in its name, the two searches agree. */
  lemma {:induction false} SpelledIsSplit(rs: seq<ParamRecord>, target: string)
    requires forall i :: 0 <= i < |rs| ==> '.' !in rs[i].fn.name
    ensures FirstSpelled(rs, target) ==
            match SplitLast(target) { case None => None case Some(p) => FirstRecord(rs, p.0, p.1) }
  {
    if rs != [] {
      SpelledIsSplit(rs[1..], target);
      SplitsBack(rs[0].owner, rs[0].fn.name);
    }
  }

  // ----- The lazy search -----

  function FirstFn(fns: seq<Fn>, name: string): Option<Fn> {
    if fns == [] then None else if fns[0].name == name then Some(fns[0]) else FirstFn(fns[1..], name)
  }

  lemma {:induction false} FirstInTable(o: string, fns: seq<Fn>, owner: string, name: string)
    ensures FirstRecord(Records(o, fns), owner, name) ==
            if o != owner then None
              else match FirstFn(fns, name) { case None => None case Some(f) => Some(ParamRecord(o, f)) }
  {
    if fns != [] {
      assert Records(o, fns)[1..] == Records(o, fns[1..]);
      FirstInTable(o, fns[1..], owner, name);
    }
  }

  lemma {:induction false} FirstFnJoined(a: seq<Fn>, b: seq<Fn>, name: string)
    ensures FirstFn(a + b, name) == if FirstFn(a, name).Some? then FirstFn(a, name) else FirstFn(b, name)
  {
    if a == [] {
      assert a + b == b;
    } else {
      assert (a + b)[0] == a[0] && (a + b)[1..] == a[1..] + b;
      FirstFnJoined(a[1..], b, name);
    }
  }

  lemma FirstOfPrefix(a: seq<ParamRecord>, b: seq<ParamRecord>, owner: string, name: string)
    requires a <= b && FirstRecord(a, owner, name).Some?
    ensures FirstRecord(b, owner, name) == FirstRecord(a, owner, name)
  {
    assert b == a + b[|a|..];
    FirstOfJoined(a, b[|a|..], owner, name);
  }

  lemma {:induction false} ModulesGrow(root: string, ms: seq<Module>, k: nat)
    requires k <= |ms|
    ensures ModuleRecords(root, ms[..k]) <= ModuleRecords(root, ms)
    decreases |ms| - k
  {
    if k < |ms| {
      assert ms[..k + 1][..k] == ms[..k];
      ModulesGrow(root, ms, k + 1);
    } else {
      assert ms[..k] == ms;
    }
  }

  lemma {:induction false} NominalsGrow(ds: seq<Nominal>, withCtx: bool, k: nat)
    requires k <= |ds|
    ensures NominalRecords(ds[..k], withCtx) <= NominalRecords(ds, withCtx)
    decreases |ds| - k
  {
    if k < |ds| {
      assert ds[..k + 1][..k] == ds[..k];
      NominalsGrow(ds, withCtx, k + 1);
    } else {
      assert ds[..k] == ds;
    }
  }

  lemma {:induction false} UnitsGrow(us: seq<Unit>, k: nat)
    requires k <= |us|
    ensures UnitRecords(us[..k]) <= UnitRecords(us)
    decreases |us| - k
  {
    if k < |us| {
      assert us[..k + 1][..k] == us[..k];
      UnitsGrow(us, k + 1);
    } else {
      assert us[..k] == us;
    }
  }

  method SearchModules(root: string, ms: seq<Module>, owner: string, name: string) returns (r: Option<ParamRecord>)
    ensures r == FirstRecord(ModuleRecords(root, ms), owner, name)
  {
    for k := 0 to |ms|
      invariant FirstRecord(ModuleRecords(root, ms[..k]), owner, name) == None
    {
      var m := ms[k];
      assert ms[..k + 1][..k] == ms[..k];
      ghost var o, table := Join([root, m.name]), m.functions + m.ctxFunctions + m.typedFunctions;
      FirstOfJoined(ModuleRecords(root, ms[..k]), Records(o, table), owner, name);
      FirstInTable(o, table, owner, name);
      FirstFnJoined(m.functions + m.ctxFunctions, m.typedFunctions, name);
      FirstFnJoined(m.functions, m.ctxFunctions, name);
      var here := JoinedEq([root, m.name], owner);
      if !here { continue; }
      var f := if FirstFn(m.functions, name).Some? then FirstFn(m.functions, name)
               else if FirstFn(m.ctxFunctions, name).Some? then FirstFn(m.ctxFunctions, name)
               else FirstFn(m.typedFunctions, name);
      if f.Some? {
        ModulesGrow(root, ms, k + 1);
        FirstOfPrefix(ModuleRecords(root, ms[..k + 1]), ModuleRecords(root, ms), owner, name);
        return Some(ParamRecord(owner, f.value));
      }
    }
    assert ms[..|ms|] == ms;
    return None;
  }

  method SearchNominals(ds: seq<Nominal>, withCtx: bool, owner: string, name: string) returns (r: Option<ParamRecord>)
    ensures r == FirstRecord(NominalRecords(ds, withCtx), owner, name)
  {
    for k := 0 to |ds|
      invariant FirstRecord(NominalRecords(ds[..k], withCtx), owner, name) == None
    {
      var d := ds[k];
      assert ds[..k + 1][..k] == ds[..k];
      ghost var o, table := d.namespace + "." + d.name, d.methods + if withCtx then d.ctxMethods else [];
      FirstOfJoined(NominalRecords(ds[..k], withCtx), Records(o, table), owner, name);
      FirstInTable(o, table, owner, name);
      FirstFnJoined(d.methods, if withCtx then d.ctxMethods else [], name);
      QualifiedIs(d, owner);
      if !IsQualified(d, owner) { continue; }
      var f := if FirstFn(d.methods, name).Some? then FirstFn(d.methods, name)
               else if withCtx then FirstFn(d.ctxMethods, name) else None;
      if f.Some? {
        NominalsGrow(ds, withCtx, k + 1);
        FirstOfPrefix(NominalRecords(ds[..k + 1], withCtx), NominalRecords(ds, withCtx), owner, name);
        return Some(ParamRecord(owner, f.value));
      }
    }
    assert ds[..|ds|] == ds;
    return None;
  }

  method SearchUnits(us: seq<Unit>, owner: string, name: string) returns (r: Option<ParamRecord>)
    ensures r == FirstRecord(UnitRecords(us), owner, name)
  {
    for k := 0 to |us|
      invariant FirstRecord(UnitRecords(us[..k]), owner, name) == None
    {
      var u := us[k];
      assert us[..k + 1][..k] == us[..k];
      ghost var fromModules, fromTraits := ModuleRecords(u.root, u.modules), NominalRecords(u.traits, false);
      FirstOfJoined(UnitRecords(us[..k]), fromModules + fromTraits, owner, name);
      FirstOfJoined(fromModules, fromTraits, owner, name);
      r := SearchModules(u.root, u.modules, owner, name);
      if r.None? {
        r := SearchNominals(u.traits, false, owner, name);
      }
      if r.Some? {
        UnitsGrow(us, k + 1);
        FirstOfPrefix(UnitRecords(us[..k + 1]), UnitRecords(us), owner, name);
        return r;
      }
    }
    assert us[..|us|] == us;
    return None;
  }

  /** What a callable's target resolves to: nothing before there is a registry. */
  function ParamAnswer(reg: Option<Registry>, target: string): Option<ParamRecord> {
    if reg.None? || SplitLast(target).None? then None
    else FirstRecord(EagerRecords(reg.value), SplitLast(target).value.0, SplitLast(target).value.1)
  }

  /** Family by family, in the order the eager seeding pushed them. */
  method ResolveParamRecord(reg: Option<Registry>, target: string) returns (r: Option<ParamRecord>)
    ensures r == ParamAnswer(reg, target)
  {
    if reg.None? { return None; }
    var split := SplitLast(target);
    if split.None? { return None; }
    var owner, name, g := split.value.0, split.value.1, reg.value;
    ghost var a, b, c, d := UnitRecords(g), NominalRecords(AllTypes(g), true), NominalRecords(AllFielded(g), false),
      NominalRecords(AllEnums(g), false);
    FirstOfJoined(a + b + c, d, owner, name);
    FirstOfJoined(a + b, c, owner, name);
    FirstOfJoined(a, b, owner, name);
    r := SearchUnits(g, owner, name);
    if r.None? { r := SearchNominals(AllTypes(g), true, owner, name); }
    if r.None? { r := SearchNominals(AllFielded(g), false, owner, name); }
    if r.None? { r := SearchNominals(AllEnums(g), false, owner, name); }
  }

  /** **The lazy answer is the eager one.** With no dot in a callable's own name, resolving a target finds
      the record that a search of everything the registry declares, in the order it would have been
      pushed, finds first under that spelling. */
  lemma LazyIsEager(reg: Registry, target: string)
    requires forall i :: 0 <= i < |EagerRecords(reg)| ==> '.' !in EagerRecords(reg)[i].fn.name
    ensures ParamAnswer(Some(reg), target) == FirstSpelled(EagerRecords(reg), target)
  {
    SpelledIsSplit(EagerRecords(reg), target);
  }

  // ----- Types -----

  function FirstQualified(ds: seq<Nominal>, q: string): Option<Nominal> {
    if ds == [] then None else if IsQualified(ds[0], q) then Some(ds[0]) else FirstQualified(ds[1..], q)
  }

  function OnlyAttributes(ds: seq<Nominal>): seq<Nominal> {
    if ds == [] then [] else (if ds[0].isAttribute then [ds[0]] else []) + OnlyAttributes(ds[1..])
  }

  function FirstPrelude(prelude: seq<string>, name: string): Option<TypeInfo> {
    if prelude == [] then None else if prelude[0] == name then Some(Prelude(name)) else FirstPrelude(prelude[1..], name)
  }

  /** The prelude, then attributes, fielded attributes, enums and fielded types; past the prelude there is
      nothing to find before there is a registry. */
  function TypeAnswer(prelude: seq<string>, reg: Option<Registry>, name: string): Option<TypeInfo> {
    if FirstPrelude(prelude, name).Some? then FirstPrelude(prelude, name)
    else if reg.None? then None
    else
      var g := reg.value;
      var attribute, fieldedAttribute :=
        FirstQualified(AllAttributes(g), name), FirstQualified(OnlyAttributes(AllFielded(g)), name);
      var enum, fielded := FirstQualified(AllEnums(g), name), FirstQualified(AllFielded(g), name);
      if attribute.Some? then Some(FromAttribute(attribute.value))
      else if fieldedAttribute.Some? then Some(FromFielded(fieldedAttribute.value))
      else if enum.Some? then Some(FromEnum(enum.value))
      else if fielded.Some? then Some(FromFielded(fielded.value))
      else None
  }

  // ----- The memo -----

  type Resolver<!T> = (Option<Registry>, string) -> Option<T>

  /** An answer found without a registry stays the answer with one. */
  ghost predicate Steady<T(!new)>(resolve: Resolver<T>) {
    forall reg, key :: resolve(None, key).Some? ==> resolve(Some(reg), key) == resolve(None, key)
  }

  /** Both resolvers are steady: the prelude is asked first, and the rest needs a registry. */
  lemma ResolversAreSteady(prelude: seq<string>)
    ensures Steady((reg: Option<Registry>, name: string) => TypeAnswer(prelude, reg, name))
    ensures Steady((reg: Option<Registry>, target: string) => ParamAnswer(reg, target))
  {
  }

  /** The table after a lookup: an answer is kept, a miss only once there is a registry. */
  function Remember<T>(
    table: map<string, Option<T>>, installed: bool, key: string, answer: Option<T>): map<string, Option<T>> {
    if key !in table && (answer.Some? || installed) then table[key := answer] else table
  }

  /** What a lookup hands back. */
  function Recalled<T>(
    resolve: Resolver<T>, table: map<string, Option<T>>, reg: Option<Registry>, key: string): Option<T> {
    if key in table then table[key] else resolve(reg, key)
  }

  /** Every entry is what the resolver answers now. */
  ghost predicate Sound<T(!new)>(resolve: Resolver<T>, table: map<string, Option<T>>, reg: Option<Registry>) {
    forall key :: key in table ==> table[key] == resolve(reg, key) && (reg.None? ==> table[key].Some?)
  }

  class Memo<T(!new)> {
    const resolve: Resolver<T>
    var table: map<string, Option<T>>

    constructor (resolve: Resolver<T>)
      ensures this.resolve == resolve && table == map[]
    {
      this.resolve := resolve;
      table := map[];
    }

    /** Answer from the table, or resolve and remember. */
    method Lookup(reg: Option<Registry>, key: string) returns (answer: Option<T>)
      requires Sound(resolve, table, reg)
      modifies this
      ensures answer == resolve(reg, key)
      ensures table == Remember(old(table), reg.Some?, key, answer)
      ensures Sound(resolve, table, reg)
    {
      if key in table { return table[key]; }
      answer := resolve(reg, key);
      if answer.Some? || reg.Some? {
        table := table[key := answer];
      }
    }
  }

  /** Installing the registry spoils no entry. */
  lemma InstallKeepsSound<T(!new)>(resolve: Resolver<T>, table: map<string, Option<T>>, reg: Registry)
    requires Steady(resolve) && Sound(resolve, table, None)
    ensures Sound(resolve, table, Some(reg))
  {
    forall key | key in table ensures table[key] == resolve(Some(reg), key) {
      assert resolve(None, key).Some?;
    }
  }

  // ----- Whole runs -----

  datatype Event = Ask(key: string) | Install(registry: Registry)
  datatype State<T> = State(table: map<string, Option<T>>, registry: Option<Registry>, answers: seq<Option<T>>)

  /** One event. Only the first installation counts. */
  function Step<T>(resolve: Resolver<T>, s: State<T>, e: Event): State<T> {
    match e
    case Install(g) => if s.registry.None? then s.(registry := Some(g)) else s
    case Ask(key) =>
      var answer := Recalled(resolve, s.table, s.registry, key);
      State(Remember(s.table, s.registry.Some?, key, answer), s.registry, s.answers + [answer])
  }

  function Run<T>(resolve: Resolver<T>, es: seq<Event>): State<T> {
    if es == [] then State(map[], None, []) else Step(resolve, Run(resolve, es[..|es| - 1]), es[|es| - 1])
  }

  /** What the run answers with no memo at all. */
  function Uncached<T>(resolve: Resolver<T>, es: seq<Event>): seq<Option<T>> {
    if es == [] then []
    else
      var before := Uncached(resolve, es[..|es| - 1]);
      match es[|es| - 1]
      case Install(_) => before
      case Ask(key) => before + [resolve(Installed(es), key)]
  }

  /** The registry installed during a run, if any: the first one. */
  function Installed(es: seq<Event>): Option<Registry> {
    if es == [] then None
    else
      var before := Installed(es[..|es| - 1]);
      if before.None? && es[|es| - 1].Install? then Some(es[|es| - 1].registry) else before
  }

  /** **The memo is never wrong.** Over any sequence of lookups with the installation anywhere in it, every
      answer is the uncached resolver's at that moment; so an early miss is not held against a name
      once the registry is there, and an early hit stays right. */
  lemma {:induction false} MemoIsNeverWrong<T(!new)>(resolve: Resolver<T>, es: seq<Event>)
    requires Steady(resolve)
    ensures var s := Run(resolve, es);
            s.registry == Installed(es) && s.answers == Uncached(resolve, es) && Sound(resolve, s.table, s.registry)
  {
    if es != [] {
      MemoIsNeverWrong(resolve, es[..|es| - 1]);
      var s := Run(resolve, es[..|es| - 1]);
      if es[|es| - 1].Install? && s.registry.None? { InstallKeepsSound(resolve, s.table, es[|es| - 1].registry); }
    }
  }

  /** The rule for misses is what keeps it so: a table that held an early miss is wrong after the
      installation exactly when the registry has the name. */
  lemma KeptMissIs<T(!new)>(resolve: Resolver<T>, table: map<string, Option<T>>, key: string, reg: Registry)
    requires Steady(resolve) && Sound(resolve, table, None) && resolve(None, key).None?
    ensures Sound(resolve, table[key := None], Some(reg)) <==> resolve(Some(reg), key).None?
  {
    InstallKeepsSound(resolve, table, reg);
    if Sound(resolve, table[key := None], Some(reg)) {
      assert key in table[key := None];
    }
  }

  /** At some point of the run `key` was asked for with an answer, or with a registry there. */
  ghost predicate Settled<T(!new)>(resolve: Resolver<T>, es: seq<Event>, key: string) {
    exists i :: SettledAt(resolve, es, key, i)
  }

  ghost predicate SettledAt<T(!new)>(resolve: Resolver<T>, es: seq<Event>, key: string, i: int) {
    0 <= i < |es| && es[i] == Ask(key) && (Installed(es[..i]).Some? || resolve(Installed(es[..i]), key).Some?)
  }

  /** **What is remembered**: exactly what was asked for with an answer, or after the installation. */
  lemma {:induction false} RememberedIs<T(!new)>(resolve: Resolver<T>, es: seq<Event>, key: string)
    requires Steady(resolve)
    ensures key in Run(resolve, es).table <==> Settled(resolve, es, key)
  {
    if es != [] {
      var last := |es| - 1;
      var init := es[..last];
      RememberedIs(resolve, init, key);
      MemoIsNeverWrong(resolve, init);
      assert forall i :: 0 <= i <= last ==> init[..i] == es[..i];
      forall i | 0 <= i < last ensures SettledAt(resolve, init, key, i) <==> SettledAt(resolve, es, key, i) { }
      if Settled(resolve, init, key) {
        var i :| SettledAt(resolve, init, key, i);
        assert SettledAt(resolve, es, key, i);
      }
      if Settled(resolve, es, key) && !SettledAt(resolve, es, key, last) {
        var i :| SettledAt(resolve, es, key, i);
        assert SettledAt(resolve, init, key, i);
      }
      if key in Run(resolve, es).table && key !in Run(resolve, init).table {
        assert SettledAt(resolve, es, key, last);
      }
    }
  }
}
