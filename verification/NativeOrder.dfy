/** Which native declaration answers a name: family by family, and in each the first declared. */
module NativeOrder {
  import opened Wrappers
  import opened NativeReflection

  /** What a unit declares of one family. */
  type Family = Unit -> seq<Nominal>

  ghost predicate Called(d: Nominal, name: string) { d.namespace + "." + d.name == name }

  /** The `i`-th declaration of unit `u`'s family is one of those wanted, and is called `name`. */
  ghost predicate Hit(reg: Registry, family: Family, wanted: Nominal -> bool, name: string, u: int, i: int) {
    && 0 <= u < |reg| && 0 <= i < |family(reg[u])|
    && wanted(family(reg[u])[i]) && Called(family(reg[u])[i], name)
  }

  ghost predicate Declared(reg: Registry, family: Family, wanted: Nominal -> bool, name: string) {
    exists u, i :: Hit(reg, family, wanted, name, u, i)
  }

  /** `d` is the first such declaration: of the earliest unit, and there of the earliest place. */
  ghost predicate First(reg: Registry, family: Family, wanted: Nominal -> bool, name: string, d: Nominal) {
    exists u, i :: Hit(reg, family, wanted, name, u, i) && family(reg[u])[i] == d
      && forall v, j :: Hit(reg, family, wanted, name, v, j) ==> u < v || (u == v && i <= j)
  }

  // ----- One family -----

  /** All units' declarations of a family, in order. */
  function Flat(reg: Registry, family: Family): seq<Nominal> {
    if reg == [] then [] else Flat(reg[..|reg| - 1], family) + family(reg[|reg| - 1])
  }

  function Attributes(): Family { (u: Unit) => u.attributes }
  function Fielded(): Family { (u: Unit) => u.fielded }
  function Enums(): Family { (u: Unit) => u.enums }
  function Types(): Family { (u: Unit) => u.types }
  function Any(): Nominal -> bool { (d: Nominal) => true }
  function Attribute(): Nominal -> bool { (d: Nominal) => d.isAttribute }

  lemma {:induction false} FamiliesAre(reg: Registry)
    ensures AllAttributes(reg) == Flat(reg, Attributes()) && AllFielded(reg) == Flat(reg, Fielded())
    ensures AllEnums(reg) == Flat(reg, Enums()) && AllTypes(reg) == Flat(reg, Types())
  {
    if reg != [] { FamiliesAre(reg[..|reg| - 1]); }
  }

  function Wanted(ds: seq<Nominal>, wanted: Nominal -> bool): seq<Nominal> {
    if ds == [] then [] else (if wanted(ds[0]) then [ds[0]] else []) + Wanted(ds[1..], wanted)
  }

  lemma {:induction false} WantedAre(ds: seq<Nominal>)
    ensures Wanted(ds, Any()) == ds && OnlyAttributes(ds) == Wanted(ds, Attribute())
  {
    if ds != [] { WantedAre(ds[1..]); }
  }

  lemma {:induction false} WantedJoin(a: seq<Nominal>, b: seq<Nominal>, wanted: Nominal -> bool)
    ensures Wanted(a + b, wanted) == Wanted(a, wanted) + Wanted(b, wanted)
  {
    if a == [] {
      assert a + b == b;
    } else {
      assert (a + b)[0] == a[0] && (a + b)[1..] == a[1..] + b;
      WantedJoin(a[1..], b, wanted);
    }
  }

  lemma {:induction false} FirstJoin(a: seq<Nominal>, b: seq<Nominal>, name: string)
    ensures FirstQualified(a + b, name) ==
            if FirstQualified(a, name).Some? then FirstQualified(a, name) else FirstQualified(b, name)
  {
    if a == [] {
      assert a + b == b;
    } else {
      assert (a + b)[0] == a[0] && (a + b)[1..] == a[1..] + b;
      FirstJoin(a[1..], b, name);
    }
  }

  /** In one unit's list. */
  lemma {:induction false} FirstInList(ds: seq<Nominal>, wanted: Nominal -> bool, name: string) returns (i: int)
    ensures match FirstQualified(Wanted(ds, wanted), name)
            case None => i == |ds|
            case Some(d) => 0 <= i < |ds| && ds[i] == d && wanted(d) && Called(d, name)
    ensures 0 <= i <= |ds| && forall j :: 0 <= j < i ==> !(wanted(ds[j]) && Called(ds[j], name))
  {
    i := 0;
    if ds != [] {
      QualifiedIs(ds[0], name);
      FirstJoin(if wanted(ds[0]) then [ds[0]] else [], Wanted(ds[1..], wanted), name);
      if !(wanted(ds[0]) && Called(ds[0], name)) {
        i := FirstInList(ds[1..], wanted, name);
        assert forall j :: 0 < j < |ds| ==> ds[j] == ds[1..][j - 1];
        i := i + 1;
      }
    }
  }

  /** Over all units: the answer is the first hit, and there is none where there is no hit. */
  lemma {:induction false} FirstInFamily(reg: Registry, family: Family, wanted: Nominal -> bool, name: string)
    ensures match FirstQualified(Wanted(Flat(reg, family), wanted), name)
            case None => !Declared(reg, family, wanted, name)
            case Some(d) => First(reg, family, wanted, name, d)
  {
    if reg != [] {
      var init, unit := reg[..|reg| - 1], |reg| - 1;
      var last := family(reg[unit]);
      FirstInFamily(init, family, wanted, name);
      WantedJoin(Flat(init, family), last, wanted);
      FirstJoin(Wanted(Flat(init, family), wanted), Wanted(last, wanted), name);
      forall u, i ensures Hit(init, family, wanted, name, u, i) <==> u < unit && Hit(reg, family, wanted, name, u, i) {
      }
      if FirstQualified(Wanted(Flat(init, family), wanted), name).Some? {
        FirstCarries(init, reg, family, wanted, name, FirstQualified(Wanted(Flat(init, family), wanted), name).value);
      } else {
        var i := FirstInList(last, wanted, name);
        if i < |last| { assert Hit(reg, family, wanted, name, unit, i); }
      }
    }
  }

  lemma FirstCarries(
    init: Registry, reg: Registry, family: Family, wanted: Nominal -> bool, name: string, d: Nominal)
    requires init <= reg && First(init, family, wanted, name, d)
    ensures First(reg, family, wanted, name, d)
  {
    var u, i :| Hit(init, family, wanted, name, u, i) && family(init[u])[i] == d
      && forall v, j :: Hit(init, family, wanted, name, v, j) ==> u < v || (u == v && i <= j);
    assert Hit(reg, family, wanted, name, u, i);
    forall v, j | Hit(reg, family, wanted, name, v, j) ensures u < v || (u == v && i <= j) {
      if v < |init| { assert Hit(init, family, wanted, name, v, j); }
    }
  }

  lemma {:induction false} PreludeIs(prelude: seq<string>, name: string)
    ensures FirstPrelude(prelude, name) == if name in prelude then Some(Prelude(name)) else None
  {
    if prelude != [] { PreludeIs(prelude[1..], name); }
  }

  // ----- The answer for a type -----

  /** **Which declaration a type name finds.** A prelude type before any registry; then the first extension
      attribute of that qualified name, else the first fielded type that is an attribute, else the first enum,
      else the first fielded type; and nothing when none of them is called so. */
  lemma TypeFound(prelude: seq<string>, reg: Registry, name: string)
    ensures forall r :: name in prelude ==> TypeAnswer(prelude, r, name) == Some(Prelude(name))
    ensures name !in prelude ==> TypeAnswer(prelude, None, name) == None
    ensures name !in prelude ==>
            var answer := TypeAnswer(prelude, Some(reg), name);
            if Declared(reg, Attributes(), Any(), name) then
              exists d :: answer == Some(FromAttribute(d)) && First(reg, Attributes(), Any(), name, d)
            else if Declared(reg, Fielded(), Attribute(), name) then
              exists d :: answer == Some(FromFielded(d)) && First(reg, Fielded(), Attribute(), name, d)
            else if Declared(reg, Enums(), Any(), name) then
              exists d :: answer == Some(FromEnum(d)) && First(reg, Enums(), Any(), name, d)
            else if Declared(reg, Fielded(), Any(), name) then
              exists d :: answer == Some(FromFielded(d)) && First(reg, Fielded(), Any(), name, d)
            else answer == None
  {
    PreludeIs(prelude, name);
    FamiliesAre(reg);
    WantedAre(AllAttributes(reg));
    WantedAre(AllFielded(reg));
    WantedAre(AllEnums(reg));
    FirstInFamily(reg, Attributes(), Any(), name);
    FirstInFamily(reg, Fielded(), Attribute(), name);
    FirstInFamily(reg, Enums(), Any(), name);
    FirstInFamily(reg, Fielded(), Any(), name);
  }

  // ----- The answer for a callable -----

  /** `r` is `owner`'s: the first callable of that name of the first declaration of the family that has one. */
  ghost predicate FamilyAnswer(
    reg: Registry, family: Family, withCtx: bool, owner: string, name: string, r: ParamRecord) {
    r.owner == owner && exists d ::
      First(reg, family, Has(name, withCtx), owner, d) && FirstOfName(Table(d, withCtx), name, r.fn)
  }

  function Spelled(owner: string, name: string): string { owner + "." + name }

  /** `f` is the first function of that name. */
  ghost predicate FirstOfName(fns: seq<Fn>, name: string, f: Fn) {
    exists i :: 0 <= i < |fns| && fns[i] == f && f.name == name && forall j :: 0 <= j < i ==> fns[j].name != name
  }

  predicate HasName(fns: seq<Fn>, name: string) {
    exists i | 0 <= i < |fns| :: fns[i].name == name
  }

  lemma {:induction false} FirstFnIs(fns: seq<Fn>, name: string)
    ensures match FirstFn(fns, name)
            case None => !HasName(fns, name)
            case Some(f) => FirstOfName(fns, name, f) && HasName(fns, name)
  {
    if fns != [] && fns[0].name != name {
      FirstFnIs(fns[1..], name);
      assert forall j :: 0 < j < |fns| ==> fns[j] == fns[1..][j - 1];
      if FirstFn(fns, name).Some? {
        var i :| 0 <= i < |fns| - 1 && fns[1..][i] == FirstFn(fns, name).value
          && forall j :: 0 <= j < i ==> fns[1..][j].name != name;
        assert fns[i + 1] == FirstFn(fns, name).value;
      }
    }
  }

  /** The methods a declaration answers with: its own, then context methods where they count. */
  function Table(d: Nominal, withCtx: bool): seq<Fn> { d.methods + if withCtx then d.ctxMethods else [] }

  function Has(name: string, withCtx: bool): Nominal -> bool {
    (d: Nominal) => HasName(Table(d, withCtx), name)
  }

  function Owned(owner: string, f: Option<Fn>): Option<ParamRecord> {
    match f case None => None case Some(g) => Some(ParamRecord(owner, g))
  }

  lemma {:induction false} FirstIsThere(ds: seq<Nominal>, name: string)
    ensures FirstQualified(ds, name).Some? ==> FirstQualified(ds, name).value in ds
  {
    if ds != [] { FirstIsThere(ds[1..], name); }
  }

  lemma OneNominal(d: Nominal, withCtx: bool, owner: string, name: string)
    ensures FirstRecord(Records(d.namespace + "." + d.name, Table(d, withCtx)), owner, name) ==
            match FirstQualified(Wanted([d], Has(name, withCtx)), owner)
            case None => None
            case Some(d') => Owned(owner, FirstFn(Table(d', withCtx), name))
  {
    assert [d][1..] == [];
    FirstFnIs(Table(d, withCtx), name);
    assert Wanted([d], Has(name, withCtx)) == if Has(name, withCtx)(d) then [d] else [];
    FirstInTable(d.namespace + "." + d.name, Table(d, withCtx), owner, name);
    QualifiedIs(d, owner);
  }

  /** Of native declarations, the first of that qualified name that has the method. */
  lemma {:induction false} NominalAnswer(ds: seq<Nominal>, withCtx: bool, owner: string, name: string)
    ensures FirstRecord(NominalRecords(ds, withCtx), owner, name) ==
            match FirstQualified(Wanted(ds, Has(name, withCtx)), owner)
            case None => None
            case Some(d) => Owned(owner, FirstFn(Table(d, withCtx), name))
    ensures forall d :: d in Wanted(ds, Has(name, withCtx)) ==> Has(name, withCtx)(d)
  {
    if ds != [] {
      var init, d := ds[..|ds| - 1], ds[|ds| - 1];
      assert ds == init + [d];
      NominalAnswer(init, withCtx, owner, name);
      WantedJoin(init, [d], Has(name, withCtx));
      FirstJoin(Wanted(init, Has(name, withCtx)), Wanted([d], Has(name, withCtx)), owner);
      FirstIsThere(Wanted(init, Has(name, withCtx)), owner);
      var found := FirstQualified(Wanted(init, Has(name, withCtx)), owner);
      if found.Some? { FirstFnIs(Table(found.value, withCtx), name); }
      OneNominal(d, withCtx, owner, name);
      FirstOfJoined(NominalRecords(init, withCtx), Records(d.namespace + "." + d.name, Table(d, withCtx)), owner, name);
    }
  }

  /** **Of native types, the earliest that has the method answers**, with the first of that name: its own ahead of
      its context methods. So it is for fielded types and enums, which have none of the latter. */
  lemma TypeMethodFound(reg: Registry, family: Family, withCtx: bool, owner: string, name: string)
    ensures match FirstRecord(NominalRecords(Flat(reg, family), withCtx), owner, name)
            case None => !Declared(reg, family, Has(name, withCtx), owner)
            case Some(r) =>
              Declared(reg, family, Has(name, withCtx), owner) && FamilyAnswer(reg, family, withCtx, owner, name, r)
  {
    NominalAnswer(Flat(reg, family), withCtx, owner, name);
    FirstInFamily(reg, family, Has(name, withCtx), owner);
    FirstIsThere(Wanted(Flat(reg, family), Has(name, withCtx)), owner);
    match FirstQualified(Wanted(Flat(reg, family), Has(name, withCtx)), owner)
    case None =>
    case Some(d) => FirstFnIs(Table(d, withCtx), name);
  }

  /** What a module answers with: plain functions, then context functions, then typed ones. */
  function ModuleTable(m: Module): seq<Fn> { m.functions + m.ctxFunctions + m.typedFunctions }

  /** The `i`-th module of the unit is called `owner` and has a function of that name. */
  ghost predicate ModuleHit(u: Unit, owner: string, name: string, i: int) {
    0 <= i < |u.modules| && owner == Spelled(u.root, u.modules[i].name) && HasName(ModuleTable(u.modules[i]), name)
  }

  ghost predicate TraitHit(u: Unit, owner: string, name: string, i: int) {
    0 <= i < |u.traits| && Called(u.traits[i], owner) && HasName(u.traits[i].methods, name)
  }

  /** In one unit: the first module that has the function, else the first trait that has the method; and there the
      first of that name. */
  ghost predicate UnitAnswer(u: Unit, owner: string, name: string, f: Fn) {
    || (exists i :: ModuleHit(u, owner, name, i) && FirstOfName(ModuleTable(u.modules[i]), name, f)
          && forall j :: 0 <= j < i ==> !ModuleHit(u, owner, name, j))
    || ((forall j :: !ModuleHit(u, owner, name, j))
        && exists i :: TraitHit(u, owner, name, i) && FirstOfName(u.traits[i].methods, name, f)
             && forall j :: 0 <= j < i ==> !TraitHit(u, owner, name, j))
  }

  ghost predicate UnitHit(u: Unit, owner: string, name: string) {
    (exists i :: ModuleHit(u, owner, name, i)) || exists i :: TraitHit(u, owner, name, i)
  }

  lemma {:induction false} ModuleAnswer(u: Unit, n: nat, owner: string, name: string) returns (i: int)
    requires n <= |u.modules|
    ensures forall j :: 0 <= j < i ==> !ModuleHit(u, owner, name, j)
    ensures match FirstRecord(ModuleRecords(u.root, u.modules[..n]), owner, name)
            case None => i == n
            case Some(r) =>
              && i < n && r.owner == owner && ModuleHit(u, owner, name, i)
              && FirstOfName(ModuleTable(u.modules[i]), name, r.fn)
  {
    i := 0;
    if n > 0 {
      i := ModuleAnswer(u, n - 1, owner, name);
      var m := u.modules[n - 1];
      assert u.modules[..n][..n - 1] == u.modules[..n - 1];
      assert [u.root, m.name][..1] == [u.root] && Join([u.root, m.name]) == Spelled(u.root, m.name);
      FirstOfJoined(ModuleRecords(u.root, u.modules[..n - 1]), Records(Spelled(u.root, m.name), ModuleTable(m)), owner,
        name);
      FirstInTable(Spelled(u.root, m.name), ModuleTable(m), owner, name);
      FirstFnIs(ModuleTable(m), name);
      if i == n - 1 && !ModuleHit(u, owner, name, i) { i := n; }
    }
  }

  lemma {:induction false} TraitAnswer(u: Unit, n: nat, owner: string, name: string) returns (i: int)
    requires n <= |u.traits|
    ensures forall j :: 0 <= j < i ==> !TraitHit(u, owner, name, j)
    ensures match FirstRecord(NominalRecords(u.traits[..n], false), owner, name)
            case None => i == n
            case Some(r) =>
              && i < n && r.owner == owner && TraitHit(u, owner, name, i)
              && FirstOfName(u.traits[i].methods, name, r.fn)
  {
    i := 0;
    if n > 0 {
      i := TraitAnswer(u, n - 1, owner, name);
      var d := u.traits[n - 1];
      assert u.traits[..n][..n - 1] == u.traits[..n - 1] && d.methods + [] == d.methods;
      var full := d.namespace + "." + d.name;
      FirstOfJoined(NominalRecords(u.traits[..n - 1], false), Records(full, d.methods), owner, name);
      FirstInTable(full, d.methods, owner, name);
      FirstFnIs(d.methods, name);
      if i == n - 1 && !TraitHit(u, owner, name, i) { i := n; }
    }
  }

  lemma OneUnit(u: Unit, owner: string, name: string)
    ensures match FirstRecord(ModuleRecords(u.root, u.modules) + NominalRecords(u.traits, false), owner, name)
            case None => !UnitHit(u, owner, name)
            case Some(r) => r.owner == owner && UnitHit(u, owner, name) && UnitAnswer(u, owner, name, r.fn)
  {
    assert u.modules[..|u.modules|] == u.modules && u.traits[..|u.traits|] == u.traits;
    FirstOfJoined(ModuleRecords(u.root, u.modules), NominalRecords(u.traits, false), owner, name);
    var i := ModuleAnswer(u, |u.modules|, owner, name);
    var j := TraitAnswer(u, |u.traits|, owner, name);
  }

  ghost predicate AnyUnitHit(reg: Registry, owner: string, name: string) {
    exists u :: 0 <= u < |reg| && UnitHit(reg[u], owner, name)
  }

  /** `r` is what the first unit that has the callable answers with. */
  ghost predicate UnitsAnswer(reg: Registry, owner: string, name: string, r: ParamRecord) {
    r.owner == owner &&
    exists u ::
      && 0 <= u < |reg| && UnitHit(reg[u], owner, name) && UnitAnswer(reg[u], owner, name, r.fn)
      && forall v :: 0 <= v < u ==> !UnitHit(reg[v], owner, name)
  }

  /** **Of units, the earliest that has the callable answers**, its modules ahead of its traits. */
  lemma {:induction false} UnitFound(reg: Registry, owner: string, name: string)
    ensures match FirstRecord(UnitRecords(reg), owner, name)
            case None => !AnyUnitHit(reg, owner, name)
            case Some(r) => AnyUnitHit(reg, owner, name) && UnitsAnswer(reg, owner, name, r)
  {
    if reg != [] {
      var init, last := reg[..|reg| - 1], reg[|reg| - 1];
      UnitFound(init, owner, name);
      OneUnit(last, owner, name);
      FirstOfJoined(UnitRecords(init), ModuleRecords(last.root, last.modules) + NominalRecords(last.traits, false),
        owner, name);
      assert forall u :: 0 <= u < |init| ==> init[u] == reg[u];
    }
  }

  function OrElse<T>(a: Option<T>, b: Option<T>): Option<T> { if a.Some? then a else b }

  lemma FourRanks(reg: Registry, owner: string, name: string)
    requires '.' !in name
    ensures ParamAnswer(None, Spelled(owner, name)) == None
    ensures ParamAnswer(Some(reg), Spelled(owner, name)) ==
            OrElse(FirstRecord(UnitRecords(reg), owner, name),
              OrElse(FirstRecord(NominalRecords(Flat(reg, Types()), true), owner, name),
                OrElse(FirstRecord(NominalRecords(Flat(reg, Fielded()), false), owner, name),
                  FirstRecord(NominalRecords(Flat(reg, Enums()), false), owner, name))))
  {
    SplitsBack(owner, name);
    FamiliesAre(reg);
    var a, b := UnitRecords(reg), NominalRecords(AllTypes(reg), true);
    var c, d := NominalRecords(AllFielded(reg), false), NominalRecords(AllEnums(reg), false);
    FirstOfJoined(a + b + c, d, owner, name);
    FirstOfJoined(a + b, c, owner, name);
    FirstOfJoined(a, b, owner, name);
  }

  /** **Which callable a target finds.** With a registry: that of the first unit with a module or trait that has
      it; else of the first native type, its context methods last; else of the first fielded type; else of the
      first enum; and nothing when none has it, or before there is a registry. */
  lemma CallableFound(reg: Registry, owner: string, name: string)
    requires '.' !in name
    ensures ParamAnswer(None, Spelled(owner, name)) == None
    ensures var answer := ParamAnswer(Some(reg), Spelled(owner, name));
            if AnyUnitHit(reg, owner, name) then answer.Some? && UnitsAnswer(reg, owner, name, answer.value)
            else if Declared(reg, Types(), Has(name, true), owner) then
              answer.Some? && FamilyAnswer(reg, Types(), true, owner, name, answer.value)
            else if Declared(reg, Fielded(), Has(name, false), owner) then
              answer.Some? && FamilyAnswer(reg, Fielded(), false, owner, name, answer.value)
            else if Declared(reg, Enums(), Has(name, false), owner) then
              answer.Some? && FamilyAnswer(reg, Enums(), false, owner, name, answer.value)
            else answer.None?
  {
    FourRanks(reg, owner, name);
    UnitFound(reg, owner, name);
    TypeMethodFound(reg, Types(), true, owner, name);
    TypeMethodFound(reg, Fielded(), false, owner, name);
    TypeMethodFound(reg, Enums(), false, owner, name);
  }
}
