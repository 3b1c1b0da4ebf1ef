/** A live session's reflection tables, and how a hot-swapped fragment is absorbed into them. */
module Accumulation {
  import opened Wrappers
  import opened KeyedMerge
  import opened MergeTables
  import opened MergeConservation
  import opened MergeCold
  import opened MergeInPlace
  import opened MergeSets
  import opened MergeRun

  type Span = nat

  datatype TypeInfo = TypeInfo(name: string, fields: seq<string>)
  datatype AttributeRecord = AttributeRecord(target: string, targetSpan: Span, name: string, args: seq<string>)
  datatype RoleRecord = RoleRecord(target: string, targetSpan: Span, enumName: string, variant: string)
  datatype RoleTagRecord = RoleTagRecord(attribute: string, enumName: string, variant: string)
  datatype ParamRecord = ParamRecord(target: string, params: seq<string>)
  datatype TraitImplRecord = TraitImplRecord(typeName: string, traitName: string)

  /** The tables of one program fragment, or of a session at one moment. */
  datatype Tables = Tables(
    types: seq<TypeInfo>, manifest: seq<AttributeRecord>, params: seq<ParamRecord>,
    roleTags: seq<RoleTagRecord>, traitImpls: seq<TraitImplRecord>, roles: seq<RoleRecord>)

  // ----- Targets -----

  /** Split at the first `c`. */
  function SplitOnce(s: string, c: char): (r: Option<(string, string)>)
    ensures r.None? <==> c !in s
    ensures r.Some? ==> s == r.value.0 + [c] + r.value.1 && c !in r.value.0
  {
    if s == "" then None
    else if s[0] == c then Some(("", s[1..]))
    else
      match SplitOnce(s[1..], c)
      case None => None
      case Some(parts) => Some(([s[0]] + parts.0, parts.1))
  }

  /** The callable and parameter a manifest target names, when it names a parameter. */
  function SplitParamTarget(target: string): Option<(string, string)> {
    SplitOnce(target, '#')
  }

  /** What stands before the first `.`, or the whole target. */
  function ParamBase(target: string): string {
    match SplitOnce(target, '.')
    case Some(parts) => parts.0
    case None => target
  }

  /** A parameter's row is grouped with its callable's own row. */
  function ManifestGroup(target: string): string {
    match SplitParamTarget(target)
    case Some(parts) => parts.0
    case None => target
  }

  // ----- What a fragment supersedes -----

  function Redeclared(f: Tables): set<string> {
    (set t | t in f.types :: t.name) + (set a | a in f.manifest :: a.target) + (set r | r in f.roles :: r.target)
  }

  function Callables(f: Tables): set<string> {
    set p | p in f.params :: p.target
  }

  function ParamBases(f: Tables): set<string> {
    set p | p in f.params :: ParamBase(p.target)
  }

  function TypePurged(f: Tables): TypeInfo -> bool {
    (t: TypeInfo) => t.name in Redeclared(f)
  }

  function ManifestPurged(f: Tables): AttributeRecord -> bool {
    (a: AttributeRecord) =>
      match SplitParamTarget(a.target)
      case Some(parts) => parts.0 in Callables(f) || ParamBase(parts.0) in Redeclared(f)
      case None => a.target in Redeclared(f)
  }

  function ParamsPurged(f: Tables): ParamRecord -> bool {
    (p: ParamRecord) => ParamBase(p.target) in Redeclared(f) || ParamBase(p.target) in ParamBases(f)
  }

  function TagPurged(f: Tables): RoleTagRecord -> bool {
    (t: RoleTagRecord) => t.attribute in Redeclared(f)
  }

  function ImplPurged(f: Tables): TraitImplRecord -> bool {
    (r: TraitImplRecord) => r.typeName in Redeclared(f)
  }

  function TypeKey(): TypeInfo -> string { (t: TypeInfo) => t.name }
  function ManifestKey(): AttributeRecord -> string { (a: AttributeRecord) => ManifestGroup(a.target) }
  function ParamsKey(): ParamRecord -> string { (p: ParamRecord) => ParamBase(p.target) }
  function TagKey(): RoleTagRecord -> string { (t: RoleTagRecord) => t.attribute }
  function ImplKey(): TraitImplRecord -> string { (r: TraitImplRecord) => r.typeName }

  // ----- The role index -----

  /** The role records one manifest entry yields, tag by tag. */
  function EntryRoles(entry: AttributeRecord, tags: seq<RoleTagRecord>): seq<RoleRecord> {
    if tags == [] then []
    else
      var tag := tags[|tags| - 1];
      EntryRoles(entry, tags[..|tags| - 1]) +
      if tag.attribute == entry.name
      then [RoleRecord(entry.target, entry.targetSpan, tag.enumName, tag.variant)] else []
  }

  /** The join of manifest and tags, in manifest order, with repetitions. */
  function Join(manifest: seq<AttributeRecord>, tags: seq<RoleTagRecord>): seq<RoleRecord> {
    if manifest == [] then []
    else Join(manifest[..|manifest| - 1], tags) + EntryRoles(manifest[|manifest| - 1], tags)
  }

  function Itself(): RoleRecord -> RoleRecord { (r: RoleRecord) => r }

  /** The role index of a manifest and its tags: the join, each record where it first occurs. */
  function RolesOf(manifest: seq<AttributeRecord>, tags: seq<RoleTagRecord>): seq<RoleRecord> {
    Keys(Itself(), Join(manifest, tags))
  }

  /** Join one manifest entry with the tags, dropping what the index holds by then. */
  method AddRoles(
    entry: AttributeRecord, tags: seq<RoleTagRecord>, roles: seq<RoleRecord>,
    ghost before: seq<RoleRecord>) returns (more: seq<RoleRecord>)
    requires roles == Keys(Itself(), before)
    ensures more == Keys(Itself(), before + EntryRoles(entry, tags))
  {
    more := roles;
    assert before + [] == before;
    for j := 0 to |tags|
      invariant more == Keys(Itself(), before + EntryRoles(entry, tags[..j]))
    {
      RolesNext(entry, tags, j, before);
      if tags[j].attribute == entry.name {
        var record := RoleRecord(entry.target, entry.targetSpan, tags[j].enumName, tags[j].variant);
        if record !in more {
          more := more + [record];
        }
      }
    }
    assert tags[..|tags|] == tags;
  }

  /** One more tag: its record, if it has one and the index does not hold it yet. */
  lemma RolesNext(entry: AttributeRecord, tags: seq<RoleTagRecord>, j: nat, before: seq<RoleRecord>)
    requires j < |tags|
    ensures var sofar := Keys(Itself(), before + EntryRoles(entry, tags[..j]));
            var record := RoleRecord(entry.target, entry.targetSpan, tags[j].enumName, tags[j].variant);
            Keys(Itself(), before + EntryRoles(entry, tags[..j + 1])) ==
              if tags[j].attribute == entry.name && record !in sofar then sofar + [record] else sofar
  {
    var sofar := EntryRoles(entry, tags[..j]);
    var record := RoleRecord(entry.target, entry.targetSpan, tags[j].enumName, tags[j].variant);
    EntryRolesNext(entry, tags, j);
    IndexNext(before + sofar, record);
    assert (before + sofar) + [record] == before + (sofar + [record]);
  }

  lemma IndexNext(s: seq<RoleRecord>, record: RoleRecord)
    ensures Keys(Itself(), s + [record]) ==
            if record in Keys(Itself(), s) then Keys(Itself(), s) else Keys(Itself(), s) + [record]
  {
    KeysSnoc(Itself(), s, record);
  }

  lemma EntryRolesNext(entry: AttributeRecord, tags: seq<RoleTagRecord>, j: nat)
    requires j < |tags|
    ensures EntryRoles(entry, tags[..j + 1]) ==
            if tags[j].attribute == entry.name then
              EntryRoles(entry, tags[..j])
                + [RoleRecord(entry.target, entry.targetSpan, tags[j].enumName, tags[j].variant)]
            else EntryRoles(entry, tags[..j])
  {
    assert tags[..j + 1][..j] == tags[..j];
  }

  /** Join the manifest with the tags, dropping repetitions as they come. */
  method DeriveRoles(manifest: seq<AttributeRecord>, tags: seq<RoleTagRecord>) returns (roles: seq<RoleRecord>)
    ensures roles == RolesOf(manifest, tags)
  {
    roles := [];
    for i := 0 to |manifest|
      invariant roles == Keys(Itself(), Join(manifest[..i], tags))
    {
      assert manifest[..i + 1][..i] == manifest[..i];
      roles := AddRoles(manifest[i], tags, roles, Join(manifest[..i], tags));
    }
    assert manifest[..|manifest|] == manifest;
  }

  ghost predicate Confers(entry: AttributeRecord, tag: RoleTagRecord, r: RoleRecord) {
    tag.attribute == entry.name && r == RoleRecord(entry.target, entry.targetSpan, tag.enumName, tag.variant)
  }

  lemma {:induction false} EntryRolesMembers(entry: AttributeRecord, tags: seq<RoleTagRecord>, r: RoleRecord)
    ensures r in EntryRoles(entry, tags) <==> exists t :: t in tags && Confers(entry, t, r)
  {
    if tags != [] {
      var init, last := tags[..|tags| - 1], tags[|tags| - 1];
      EntryRolesMembers(entry, init, r);
      assert tags == init + [last];
      if last.attribute == entry.name && r == RoleRecord(entry.target, entry.targetSpan, last.enumName, last.variant) {
        assert last in tags && Confers(entry, last, r);
      }
      assert forall t :: t in tags && Confers(entry, t, r) ==> t in init || t == last;
    }
  }

  lemma {:induction false} JoinMembers(manifest: seq<AttributeRecord>, tags: seq<RoleTagRecord>, r: RoleRecord)
    ensures r in Join(manifest, tags) <==> exists e, t :: e in manifest && t in tags && Confers(e, t, r)
  {
    if manifest != [] {
      var init, last := manifest[..|manifest| - 1], manifest[|manifest| - 1];
      assert manifest == init + [last];
      JoinMembers(init, tags, r);
      EntryRolesMembers(last, tags, r);
      if t :| t in tags && Confers(last, t, r) { assert last in manifest; }
    }
  }

  /** The role index holds exactly the roles some manifest entry's attribute confers, none twice. */
  lemma RolesAreTheJoin(manifest: seq<AttributeRecord>, tags: seq<RoleTagRecord>)
    ensures Distinct(RolesOf(manifest, tags))
    ensures forall r :: r in RolesOf(manifest, tags) <==> exists e, t :: e in manifest && t in tags && Confers(e, t, r)
  {
    KeysDistinct(Itself(), Join(manifest, tags));
    forall r ensures r in RolesOf(manifest, tags) <==> exists e, t :: e in manifest && t in tags && Confers(e, t, r) {
      JoinMembers(manifest, tags, r);
      GroupKeys(Itself(), Join(manifest, tags), r);
      if r in Join(manifest, tags) { KeyOfMember(Itself(), Join(manifest, tags), r); }
      if r in RolesOf(manifest, tags) {
        KeyWitness(Itself(), Join(manifest, tags), r);
      }
    }
  }

  /** The index is in manifest order: lengthening the manifest only appends to it. */
  lemma {:induction false} RolesInManifestOrder(
    manifest: seq<AttributeRecord>, more: seq<AttributeRecord>, tags: seq<RoleTagRecord>)
    ensures RolesOf(manifest, tags) <= RolesOf(manifest + more, tags)
  {
    JoinAppend(manifest, more, tags);
    KeysAppend(Itself(), Join(manifest, tags), Join(more, tags));
  }

  /** Within an entry it is in the order of the tags: more tags only append to it. */
  lemma {:induction false} RolesInTagOrder(entry: AttributeRecord, tags: seq<RoleTagRecord>, more: seq<RoleTagRecord>)
    ensures RolesOf([entry], tags) <= RolesOf([entry], tags + more)
  {
    JoinOne(entry, tags);
    JoinOne(entry, tags + more);
    EntryRolesAppend(entry, tags, more);
    KeysAppend(Itself(), EntryRoles(entry, tags), EntryRoles(entry, more));
  }

  lemma JoinOne(entry: AttributeRecord, tags: seq<RoleTagRecord>)
    ensures Join([entry], tags) == EntryRoles(entry, tags)
  {
    var one := [entry];
    assert one[..0] == [] && Join(one[..0], tags) == [];
    assert [] + EntryRoles(entry, tags) == EntryRoles(entry, tags);
  }

  lemma {:induction false} EntryRolesAppend(
    entry: AttributeRecord, tags: seq<RoleTagRecord>, more: seq<RoleTagRecord>)
    ensures EntryRoles(entry, tags + more) == EntryRoles(entry, tags) + EntryRoles(entry, more)
  {
    if more == [] {
      assert tags + more == tags;
    } else {
      var last := |more| - 1;
      assert (tags + more)[..|tags + more| - 1] == tags + more[..last];
      EntryRolesAppend(entry, tags, more[..last]);
    }
  }

  lemma {:induction false} JoinAppend(
    manifest: seq<AttributeRecord>, more: seq<AttributeRecord>, tags: seq<RoleTagRecord>)
    ensures Join(manifest + more, tags) == Join(manifest, tags) + Join(more, tags)
  {
    if more == [] {
      assert manifest + more == manifest;
    } else {
      var init, last := more[..|more| - 1], more[|more| - 1];
      assert manifest + more == (manifest + init) + [last] && more == init + [last];
      JoinAppend(manifest, init, tags);
      JoinSnoc(manifest + init, last, tags);
      JoinSnoc(init, last, tags);
      var a, b, c := Join(manifest, tags), Join(init, tags), EntryRoles(last, tags);
      assert (a + b) + c == a + (b + c);
    }
  }

  lemma JoinSnoc(manifest: seq<AttributeRecord>, last: AttributeRecord, tags: seq<RoleTagRecord>)
    ensures Join(manifest + [last], tags) == Join(manifest, tags) + EntryRoles(last, tags)
  {
    assert (manifest + [last])[..|manifest|] == manifest;
  }

  // ----- Absorbing a fragment -----

  /** The session's tables after absorbing `f`. */
  function Accumulated(t: Tables, f: Tables): Tables {
    var manifest := Merged(ManifestPurged(f), ManifestKey(), t.manifest, f.manifest);
    var tags := MergedSet(TagPurged(f), TagKey(), t.roleTags, f.roleTags);
    Tables(
      Merged(TypePurged(f), TypeKey(), t.types, f.types),
      manifest,
      Merged(ParamsPurged(f), ParamsKey(), t.params, f.params),
      tags,
      MergedSet(ImplPurged(f), ImplKey(), t.traitImpls, f.traitImpls),
      RolesOf(manifest, tags))
  }

  class ReflectionInfo {
    var manifest: seq<AttributeRecord>
    var types: seq<TypeInfo>
    var roles: seq<RoleRecord>
    var roleTags: seq<RoleTagRecord>
    var params: seq<ParamRecord>
    var traitImpls: seq<TraitImplRecord>

    function Snapshot(): Tables reads this {
      Tables(types, manifest, params, roleTags, traitImpls, roles)
    }

    /** The role index carries nothing its two inputs do not. */
    ghost predicate RolesDerived() reads this {
      roles == RolesOf(manifest, roleTags)
    }

    constructor ()
      ensures Snapshot() == Tables([], [], [], [], [], []) && RolesDerived()
    {
      manifest, types, roles, roleTags, params, traitImpls := [], [], [], [], [], [];
    }

    method Accumulate(fragment: Tables)
      modifies this
      ensures Snapshot() == Accumulated(old(Snapshot()), fragment)
      ensures RolesDerived()
    {
      types := Supersede(types, fragment.types, TypePurged(fragment), TypeKey());
      manifest := Supersede(manifest, fragment.manifest, ManifestPurged(fragment), ManifestKey());
      params := Supersede(params, fragment.params, ParamsPurged(fragment), ParamsKey());
      roleTags := SupersedeSet(roleTags, fragment.roleTags, TagPurged(fragment), TagKey());
      traitImpls := SupersedeSet(traitImpls, fragment.traitImpls, ImplPurged(fragment), ImplKey());
      roles := DeriveRoles(manifest, roleTags);
    }
  }

  /** A session: fragments absorbed one after another, starting from nothing. */
  function Session(fragments: seq<Tables>): Tables {
    if fragments == [] then Tables([], [], [], [], [], [])
    else Accumulated(Session(fragments[..|fragments| - 1]), fragments[|fragments| - 1])
  }

  /** Over any run the role index is exactly the duplicate-free join of manifest and tags. */
  lemma {:induction false} SessionRoles(fragments: seq<Tables>)
    ensures var s := Session(fragments);
            && s.roles == RolesOf(s.manifest, s.roleTags)
            && Distinct(s.roles)
            && forall r :: r in s.roles <==> exists e, t :: e in s.manifest && t in s.roleTags && Confers(e, t, r)
  {
    var s := Session(fragments);
    RolesAreTheJoin(s.manifest, s.roleTags);
  }

  /** A re-annotated declaration keeps its role although the tag rides on an attribute the fragment
      does not redeclare. */
  lemma ReannotatedKeepsRole(t: Tables, f: Tables, entry: AttributeRecord, tag: RoleTagRecord)
    requires tag in t.roleTags && tag.attribute !in Redeclared(f)
    requires entry in f.manifest && entry.name == tag.attribute
    ensures RoleRecord(entry.target, entry.targetSpan, tag.enumName, tag.variant) in Accumulated(t, f).roles
  {
    var a := Accumulated(t, f);
    var r := RoleRecord(entry.target, entry.targetSpan, tag.enumName, tag.variant);
    MergedRecords(ManifestPurged(f), ManifestKey(), t.manifest, f.manifest);
    MergedSetRecords(TagPurged(f), TagKey(), t.roleTags, f.roleTags);
    RolesAreTheJoin(a.manifest, a.roleTags);
    assert Confers(entry, tag, r);
  }

  /** Re-declaring a tagged attribute without its tag drops the role it conferred. */
  lemma RedeclaredAttributeDropsTag(t: Tables, f: Tables, tag: RoleTagRecord)
    requires tag.attribute in Redeclared(f) && tag !in f.roleTags
    ensures tag !in Accumulated(t, f).roleTags
  {
    MergedSetRecords(TagPurged(f), TagKey(), t.roleTags, f.roleTags);
  }

  /** No parameter row of a redeclared callable survives unless the fragment re-supplies it. */
  lemma ParamRowsLiveWithTheirCallable(t: Tables, f: Tables, row: AttributeRecord)
    requires SplitParamTarget(row.target).Some? && SplitParamTarget(row.target).value.0 in Callables(f)
    ensures row in Accumulated(t, f).manifest <==> row in f.manifest
  {
    MergedRecords(ManifestPurged(f), ManifestKey(), t.manifest, f.manifest);
  }

  /** Which manifest rows a session holds: the fragment's, and the old ones it does not supersede. */
  lemma ManifestRows(t: Tables, f: Tables, row: AttributeRecord)
    ensures row in Accumulated(t, f).manifest <==>
            || row in f.manifest
            || (row in t.manifest &&
                match SplitParamTarget(row.target)
                case None => row.target !in Redeclared(f)
                case Some(parts) => parts.0 !in Callables(f) && ParamBase(parts.0) !in Redeclared(f))
  {
    MergedRecords(ManifestPurged(f), ManifestKey(), t.manifest, f.manifest);
  }

  /** A whole-program compile is an accumulation onto nothing, and it is verbatim where the tables
      that are kept as sets hold no record twice. */
  lemma ColdStart(f: Tables)
    requires Distinct(f.roleTags) && Distinct(f.traitImpls)
    ensures Accumulated(Tables([], [], [], [], [], []), f) == f.(roles := RolesOf(f.manifest, f.roleTags))
  {
    OntoEmpty(TypePurged(f), TypeKey(), f.types);
    OntoEmpty(ManifestPurged(f), ManifestKey(), f.manifest);
    OntoEmpty(ParamsPurged(f), ParamsKey(), f.params);
    SetOntoEmpty(TagPurged(f), TagKey(), f.roleTags);
    SetOntoEmpty(ImplPurged(f), ImplKey(), f.traitImpls);
  }

  lemma SetOntoEmpty<T(!new), K(!new)>(purged: T -> bool, key: T -> K, fragment: seq<T>)
    requires Distinct(fragment)
    ensures MergedSet(purged, key, [], fragment) == fragment
  {
    NoSlots(Keys(key, fragment));
    OnlyAll(key, fragment, fragment);
    AppendDistinct((table: seq<T>, r: T) => r in table, fragment);
  }

  lemma {:induction false} AppendDistinct<T(!new)>(held: (seq<T>, T) -> bool, rest: seq<T>)
    requires Distinct(rest) && forall t, r :: held(t, r) <==> r in t
    ensures AppendUnless(held, [], rest) == rest
  {
    if rest != [] {
      AppendDistinct(held, rest[..|rest| - 1]);
      assert rest == rest[..|rest| - 1] + [rest[|rest| - 1]];
    }
  }

  // ----- Where the session and the cold compile part ways -----

  /** The type a callable belongs to: everything before its last `.`, or the callable itself. */
  function Owner(target: string): string {
    if '.' !in target then target
    else if target[|target| - 1] == '.' then target[..|target| - 1]
    else Owner(target[..|target| - 1])
  }

  /** The fragment redeclares the callable `target`, or the type it belongs to. */
  ghost predicate Redeclares(f: Tables, target: string) {
    target in Callables(f) || target in Redeclared(f) || Owner(target) in Redeclared(f)
  }

  /** Which signatures a fragment leaves in place: those under whose first segment it declares nothing. */
  lemma UntouchedSignature(t: Tables, f: Tables, p: ParamRecord)
    requires p in t.params && p !in f.params
    ensures p in Accumulated(t, f).params <==>
            ParamBase(p.target) !in Redeclared(f) && forall q :: q in f.params ==>
              ParamBase(q.target) != ParamBase(p.target)
  {
    MergedRecords(ParamsPurged(f), ParamsKey(), t.params, f.params);
    assert forall q :: q in f.params ==> ParamBase(q.target) in ParamBases(f);
  }

  /** Where no type name on either side has a dot of its own, a signature that is not redeclared, nor its
      type, stays exactly when the fragment supplies no other callable of that type. */
  lemma UntouchedSignatureUndotted(t: Tables, f: Tables, p: ParamRecord)
    requires p in t.params && !Redeclares(f, p.target)
    requires '.' !in Owner(p.target) && forall q :: q in f.params ==> '.' !in Owner(q.target)
    ensures p in Accumulated(t, f).params <==> forall q :: q in f.params ==> Owner(q.target) != Owner(p.target)
  {
    assert forall q :: q in f.params ==> q.target in Callables(f);
    UntouchedSignature(t, f, p);
    OwnerIsBase(p.target);
    forall q | q in f.params ensures ParamBase(q.target) == Owner(q.target) {
      OwnerIsBase(q.target);
    }
  }

  /** A sibling takes it along: `class A { fn m() }`, then `impl Foo for A { fn k() }` on its own, and the
      signature of `A.m` is gone. */
  lemma SiblingSignatureLost(t: Tables, f: Tables, a: string, m: string, k: string, params: seq<string>)
    requires '.' !in a && '.' !in m && '.' !in k && m != k
    requires t.params == [ParamRecord(a + "." + m, params)] && f.params == [ParamRecord(a + "." + k, [])]
    requires f.types == [] && f.manifest == [] && f.roles == []
    ensures !Redeclares(f, t.params[0].target) && t.params[0] !in Accumulated(t, f).params
  {
    var p, q := t.params[0], f.params[0];
    OwnerQualified(a, m);
    OwnerQualified(a, k);
    assert (a + "." + m)[|a| + 1..] == m && (a + "." + k)[|a| + 1..] == k;
    assert Redeclared(f) == {} && Callables(f) == {q.target};
    assert q in f.params && p !in f.params;
    UntouchedSignatureUndotted(t, f, p);
  }

  /** And the other way round: a type redeclared takes with it what a standalone impl had added to it, the
      signatures and the implementation, unless the fragment supplies that impl again. */
  lemma StandaloneImplLost(t: Tables, f: Tables, p: ParamRecord, r: TraitImplRecord)
    requires '.' !in Owner(p.target) && Owner(p.target) == r.typeName
    requires exists i :: 0 <= i < |f.types| && f.types[i].name == r.typeName
    ensures p in Accumulated(t, f).params <==> p in f.params
    ensures r in Accumulated(t, f).traitImpls <==> r in f.traitImpls
  {
    var i :| 0 <= i < |f.types| && f.types[i].name == r.typeName;
    assert f.types[i] in f.types && r.typeName in Redeclared(f);
    OwnerIsBase(p.target);
    MergedRecords(ParamsPurged(f), ParamsKey(), t.params, f.params);
    MergedSetRecords(ImplPurged(f), ImplKey(), t.traitImpls, f.traitImpls);
  }

  lemma {:induction false} OwnerIsBase(target: string)
    requires '.' !in Owner(target)
    ensures ParamBase(target) == Owner(target)
  {
    if '.' in target {
      OwnerPrefix(target);
      SplitUnique(target, Owner(target));
    }
  }

  lemma {:induction false} OwnerPrefix(target: string)
    requires '.' in target
    ensures |Owner(target)| < |target| && target[..|Owner(target)|] == Owner(target) && target[|Owner(target)|] == '.'
  {
    if target[|target| - 1] != '.' {
      assert '.' in target[..|target| - 1];
      OwnerPrefix(target[..|target| - 1]);
    }
  }

  lemma {:induction false} SplitUnique(target: string, front: string)
    requires |front| < |target| && target[..|front|] == front && target[|front|] == '.' && '.' !in front
    ensures SplitOnce(target, '.').Some? && SplitOnce(target, '.').value.0 == front
  {
    if front != "" {
      assert target[0] == front[0] && front[0] in front;
      assert target[1..][..|front| - 1] == front[1..];
      SplitUnique(target[1..], front[1..]);
      assert front == [front[0]] + front[1..];
    }
  }

  /** With namespaced types it fails: redefining `a.T.m` takes the signature of `a.U.n` with it. */
  lemma NamespacedSignatureLost(t: Tables, f: Tables, a: string, ty: string, m: string, other: string, n: string)
    requires '.' !in a && '.' !in m && '.' !in n && ty != other
    requires f.types == [] && f.manifest == [] && f.roles == []
      && f.params == [ParamRecord(a + "." + (ty + "." + m), [])]
    requires t.params == [ParamRecord(a + "." + (other + "." + n), [])]
    ensures !Redeclares(f, t.params[0].target) && t.params[0] !in Accumulated(t, f).params
  {
    var p, q := t.params[0], f.params[0];
    QualifiedTarget(a, other, n);
    QualifiedTarget(a, ty, m);
    assert (a + "." + other)[|a| + 1..] == other && (a + "." + ty)[|a| + 1..] == ty;
    SignatureLost(t, f, p, q);
  }

  lemma SignatureLost(t: Tables, f: Tables, p: ParamRecord, q: ParamRecord)
    requires f.types == [] && f.manifest == [] && f.roles == [] && f.params == [q] && t.params == [p]
    requires ParamBase(p.target) == ParamBase(q.target) && Owner(p.target) != Owner(q.target)
    ensures !Redeclares(f, p.target) && p !in Accumulated(t, f).params
  {
    assert q in f.params && Redeclared(f) == {};
    UntouchedSignature(t, f, p);
  }

  lemma QualifiedTarget(a: string, ty: string, m: string)
    requires '.' !in a && '.' !in m
    ensures ParamBase(a + "." + (ty + "." + m)) == a && Owner(a + "." + (ty + "." + m)) == a + "." + ty
  {
    Regroup(a, ".", ty, m);
    OwnerQualified(a + "." + ty, m);
    Front(a, ".", ty + "." + m);
    SplitUnique(a + "." + (ty + "." + m), a);
  }

  lemma Regroup(a: string, dot: string, ty: string, m: string)
    ensures a + dot + (ty + dot + m) == a + dot + ty + dot + m
  {
  }

  lemma Front(a: string, dot: string, rest: string)
    requires |dot| == 1
    ensures (a + dot + rest)[..|a|] == a && (a + dot + rest)[|a|] == dot[0]
  {
  }

  lemma {:induction false} OwnerQualified(prefix: string, n: string)
    requires '.' !in n
    ensures Owner(prefix + "." + n) == prefix
  {
    var s := prefix + "." + n;
    assert s[|prefix|] == '.';
    if n == "" {
      assert s[..|s| - 1] == prefix;
    } else {
      assert s[|s| - 1] == n[|n| - 1] && n[|n| - 1] in n;
      assert s[..|s| - 1] == prefix + "." + n[..|n| - 1];
      OwnerQualified(prefix, n[..|n| - 1]);
    }
  }

  /** A member's attribute row outlives its type's redefinition unless the fragment annotates that
      very member again: redefining `ty` without the attribute it used to put on `ty.member` leaves the row. */
  lemma StaleMemberRow(t: Tables, f: Tables, row: AttributeRecord, ty: string, member: string)
    requires row in t.manifest && row.target == ty + "." + member && '#' !in row.target
    requires f.types == [TypeInfo(ty, [member])] && f.manifest == [] && f.roles == []
    ensures ty in Redeclared(f) && row in Accumulated(t, f).manifest
  {
    assert f.types[0] in f.types;
    assert Redeclared(f) == {ty};
    assert |row.target| > |ty|;
    RowsWithoutParameter(t, f, row);
  }

  lemma RowsWithoutParameter(t: Tables, f: Tables, row: AttributeRecord)
    requires row in t.manifest && '#' !in row.target && row.target !in Redeclared(f)
    ensures row in Accumulated(t, f).manifest
  {
    assert SplitParamTarget(row.target).None?;
    ManifestRows(t, f, row);
  }

  /** So does a plain function's own row: redeclaring the function without its attribute declares its
      parameters again, and that supersedes its parameter rows only. */
  lemma StaleCallableRow(t: Tables, f: Tables, row: AttributeRecord, params: seq<string>)
    requires row in t.manifest && '#' !in row.target
    requires f.params == [ParamRecord(row.target, params)] && f.types == [] && f.manifest == [] && f.roles == []
    ensures row.target in Callables(f) && row in Accumulated(t, f).manifest
  {
    assert f.params[0] in f.params && Redeclared(f) == {};
    RowsWithoutParameter(t, f, row);
  }

  /** A re-supplied trait implementation is duplicated when the fragment has it ahead of a redeclared type:
      `impl Foo for A`, for a type `A` declared earlier in the session, followed by a redeclaration of `B`
      with its own implementation. The slot it is placed through does not look at what the table holds. */
  lemma ResuppliedImplDuplicated(t: Tables, f: Tables, a: TraitImplRecord, b: TraitImplRecord)
    requires a.typeName != b.typeName && t.traitImpls == [a, b] == f.traitImpls
    requires f.types == [TypeInfo(b.typeName, [])] && f.manifest == [] && f.roles == []
    ensures Distinct(t.traitImpls) && Distinct(f.traitImpls) && !Distinct(Accumulated(t, f).traitImpls)
  {
    assert f.types[0] in f.types;
    assert ImplPurged(f)(b) && !ImplPurged(f)(a);
    TwoImplsDuplicated(ImplPurged(f), ImplKey(), a, b);
  }

  lemma TwoImplsDuplicated(
    purged: TraitImplRecord -> bool, key: TraitImplRecord -> string, a: TraitImplRecord, b: TraitImplRecord)
    requires key(a) == a.typeName && key(b) == b.typeName && a.typeName != b.typeName
    requires !purged(a) && purged(b)
    ensures Distinct([a, b]) && !Distinct(MergedSet(purged, key, [a, b], [a, b]))
  {
    TwoImplsPlan(purged, key, a, b);
    assert [a, b][0] == a;
    KeptAndPlaced(purged, key, [a, b], [a, b], a);
    MergedSetDistinct(purged, key, [a, b], [a, b]);
  }

  lemma KeptAndPlaced<T(!new), K(!new)>(purged: T -> bool, key: T -> K, base: seq<T>, fragment: seq<T>, a: T)
    requires a in base && a in fragment && !purged(a)
    requires var fkeys := Keys(key, fragment);
             Concat(PlanOf(fkeys, SlotKeys(purged, key, base, fkeys)).emitted) == fkeys
    ensures a in Kept(purged, base) && a in Placed(purged, key, base, fragment)
  {
    KeptRecords(purged, base);
    KeyOfMember(key, fragment, a);
    FlatGroupsKeys(key, fragment, Keys(key, fragment));
  }

  lemma TwoImplsPlan(
    purged: TraitImplRecord -> bool, key: TraitImplRecord -> string, a: TraitImplRecord, b: TraitImplRecord)
    requires key(a) == a.typeName && key(b) == b.typeName && a.typeName != b.typeName
    requires !purged(a) && purged(b)
    ensures var fkeys := Keys(key, [a, b]);
            && fkeys == [a.typeName, b.typeName]
            && Concat(PlanOf(fkeys, SlotKeys(purged, key, [a, b], fkeys)).emitted) == fkeys
  {
    var ka, kb := a.typeName, b.typeName;
    assert [a, b] == [a] + [b] && [a] == [] + [a];
    KeysSnoc(key, [], a);
    KeysSnoc(key, [a], b);
    assert Keys(key, [a, b]) == [ka, kb];
    assert [a, b][..1] == [a] && [a][..0] == [];
    assert SlotKeys(purged, key, [a], [ka, kb]) == [];
    assert SlotKeys(purged, key, [a, b], [ka, kb]) == [kb];
    assert [ka, kb][..1] == [ka] && [ka][..0] == [];
    assert PlanOf([ka], [kb]) == Plan([], [ka]);
    PlanShape([ka, kb], [kb]);
    assert PlanOf([ka, kb], [kb]).pending == [];
  }
}
