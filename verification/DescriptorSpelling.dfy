/** Writing a descriptor down and projecting it back. */
module DescriptorSpelling {
  import opened Wrappers
  import T = TypeRefs
  import R = TypeReprs
  import opened Narrowing

  /** The written form of a descriptor's head over its written parts. */
  function Written(g: TypeRepr, parts: seq<T.TypeRef>): T.TypeRef
    requires |parts| == |R.Parts(g)|
  {
    match g
    case Int => T.Named("int", [], 0)
    case Float => T.Named("float", [], 0)
    case F32 => T.Named("f32", [], 0)
    case F64 => T.Named("f64", [], 0)
    case IntN(signed, bits) => T.Named(if T.LegalWidth(bits) then T.WidthName(signed, bits) else "int", [], 0)
    case Bool => T.Named("bool", [], 0)
    case Str => T.Named("string", [], 0)
    case Bytes => T.Named("bytes", [], 0)
    case Unit => T.Named("unit", [], 0)
    case Dyn => T.Named("dyn", [], 0)
    case Never => T.Named("never", [], 0)
    case DynTrait(name) => T.DynTrait(name, 0)
    case ListOf(_) => T.Named("List", parts, 0)
    case SetOf(_) => T.Named("Set", parts, 0)
    case OptionOf(_) => T.Named("Option", parts, 0)
    case MapOf(_, _) => T.Named("Map", parts, 0)
    case ResultOf(_, _) => T.Named("Result", parts, 0)
    case Enum(n, _) => T.Named(n, parts, 0)
    case Struct(n, _) => T.Named(n, parts, 0)
    case Class(n, _) => T.Named(n, parts, 0)
    case Named(n, _) => T.Named(n, parts, 0)
    case Fn(_, _) => T.Fn(parts[..|parts| - 1], parts[|parts| - 1], 0)
    case Union(_) => T.Union(parts, 0)
  }

  function Spell(g: TypeRepr): T.TypeRef {
    Written(g, seq(|R.Parts(g)|, i requires 0 <= i < |R.Parts(g)| => Spell(R.Parts(g)[i])))
  }

  /** The kind a declared type is described with: what the registry says of its name, or none. */
  ghost predicate KindIs(g: TypeRepr, resolver: Resolver)
    requires R.NominalName(g).Some?
  {
    var known := resolver.Registry? && g.name in resolver.kinds;
    && (g.Named? <==> !known)
    && (g.Struct? <==> known && resolver.kinds[g.name].KStruct?)
    && (g.Class? <==> known && resolver.kinds[g.name].KClass?)
    && (g.Enum? <==> known && resolver.kinds[g.name].KEnum?)
  }

  lemma KindResolves(g: TypeRepr, resolver: Resolver)
    requires R.NominalName(g).Some?
    ensures Nominal(g.name, g.args, resolver) == g <==> KindIs(g, resolver)
  {
  }

  /** A descriptor some written type has: widths that exist, and declared types under names of their own, with
      the kind the resolver gives that name. */
  ghost predicate Writable(g: TypeRepr, resolver: Resolver) {
    && (g.IntN? ==> T.LegalWidth(g.bits))
    && (R.NominalName(g).Some? ==> T.BuiltinNamed(g.name).None? && KindIs(g, resolver))
    && forall i :: 0 <= i < |R.Parts(g)| ==> Writable(R.Parts(g)[i], resolver)
  }

  /** At the top a fixed width is not kept; the 32-bit float is a type of its own. */
  function AtTop(g: TypeRepr): TypeRepr {
    match g
    case IntN(_, _) => R.Int
    case F64 => R.Float
    case _ => g
  }

  /** **A written descriptor projects back to itself**, kinds included, and at the top to itself without the
      width. */
  lemma {:induction false} SpelledBack(g: TypeRepr, resolver: Resolver)
    requires Writable(g, resolver)
    ensures TypeRefRepr(Spell(g), resolver, false) == g
    ensures TypeRefRepr(Spell(g), resolver, true) == AtTop(g)
  {
    var parts := seq(|R.Parts(g)|, i requires 0 <= i < |R.Parts(g)| => Spell(R.Parts(g)[i]));
    forall i | 0 <= i < |R.Parts(g)| ensures TypeRefRepr(parts[i], resolver, false) == R.Parts(g)[i] {
      SpelledBack(R.Parts(g)[i], resolver);
    }
    assert Spell(g) == Written(g, parts);
    if g.Fn? {
      FnBack(g, parts, resolver);
    } else if g.Union? {
      UnionBack(g, parts, resolver);
    } else if ByName(g) {
      NamedBack(g, parts, resolver, true);
      NamedBack(g, parts, resolver, false);
    }
  }

  lemma FnBack(g: TypeRepr, parts: seq<T.TypeRef>, resolver: Resolver)
    requires g.Fn? && |parts| == |R.Parts(g)|
    requires forall i :: 0 <= i < |parts| ==> TypeRefRepr(parts[i], resolver, false) == R.Parts(g)[i]
    ensures forall top :: TypeRefRepr(Written(g, parts), resolver, top) == g
  {
    var n := |g.params|;
    assert R.Parts(g)[..n] == g.params && R.Parts(g)[n] == g.ret;
    assert Project(parts[..n], resolver) == g.params;
  }

  lemma UnionBack(g: TypeRepr, parts: seq<T.TypeRef>, resolver: Resolver)
    requires g.Union? && |parts| == |R.Parts(g)|
    requires forall i :: 0 <= i < |parts| ==> TypeRefRepr(parts[i], resolver, false) == R.Parts(g)[i]
    ensures forall top :: TypeRefRepr(Written(g, parts), resolver, top) == g
  {
    assert Project(parts, resolver) == g.members;
  }

  /** Some form of a name and arguments: neither a function, a union nor a trait object. */
  predicate ByName(g: TypeRepr) { !g.Fn? && !g.Union? && !g.DynTrait? }

  lemma NamedBack(g: TypeRepr, parts: seq<T.TypeRef>, resolver: Resolver, top: bool)
    requires ByName(g) && |parts| == |R.Parts(g)| && (g.IntN? ==> T.LegalWidth(g.bits))
    requires R.NominalName(g).Some? ==> T.BuiltinNamed(g.name).None? && KindIs(g, resolver)
    requires forall i :: 0 <= i < |parts| ==> TypeRefRepr(parts[i], resolver, false) == R.Parts(g)[i]
    ensures TypeRefRepr(Written(g, parts), resolver, top) == if top then AtTop(g) else g
  {
    assert Project(parts, resolver) == R.Parts(g);
    var name := HeadName(g);
    if R.NominalName(g).None? { T.SpellingsDecode(name, HeadBuiltin(g)); } else { KindResolves(g, resolver); }
    HeadBack(g, name, T.BuiltinNamed(name), resolver, top);
    AppliedRepr(name, parts, resolver, top);
    assert Written(g, parts) == T.Named(name, parts, 0);
  }

  lemma AppliedRepr(name: string, parts: seq<T.TypeRef>, resolver: Resolver, top: bool)
    ensures TypeRefRepr(T.Named(name, parts, 0), resolver, top) ==
              NamedRepr(T.BuiltinNamed(name), name, Project(parts, resolver), resolver, top)
  {
  }

  lemma HeadBack(g: TypeRepr, name: string, builtin: Option<T.Builtin>, resolver: Resolver, top: bool)
    requires ByName(g)
    requires if R.NominalName(g).None? then builtin == Some(HeadBuiltin(g))
             else builtin.None? && name == g.name && Nominal(g.name, g.args, resolver) == g
    ensures NamedRepr(builtin, name, R.Parts(g), resolver, top) == if top then AtTop(g) else g
  {
  }

  /** The name a descriptor's head is written with. */
  function HeadName(g: TypeRepr): (name: string)
    requires ByName(g) && (g.IntN? ==> T.LegalWidth(g.bits))
    ensures if R.NominalName(g).Some? then name == g.name else T.IsSpelling(name, HeadBuiltin(g))
  {
    Written(g, seq(|R.Parts(g)|, i => T.Named("", [], 0))).name
  }

  /** The built-in a descriptor's head is written with. */
  function HeadBuiltin(g: TypeRepr): T.Builtin {
    match g
    case Int => T.BInt
    case Float => T.BFloat
    case F32 => T.BF32
    case F64 => T.BF64
    case IntN(signed, bits) => T.BIntN(signed, bits)
    case Bool => T.BBool
    case Str => T.BStr
    case Bytes => T.BBytes
    case Unit => T.BUnit
    case Never => T.BNever
    case ListOf(_) => T.BList
    case SetOf(_) => T.BSet
    case OptionOf(_) => T.BOption
    case MapOf(_, _) => T.BMap
    case ResultOf(_, _) => T.BResult
    case _ => T.BDyn
  }

  /** `?T` stands for `Option<T>`. */
  lemma OptionalIsOption(name: string, inner: T.TypeRef, resolver: Resolver, top: bool, span: T.Span)
    requires T.IsSpelling(name, T.BOption)
    ensures TypeRefRepr(T.Optional(inner, span), resolver, top) ==
              TypeRefRepr(T.Named(name, [inner], span), resolver, top)
  {
    Spelled(name, T.BOption, [inner], resolver, top, span);
  }

  /** A collection written bare leaves its elements open. */
  lemma BareIsOpen(name: string, b: T.Builtin, resolver: Resolver, top: bool, span: T.Span)
    requires T.IsSpelling(name, b)
    ensures b.BList? ==> TypeRefRepr(T.Named(name, [], span), resolver, top) == R.ListOf(R.Dyn)
    ensures b.BSet? ==> TypeRefRepr(T.Named(name, [], span), resolver, top) == R.SetOf(R.Dyn)
    ensures b.BMap? ==> TypeRefRepr(T.Named(name, [], span), resolver, top) == R.MapOf(R.Dyn, R.Dyn)
  {
    Spelled(name, b, [], resolver, top, span);
  }

  /** The names of kinds, and `number`, have no descriptor of their own: they stay names. */
  lemma KindNamesStay(
    name: string, b: T.Builtin, args: seq<T.TypeRef>, resolver: Resolver, top: bool, span: T.Span)
    requires T.IsSpelling(name, b) && (b.BKindEnum? || b.BKindStruct? || b.BKindClass? || b.BNumber?)
    ensures R.NominalName(TypeRefRepr(T.Named(name, args, span), resolver, top)) == Some(name)
    ensures TypeRefRepr(T.Named(name, args, span), resolver, top).args == Project(args, resolver)
  {
    Spelled(name, b, args, resolver, top, span);
  }

  lemma Spelled(
    name: string, b: T.Builtin, parts: seq<T.TypeRef>, resolver: Resolver, top: bool, span: T.Span)
    requires T.IsSpelling(name, b)
    ensures TypeRefRepr(T.Named(name, parts, span), resolver, top) ==
              NamedRepr(Some(b), name, Project(parts, resolver), resolver, top)
  {
    T.SpellingsDecode(name, b);
  }
}
