/** Surface type references, and the built-in names among them. */
module TypeRefs {
  import opened Wrappers

  /** Byte offsets in one source. */
  type Span = nat

  datatype TypeRef =
    | Named(name: string, args: seq<TypeRef>, span: Span)
    | DynTrait(traitName: string, span: Span)
    | Optional(inner: TypeRef, span: Span)
    | Union(members: seq<TypeRef>, span: Span)
    | Tuple(elements: seq<TypeRef>, span: Span)
    | Fn(params: seq<TypeRef>, ret: TypeRef, span: Span)
    | AssocProjection(assoc: string, span: Span)

  datatype Builtin =
    | BInt | BFloat | BF32 | BF64 | BIntN(signed: bool, bits: nat) | BBool | BStr | BBytes | BUnit | BDyn | BNever
    | BList | BSet | BMap | BOption | BResult | BKindEnum | BKindStruct | BKindClass | BNumber

  /** `i8`, `u64` and the rest of the fixed-width family. */
  function ParseIntWidth(name: string): Option<(bool, nat)> {
    if name == "" || (name[0] != 'i' && name[0] != 'u') then None
    else
      var signed, rest := name[0] == 'i', name[1..];
      if rest == "8" then Some((signed, 8))
      else if rest == "16" then Some((signed, 16))
      else if rest == "32" then Some((signed, 32))
      else if rest == "64" then Some((signed, 64))
      else None
  }

  function BuiltinNamed(name: string): Option<Builtin> {
    if name == "int" then Some(BInt)
    else if name == "float" then Some(BFloat)
    else if name == "f32" then Some(BF32)
    else if name == "f64" then Some(BF64)
    else if name == "bool" then Some(BBool)
    else if name == "string" then Some(BStr)
    else if name == "bytes" then Some(BBytes)
    else if name == "number" then Some(BNumber)
    else if name == "void" || name == "unit" then Some(BUnit)
    else if name == "dyn" || name == "Any" then Some(BDyn)
    else if name == "never" then Some(BNever)
    else if name == "List" || name == "list" then Some(BList)
    else if name == "Set" || name == "set" then Some(BSet)
    else if name == "Map" || name == "map" then Some(BMap)
    else if name == "Option" then Some(BOption)
    else if name == "Result" then Some(BResult)
    else if name == "Enum" then Some(BKindEnum)
    else if name == "Struct" then Some(BKindStruct)
    else if name == "Class" then Some(BKindClass)
    else
      match ParseIntWidth(name)
      case Some(width) => Some(BIntN(width.0, width.1))
      case None => None
  }

  /** How many type arguments a built-in takes. */
  function Arity(b: Builtin): nat {
    if b.BList? || b.BSet? || b.BOption? then 1 else if b.BMap? || b.BResult? then 2 else 0
  }

  /** The spellings of a built-in that is none of the fixed-width integers. */
  function Spellings(b: Builtin): set<string> {
    match b
    case BInt => {"int"}
    case BFloat => {"float"}
    case BF32 => {"f32"}
    case BF64 => {"f64"}
    case BIntN(_, _) => {}
    case BBool => {"bool"}
    case BStr => {"string"}
    case BBytes => {"bytes"}
    case BNumber => {"number"}
    case BUnit => {"void", "unit"}
    case BDyn => {"dyn", "Any"}
    case BNever => {"never"}
    case BList => {"List", "list"}
    case BSet => {"Set", "set"}
    case BMap => {"Map", "map"}
    case BOption => {"Option"}
    case BResult => {"Result"}
    case BKindEnum => {"Enum"}
    case BKindStruct => {"Struct"}
    case BKindClass => {"Class"}
  }

  predicate LegalWidth(bits: nat) { bits == 8 || bits == 16 || bits == 32 || bits == 64 }

  /** `i32`, `u8` and so on. */
  function WidthName(signed: bool, bits: nat): string
    requires LegalWidth(bits)
  {
    (if signed then "i" else "u") + if bits == 8 then "8" else if bits == 16 then "16" else if bits == 32 then "32"
      else "64"
  }

  ghost predicate IsSpelling(name: string, b: Builtin) {
    name in Spellings(b) || (b.BIntN? && LegalWidth(b.bits) && name == WidthName(b.signed, b.bits))
  }

  lemma WidthIs(name: string, signed: bool, bits: nat)
    ensures ParseIntWidth(name) == Some((signed, bits)) <==> LegalWidth(bits) && name == WidthName(signed, bits)
  {
    if ParseIntWidth(name) == Some((signed, bits)) {
      assert name == [name[0]] + name[1..];
    }
    if LegalWidth(bits) && name == WidthName(signed, bits) {
      WidthTail(signed, bits);
    }
  }

  lemma WidthTail(signed: bool, bits: nat)
    requires LegalWidth(bits)
    ensures WidthName(signed, bits)[0] == if signed then 'i' else 'u'
    ensures WidthName(signed, bits)[1..] ==
            if bits == 8 then "8" else if bits == 16 then "16" else if bits == 32 then "32" else "64"
  {
  }

  /** **Spelling and decoding are inverse**: a name decodes to a built-in exactly when it is one of its
      spellings; so no two share one. */
  lemma SpellingsDecode(name: string, b: Builtin)
    ensures BuiltinNamed(name) == Some(b) <==> IsSpelling(name, b)
  {
    if b.BIntN? {
      WidthIs(name, b.signed, b.bits);
      if IsSpelling(name, b) { WidthIsNoWord(b.signed, b.bits); }
    }
  }

  /** A fixed width is spelled like nothing else. */
  lemma WidthIsNoWord(signed: bool, bits: nat)
    requires LegalWidth(bits)
    ensures BuiltinNamed(WidthName(signed, bits)) == Some(BIntN(signed, bits))
  {
    WidthIs(WidthName(signed, bits), signed, bits);
    var w := WidthName(signed, bits);
    assert w[1] == '8' || w[1] == '1' || w[1] == '3' || w[1] == '6';
  }
}
