/** The reflection descriptor of a type. */
module TypeReprs {
  import opened Wrappers

  datatype TypeRepr =
    | Int | Float | F32 | F64 | IntN(signed: bool, bits: nat) | Bool | Str | Bytes | Unit | Dyn | Never
    | DynTrait(traitName: string)
    | ListOf(elem: TypeRepr) | SetOf(elem: TypeRepr) | OptionOf(elem: TypeRepr)
    | MapOf(key: TypeRepr, value: TypeRepr) | ResultOf(ok: TypeRepr, err: TypeRepr)
    | Enum(name: string, args: seq<TypeRepr>) | Struct(name: string, args: seq<TypeRepr>)
    | Class(name: string, args: seq<TypeRepr>) | Named(name: string, args: seq<TypeRepr>)
    | Fn(params: seq<TypeRepr>, ret: TypeRepr)
    | Union(members: seq<TypeRepr>)

  /** The name of a declared type, whatever its kind. */
  function NominalName(t: TypeRepr): Option<string> {
    if t.Enum? || t.Struct? || t.Class? || t.Named? then Some(t.name) else None
  }

  /** The type arguments narrowing compares. */
  function TypeArgs(t: TypeRepr): (args: seq<TypeRepr>)
    ensures forall i :: 0 <= i < |args| ==> args[i] < t
  {
    match t
    case ListOf(e) => [e]
    case SetOf(e) => [e]
    case OptionOf(e) => [e]
    case MapOf(k, v) => [k, v]
    case ResultOf(o, e) => [o, e]
    case Enum(_, args) => args
    case Struct(_, args) => args
    case Class(_, args) => args
    case Named(_, args) => args
    case _ => []
  }

  /** The immediate parts of a descriptor. */
  function Parts(t: TypeRepr): (ps: seq<TypeRepr>)
    ensures forall i :: 0 <= i < |ps| ==> ps[i] < t
  {
    match t
    case Fn(params, ret) => params + [ret]
    case Union(members) => members
    case _ => TypeArgs(t)
  }

  /** What a descriptor is once its parts are set aside. */
  datatype Head =
    | Leaf(leaf: TypeRepr)
    | ListHead | SetHead | OptionHead | MapHead | ResultHead
    | NominalHead(kind: nat, name: string, arity: nat)
    | FnHead(arity: nat) | UnionHead(arity: nat)

  function HeadOf(t: TypeRepr): Head {
    match t
    case ListOf(_) => ListHead
    case SetOf(_) => SetHead
    case OptionOf(_) => OptionHead
    case MapOf(_, _) => MapHead
    case ResultOf(_, _) => ResultHead
    case Enum(n, args) => NominalHead(0, n, |args|)
    case Struct(n, args) => NominalHead(1, n, |args|)
    case Class(n, args) => NominalHead(2, n, |args|)
    case Named(n, args) => NominalHead(3, n, |args|)
    case Fn(params, _) => FnHead(|params|)
    case Union(members) => UnionHead(|members|)
    case _ => Leaf(t)
  }

  /** A head with the kind of a declared type forgotten. */
  function KindFree(h: Head): Head {
    if h.NominalHead? then h.(kind := 3) else h
  }

  lemma HeadFixesPartsIf(a: TypeRepr, b: TypeRepr)
    ensures KindFree(HeadOf(a)) == KindFree(HeadOf(b)) ==> |Parts(a)| == |Parts(b)|
  {
  }
}
