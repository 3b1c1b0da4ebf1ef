/** The ledger of declarations that own a body: a walk, a sort by range, and one entry for each span. */
module BodyLedger {
  import opened Ordering

  datatype Span = Span(start: nat, end: nat, source: nat)

  /** `defaults` are the blocks inside the parameters' default expressions. */
  datatype FnDecl = FnDecl(name: string, nameSpan: Span, defaults: seq<Block>, body: seq<Stmt>)
  datatype TraitMethod = TraitMethod(sig: FnDecl, hasDefault: bool)
  datatype ImplBlock = ImplBlock(methods: seq<FnDecl>)
  datatype Block = NoBlock | Block(stmts: seq<Stmt>)

  /** `Loop` stands for the statements with one body, `Plain` for those with none. The `blocks` of a
      statement are the statement lists inside its expressions: block bodies of closures and of arms; the
      `fieldBlocks` of a type are those inside its fields' defaults and its variants' values. */
  datatype Stmt =
    | Fn(decl: FnDecl)
    | Class(name: string, nameSpan: Span, fieldBlocks: seq<Block>, methods: seq<FnDecl>, impls: seq<ImplBlock>,
      destructor: Block)
    | Struct(name: string, fieldBlocks: seq<Block>, methods: seq<FnDecl>, impls: seq<ImplBlock>)
    | Enum(name: string, fieldBlocks: seq<Block>, methods: seq<FnDecl>, impls: seq<ImplBlock>)
    | Impl(target: string, methods: seq<FnDecl>)
    | Trait(name: string, defaults: seq<TraitMethod>)
    | If(blocks: seq<Block>, thenBody: seq<Stmt>, elseBody: Block)
    | Loop(blocks: seq<Block>, body: seq<Stmt>)
    | TierBlock(items: seq<Stmt>)
    | Plain(blocks: seq<Block>)

  datatype BodyKind = Function | Method | StandaloneImplMethod | Destructor | TraitDefault
  datatype BodySite = BodySite(kind: BodyKind, owner: string, name: string, span: Span)

  // ----- The walk -----

  function MethodSites(kind: BodyKind, owner: string, ms: seq<FnDecl>): seq<BodySite>
    decreases ms
  {
    if ms == [] then []
    else [BodySite(kind, owner, ms[0].name, ms[0].nameSpan)] + Sites(ms[0].body) + MethodSites(kind, owner, ms[1..])
  }

  function ImplSites(owner: string, impls: seq<ImplBlock>): seq<BodySite>
    decreases impls
  {
    if impls == [] then [] else MethodSites(Method, owner, impls[0].methods) + ImplSites(owner, impls[1..])
  }

  /** A required method has no body; only a default does. */
  function DefaultSite(owner: string, m: TraitMethod): seq<BodySite>
    decreases m
  {
    if m.hasDefault then [BodySite(TraitDefault, owner, m.sig.name, m.sig.nameSpan)] + Sites(m.sig.body) else []
  }

  function DefaultSites(owner: string, ms: seq<TraitMethod>): seq<BodySite>
    decreases ms
  {
    if ms == [] then [] else DefaultSite(owner, ms[0]) + DefaultSites(owner, ms[1..])
  }

  function BlockSites(b: Block): seq<BodySite> {
    match b case NoBlock => [] case Block(stmts) => Sites(stmts)
  }

  function StmtSites(s: Stmt): seq<BodySite> {
    match s
    case Fn(d) => [BodySite(Function, "", d.name, d.nameSpan)] + Sites(d.body)
    case Class(name, span, _, methods, impls, destructor) =>
      MethodSites(Method, name, methods) + ImplSites(name, impls)
      + (match destructor { case NoBlock => [] case Block(stmts) => [BodySite(Destructor, name, "destruct", span)]
        + Sites(stmts) })
    case Struct(name, _, methods, impls) => MethodSites(Method, name, methods) + ImplSites(name, impls)
    case Enum(name, _, methods, impls) => MethodSites(Method, name, methods) + ImplSites(name, impls)
    case Impl(target, methods) => MethodSites(StandaloneImplMethod, target, methods)
    case Trait(name, defaults) => DefaultSites(name, defaults)
    case If(_, t, e) => Sites(t) + BlockSites(e)
    case Loop(_, body) => Sites(body)
    case TierBlock(_) => []
    case Plain(_) => []
  }

  /** The sites below a statement list, in walk order. */
  function Sites(ss: seq<Stmt>): seq<BodySite> {
    if ss == [] then [] else StmtSites(ss[0]) + Sites(ss[1..])
  }

  // ----- Sort and dedup -----

  type Range = (nat, nat)

  function RangeOf(): BodySite -> Range { (s: BodySite) => (s.span.start, s.span.end) }
  function NatOrder(): (nat, nat) -> bool { (a: nat, b: nat) => a <= b }
  function RangeOrder(): (Range, Range) -> bool { PairOrder(NatOrder(), NatOrder()) }

  /** Drop each site whose span is that of the last site kept. */
  function Dedup(ss: seq<BodySite>): (r: seq<BodySite>)
    ensures ss != [] ==> r != [] && r[|r| - 1].span == ss[|ss| - 1].span
  {
    if ss == [] then []
    else
      var before, last := Dedup(ss[..|ss| - 1]), ss[|ss| - 1];
      if before != [] && before[|before| - 1].span == last.span then before else before + [last]
  }

  function Ledger(ss: seq<Stmt>): seq<BodySite> {
    Dedup(SortBy(RangeOrder(), RangeOf(), Sites(ss)))
  }

  /** The walkers share one output vector. */
  class Walker {
    var out: seq<BodySite>

    constructor ()
      ensures out == []
    {
      out := [];
    }

    method WalkMethods(kind: BodyKind, owner: string, ms: seq<FnDecl>)
      modifies this
      ensures out == old(out) + MethodSites(kind, owner, ms)
      decreases ms, 0
    {
      var k := 0;
      while k < |ms|
        invariant k <= |ms| && out + MethodSites(kind, owner, ms[k..]) == old(out) + MethodSites(kind, owner, ms)
      {
        ghost var rest := MethodSites(kind, owner, ms[k + 1..]);
        assert ms[k..][1..] == ms[k + 1..];
        out := out + [BodySite(kind, owner, ms[k].name, ms[k].nameSpan)];
        WalkBody(ms[k].body);
        k := k + 1;
      }
    }

    method WalkImpls(owner: string, impls: seq<ImplBlock>)
      modifies this
      ensures out == old(out) + ImplSites(owner, impls)
      decreases impls, 0
    {
      var k := 0;
      while k < |impls|
        invariant k <= |impls| && out + ImplSites(owner, impls[k..]) == old(out) + ImplSites(owner, impls)
      {
        assert impls[k..][1..] == impls[k + 1..];
        WalkMethods(Method, owner, impls[k].methods);
        k := k + 1;
      }
    }

    method WalkTrait(owner: string, ms: seq<TraitMethod>)
      modifies this
      ensures out == old(out) + DefaultSites(owner, ms)
      decreases ms, 0
    {
      var k := 0;
      while k < |ms|
        invariant k <= |ms| && out + DefaultSites(owner, ms[k..]) == old(out) + DefaultSites(owner, ms)
      {
        assert ms[k..][1..] == ms[k + 1..];
        WalkDefault(owner, ms[k]);
        k := k + 1;
      }
    }

    method WalkDefault(owner: string, m: TraitMethod)
      modifies this
      ensures out == old(out) + DefaultSite(owner, m)
      decreases m, 0
    {
      if m.hasDefault {
        out := out + [BodySite(TraitDefault, owner, m.sig.name, m.sig.nameSpan)];
        WalkBody(m.sig.body);
      }
    }

    method WalkClass(c: Stmt)
      requires c.Class?
      modifies this
      ensures out == old(out) + StmtSites(c)
      decreases c, 0
    {
      WalkMethods(Method, c.name, c.methods);
      WalkImpls(c.name, c.impls);
      if c.destructor.Block? {
        out := out + [BodySite(Destructor, c.name, "destruct", c.nameSpan)];
        WalkBody(c.destructor.stmts);
      }
    }

    method WalkStruct(s: Stmt)
      requires s.Struct?
      modifies this
      ensures out == old(out) + StmtSites(s)
      decreases s, 0
    {
      WalkMethods(Method, s.name, s.methods);
      WalkImpls(s.name, s.impls);
    }

    method WalkEnum(e: Stmt)
      requires e.Enum?
      modifies this
      ensures out == old(out) + StmtSites(e)
      decreases e, 0
    {
      WalkMethods(Method, e.name, e.methods);
      WalkImpls(e.name, e.impls);
    }

    method WalkStmt(s: Stmt)
      modifies this
      ensures out == old(out) + StmtSites(s)
      decreases s, 1
    {
      match s {
        case Fn(d) =>
          out := out + [BodySite(Function, "", d.name, d.nameSpan)];
          WalkBody(d.body);
        case Class(_, _, _, _, _, _) => WalkClass(s);
        case Struct(_, _, _, _) => WalkStruct(s);
        case Enum(_, _, _, _) => WalkEnum(s);
        case Impl(target, methods) =>
          WalkMethods(StandaloneImplMethod, target, methods);
        case Trait(name, defaults) =>
          WalkTrait(name, defaults);
        case If(_, t, e) =>
          WalkBody(t);
          if e.Block? { WalkBody(e.stmts); }
        case Loop(_, body) =>
          WalkBody(body);
        case TierBlock(_) =>
        case Plain(_) =>
      }
    }

    method WalkBody(ss: seq<Stmt>)
      modifies this
      ensures out == old(out) + Sites(ss)
      decreases ss, 0
    {
      var k := 0;
      while k < |ss|
        invariant k <= |ss| && out + Sites(ss[k..]) == old(out) + Sites(ss)
      {
        assert ss[k..][1..] == ss[k + 1..];
        WalkStmt(ss[k]);
        k := k + 1;
      }
    }

    /** Sort the vector by range, stably, and keep one of each run of equal spans. */
    method Finish()
      modifies this
      ensures out == Dedup(SortBy(RangeOrder(), RangeOf(), old(out)))
    {
      var sorted := SortBy(RangeOrder(), RangeOf(), out);
      out := [];
      for k := 0 to |sorted|
        invariant out == Dedup(sorted[..k])
      {
        assert sorted[..k + 1][..k] == sorted[..k];
        if out == [] || out[|out| - 1].span != sorted[k].span {
          out := out + [sorted[k]];
        }
      }
      assert sorted[..|sorted|] == sorted;
    }
  }

  method BodySites(program: seq<Stmt>) returns (sites: seq<BodySite>)
    ensures sites == Ledger(program)
  {
    var walker := new Walker();
    walker.WalkBody(program);
    assert walker.out == Sites(program);
    walker.Finish();
    return walker.out;
  }
}
