/** Which packed structs may key a map: the fixpoint over their named fields. */
module KeyCapability {
  import opened Wrappers
  import opened TypeRefs

  /** Each packed struct's fields: a plain type name, or nothing for a field that can never be a key. */
  type Packed = map<string, seq<Option<string>>>

  /** The integer family and `bool`; floats are not keys. */
  predicate Primitive(name: string) {
    match BuiltinNamed(name)
    case Some(b) => b.BInt? || b.BIntN? || b.BBool?
    case None => false
  }

  /** **Which field types are keys of themselves**: `int`, `bool` and the eight fixed widths, by those names. */
  lemma PrimitiveIs(name: string)
    ensures Primitive(name) <==>
            || name == "int" || name == "bool"
            || exists signed, bits :: LegalWidth(bits) && name == WidthName(signed, bits)
  {
    SpellingsDecode(name, BInt);
    SpellingsDecode(name, BBool);
    forall signed, bits ensures BuiltinNamed(name) == Some(BIntN(signed, bits)) <==>
      LegalWidth(bits) && name == WidthName(signed, bits)
    {
      SpellingsDecode(name, BIntN(signed, bits));
    }
    if Primitive(name) && BuiltinNamed(name).value.BIntN? {
      var b := BuiltinNamed(name).value;
      assert name == WidthName(b.signed, b.bits);
    }
  }

  predicate FieldsIn(fields: seq<Option<string>>, capable: set<string>) {
    forall i :: 0 <= i < |fields| ==> fields[i].Some? && (Primitive(fields[i].value) || fields[i].value in capable)
  }

  // ----- What being a key means -----

  /** A derivation of height at most `n`: every field is a primitive, or has a derivation of its own. */
  ghost predicate Derives(packed: Packed, name: string, n: nat)
    decreases n
  {
    && n > 0 && name in packed
    && forall i :: 0 <= i < |packed[name]| ==>
         packed[name][i].Some? && (Primitive(packed[name][i].value) || Derives(packed, packed[name][i].value, n - 1))
  }

  ghost predicate Capable(packed: Packed, name: string) {
    exists n: nat :: Derives(packed, name, n)
  }

  lemma {:induction false} DerivesHigher(packed: Packed, name: string, n: nat, m: nat)
    requires n <= m && Derives(packed, name, n)
    ensures Derives(packed, name, m)
    decreases n
  {
    forall i | 0 <= i < |packed[name]| && !Primitive(packed[name][i].value)
      ensures Derives(packed, packed[name][i].value, m - 1)
    {
      DerivesHigher(packed, packed[name][i].value, n - 1, m - 1);
    }
  }

  /** One height that serves every name of a set. */
  lemma {:induction false} CommonHeight(packed: Packed, names: set<string>) returns (n: nat)
    requires forall name :: name in names ==> Capable(packed, name)
    ensures forall name :: name in names ==> Derives(packed, name, n)
    decreases |names|
  {
    if names == {} {
      n := 0;
    } else {
      var x :| x in names;
      var m := CommonHeight(packed, names - {x});
      var k: nat :| Derives(packed, x, k);
      n := if k <= m then m else k;
      forall name | name in names ensures Derives(packed, name, n) {
        if name == x { DerivesHigher(packed, x, k, n); } else { DerivesHigher(packed, name, m, n); }
      }
    }
  }

  lemma FieldsCapable(packed: Packed, name: string, capable: set<string>)
    requires name in packed && FieldsIn(packed[name], capable) && forall c :: c in capable ==> Capable(packed, c)
    ensures Capable(packed, name)
  {
    var n := CommonHeight(packed, capable);
    assert Derives(packed, name, n + 1);
  }

  /** Nothing more can be added. */
  ghost predicate Closed(packed: Packed, capable: set<string>) {
    forall name :: name in packed && FieldsIn(packed[name], capable) ==> name in capable
  }

  lemma {:induction false} ClosedHolds(packed: Packed, capable: set<string>, name: string, n: nat)
    requires Closed(packed, capable) && Derives(packed, name, n)
    ensures name in capable
    decreases n
  {
    forall i | 0 <= i < |packed[name]| && !Primitive(packed[name][i].value) ensures packed[name][i].value in capable {
      ClosedHolds(packed, capable, packed[name][i].value, n - 1);
    }
  }

  // ----- The loop -----

  /** One sweep over the declarations, in whatever order they come. */
  method Sweep(packed: Packed, known: set<string>) returns (capable: set<string>, grew: bool)
    requires known <= packed.Keys && forall c :: c in known ==> Capable(packed, c)
    ensures known <= capable <= packed.Keys && (forall c :: c in capable ==> Capable(packed, c))
    ensures grew <==> capable != known
    ensures !grew ==> Closed(packed, capable)
  {
    capable, grew := known, false;
    var left := packed.Keys;
    while left != {}
      invariant left <= packed.Keys && known <= capable <= packed.Keys
      invariant forall c :: c in capable ==> Capable(packed, c)
      invariant grew <==> capable != known
      invariant !grew ==> forall name :: name in packed && name !in left && FieldsIn(packed[name], capable) ==>
        name in capable
      decreases |left|
    {
      var name :| name in left;
      left := left - {name};
      if name in capable { continue; }
      if FieldsIn(packed[name], capable) {
        FieldsCapable(packed, name, capable);
        capable, grew := capable + {name}, true;
      }
    }
  }

  /** **The loop computes the least fixpoint**, whatever order the declarations are visited in: a struct is
      a key exactly when a finite derivation from primitive fields says so. */
  method KeyCapablePacked(packed: Packed) returns (capable: set<string>)
    ensures forall name :: name in capable <==> Capable(packed, name)
  {
    capable := {};
    var grew := true;
    while grew
      invariant capable <= packed.Keys && forall c :: c in capable ==> Capable(packed, c)
      invariant !grew ==> Closed(packed, capable)
      decreases grew, |packed.Keys - capable|
    {
      ghost var before := capable;
      capable, grew := Sweep(packed, capable);
      if grew { Shrinks(packed.Keys, before, capable); }
    }
    forall name | Capable(packed, name) ensures name in capable {
      var n: nat :| Derives(packed, name, n);
      ClosedHolds(packed, capable, name, n);
    }
  }

  lemma Shrinks(all: set<string>, before: set<string>, after: set<string>)
    requires before <= after <= all && before != after
    ensures |all - after| < |all - before|
  {
    var x :| x in after && x !in before;
    assert all - after <= all - before - {x};
    SubsetSmaller(all - after, all - before - {x});
  }

  lemma {:induction false} SubsetSmaller(a: set<string>, b: set<string>)
    requires a <= b
    ensures |a| <= |b|
    decreases |a|
  {
    if a != {} {
      var x :| x in a;
      SubsetSmaller(a - {x}, b - {x});
    }
  }

  // ----- What can never be a key -----

  /** Each name has a field that rules it out: no plain type, or a type that is neither a primitive nor a
      packed struct outside the set. Cycles, and structs that reach a float, are such sets. */
  ghost predicate Stuck(packed: Packed, names: set<string>) {
    forall name :: name in names && name in packed ==> exists i :: HoldsBack(packed, names, name, i)
  }

  ghost predicate HoldsBack(packed: Packed, names: set<string>, name: string, i: int)
    requires name in packed
  {
    && 0 <= i < |packed[name]|
    && (packed[name][i].None? ||
        (!Primitive(packed[name][i].value) && (packed[name][i].value !in packed || packed[name][i].value in names)))
  }

  lemma {:induction false} StuckNeverDerives(packed: Packed, names: set<string>, name: string, n: nat)
    requires Stuck(packed, names) && name in names
    ensures !Derives(packed, name, n)
    decreases n
  {
    if Derives(packed, name, n) {
      var i :| HoldsBack(packed, names, name, i);
      var ty := packed[name][i].value;
      assert Derives(packed, ty, n - 1);
      StuckNeverDerives(packed, names, ty, n - 1);
    }
  }

  /** A struct is no key exactly when it is in a stuck set. */
  lemma NotCapableIs(packed: Packed, name: string)
    requires name in packed
    ensures !Capable(packed, name) <==> exists names: set<string> :: Stuck(packed, names) && name in names
  {
    if !Capable(packed, name) {
      var names := set c | c in packed && !Capable(packed, c);
      forall c | c in names && c in packed ensures exists i :: HoldsBack(packed, names, c, i) {
        if forall i :: 0 <= i < |packed[c]| ==> !HoldsBack(packed, names, c, i) {
          var good := packed.Keys - names;
          forall i | 0 <= i < |packed[c]|
            ensures packed[c][i].Some? && (Primitive(packed[c][i].value) || packed[c][i].value in good)
          {
            assert !HoldsBack(packed, names, c, i);
          }
          FieldsCapable(packed, c, good);
        }
      }
      assert Stuck(packed, names) && name in names;
    }
    if names: set<string> :| Stuck(packed, names) && name in names {
      forall n: nat ensures !Derives(packed, name, n) { StuckNeverDerives(packed, names, name, n); }
    }
  }

  /** `name` has a field of type `ty`. */
  ghost predicate HasField(packed: Packed, name: string, ty: string) {
    name in packed && exists i :: 0 <= i < |packed[name]| && packed[name][i] == Some(ty)
  }

  /** Each name has a field of the next one's type. */
  ghost predicate FieldPath(packed: Packed, path: seq<string>) {
    forall i :: 0 <= i < |path| - 1 ==> HasField(packed, path[i], path[i + 1])
  }

  function Members(path: seq<string>): set<string> {
    set i | 0 <= i < |path| :: path[i]
  }

  lemma FieldHoldsBack(packed: Packed, names: set<string>, name: string, ty: string)
    requires HasField(packed, name, ty) && ty in names && !Primitive(ty)
    ensures exists i :: HoldsBack(packed, names, name, i)
  {
    var i :| 0 <= i < |packed[name]| && packed[name][i] == Some(ty);
    assert HoldsBack(packed, names, name, i);
  }

  /** **No struct on a cycle is a key**, however long the cycle. */
  lemma CyclicIsNoKey(packed: Packed, path: seq<string>, k: nat)
    requires path != [] && FieldPath(packed, path) && HasField(packed, path[|path| - 1], path[0])
    requires (forall i :: 0 <= i < |path| ==> !Primitive(path[i])) && k < |path|
    ensures !Capable(packed, path[k])
  {
    var names := Members(path);
    forall name | name in names && name in packed ensures exists i :: HoldsBack(packed, names, name, i) {
      var i :| 0 <= i < |path| && path[i] == name;
      var next := if i < |path| - 1 then i + 1 else 0;
      assert path[next] in names;
      FieldHoldsBack(packed, names, name, path[next]);
    }
    assert HasField(packed, path[k], path[if k < |path| - 1 then k + 1 else 0]);
    assert Stuck(packed, names) && path[k] in names;
    NotCapableIs(packed, path[k]);
  }

  predicate Float(name: string) { name == "float" || name == "f32" || name == "f64" }

  lemma FloatsAreNoKeys(name: string)
    requires Float(name)
    ensures !Primitive(name)
  {
    assert BuiltinNamed("float") == Some(BFloat) && BuiltinNamed("f32") == Some(BF32)
      && BuiltinNamed("f64") == Some(BF64);
  }

  /** **No struct that reaches a float is a key**, nor one that reaches any other field that cannot be one:
      an unnamed type, or a type that is neither a primitive nor a packed struct. */
  lemma ReachingIsNoKey(packed: Packed, path: seq<string>, bad: Option<string>)
    requires path != [] && FieldPath(packed, path) && path[|path| - 1] in packed && path[0] in packed
    requires forall i :: 0 < i < |path| ==> !Primitive(path[i])
    requires bad in packed[path[|path| - 1]]
    requires bad.None? || (bad.value !in packed && (Float(bad.value) || !Primitive(bad.value)))
    ensures !Capable(packed, path[0])
  {
    if bad.Some? && Float(bad.value) { FloatsAreNoKeys(bad.value); }
    var names := Members(path);
    forall name | name in names && name in packed ensures exists i :: HoldsBack(packed, names, name, i) {
      var i :| 0 <= i < |path| && path[i] == name;
      if i < |path| - 1 {
        assert path[i + 1] in names;
        FieldHoldsBack(packed, names, name, path[i + 1]);
      } else {
        var j :| 0 <= j < |packed[name]| && packed[name][j] == bad;
        assert HoldsBack(packed, names, name, j);
      }
    }
    assert Stuck(packed, names) && path[0] in names;
    NotCapableIs(packed, path[0]);
  }

  // ----- Declaring more -----

  lemma {:induction false} DerivesWithMore(packed: Packed, added: Packed, name: string, n: nat)
    requires packed.Keys !! added.Keys && Derives(packed, name, n)
    ensures Derives(packed + added, name, n)
    decreases n
  {
    forall i | 0 <= i < |packed[name]| && !Primitive(packed[name][i].value)
      ensures Derives(packed + added, packed[name][i].value, n - 1)
    {
      DerivesWithMore(packed, added, packed[name][i].value, n - 1);
    }
  }

  /** **Fresh declarations take no key away**, and change nothing for a struct that was declared already
      unless it names one of them, at some depth. */
  lemma FreshDeclarationsKeep(packed: Packed, added: Packed, name: string)
    requires packed.Keys !! added.Keys
    ensures Capable(packed, name) ==> Capable(packed + added, name)
    ensures Capable(packed + added, name) && name in packed && SelfContained(packed, added) ==> Capable(packed, name)
  {
    if Capable(packed, name) {
      var n: nat :| Derives(packed, name, n);
      DerivesWithMore(packed, added, name, n);
    }
    if Capable(packed + added, name) && name in packed && SelfContained(packed, added) {
      var n: nat :| Derives(packed + added, name, n);
      DerivesWithout(packed, added, name, n);
    }
  }

  /** No field of `packed` names a struct of `added`. */
  ghost predicate SelfContained(packed: Packed, added: Packed) {
    forall name, i :: name in packed && 0 <= i < |packed[name]| && packed[name][i].Some? ==>
      packed[name][i].value !in added
  }

  lemma {:induction false} DerivesWithout(packed: Packed, added: Packed, name: string, n: nat)
    requires packed.Keys !! added.Keys && SelfContained(packed, added) && name in packed
      && Derives(packed + added, name, n)
    ensures Derives(packed, name, n)
    decreases n
  {
    assert (packed + added)[name] == packed[name];
    forall i | 0 <= i < |packed[name]| && !Primitive(packed[name][i].value)
      ensures Derives(packed, packed[name][i].value, n - 1)
    {
      var ty := packed[name][i].value;
      assert ty in packed + added;
      DerivesWithout(packed, added, ty, n - 1);
    }
  }
}
