/** Tables read off key by key. */
module MergeTables {
  import opened KeyedMerge

  // ----- Tables seen through their keys -----

  lemma {:induction false} GroupAppend<T(!new), K(!new)>(key: T -> K, s: seq<T>, t: seq<T>, k: K)
    ensures Group(key, s + t, k) == Group(key, s, k) + Group(key, t, k)
  {
    if t == [] {
      assert s + t == s;
    } else {
      assert (s + t)[..|s + t| - 1] == s + t[..|t| - 1];
      GroupAppend(key, s, t[..|t| - 1], k);
    }
  }

  lemma {:induction false} OnlyAppend<T(!new), K(!new)>(key: T -> K, s: seq<T>, t: seq<T>, ks: seq<K>)
    ensures Only(key, s + t, ks) == Only(key, s, ks) + Only(key, t, ks)
    ensures Without(key, s + t, ks) == Without(key, s, ks) + Without(key, t, ks)
  {
    if t == [] {
      assert s + t == s;
    } else {
      assert (s + t)[..|s + t| - 1] == s + t[..|t| - 1];
      OnlyAppend(key, s, t[..|t| - 1], ks);
    }
  }

  lemma {:induction false} FlatGroupsAppend<T(!new), K(!new)>(key: T -> K, s: seq<T>, ks: seq<K>, js: seq<K>)
    ensures FlatGroups(key, s, ks + js) == FlatGroups(key, s, ks) + FlatGroups(key, s, js)
  {
    if js == [] {
      assert ks + js == ks;
    } else {
      assert (ks + js)[..|ks + js| - 1] == ks + js[..|js| - 1];
      FlatGroupsAppend(key, s, ks, js[..|js| - 1]);
    }
  }

  /** A group holds records of its own key only, and none of a key the table lacks. */
  lemma {:induction false} GroupKeys<T(!new), K(!new)>(key: T -> K, s: seq<T>, k: K)
    ensures forall r :: r in Group(key, s, k) ==> key(r) == k && r in s
    ensures k in Keys(key, s) <==> Group(key, s, k) != []
  {
    if s != [] { GroupKeys(key, s[..|s| - 1], k); }
  }

  lemma {:induction false} OnlyKeys<T(!new), K(!new)>(key: T -> K, s: seq<T>, ks: seq<K>)
    ensures forall r :: r in Only(key, s, ks) <==> r in s && key(r) in ks
    ensures forall r :: r in Without(key, s, ks) <==> r in s && key(r) !in ks
  {
    if s != [] {
      OnlyKeys(key, s[..|s| - 1], ks);
      assert s == s[..|s| - 1] + [s[|s| - 1]];
    }
  }

  lemma {:induction false} FlatGroupsKeys<T(!new), K(!new)>(key: T -> K, s: seq<T>, ks: seq<K>)
    ensures forall r :: r in FlatGroups(key, s, ks) <==> r in s && key(r) in ks
  {
    if ks != [] {
      FlatGroupsKeys(key, s, ks[..|ks| - 1]);
      GroupKeys(key, s, ks[|ks| - 1]);
      assert ks == ks[..|ks| - 1] + [ks[|ks| - 1]];
      forall r | r in s && key(r) == ks[|ks| - 1] ensures r in Group(key, s, ks[|ks| - 1]) {
        GroupHolds(key, s, r);
      }
    }
  }

  lemma {:induction false} GroupHolds<T(!new), K(!new)>(key: T -> K, s: seq<T>, r: T)
    requires r in s
    ensures r in Group(key, s, key(r))
  {
    if r != s[|s| - 1] {
      assert r in s[..|s| - 1];
      GroupHolds(key, s[..|s| - 1], r);
    }
  }

  /** Filing a table's groups by distinct keys keeps each of those groups whole and drops the rest. */
  lemma {:induction false} GroupOfFlat<T(!new), K(!new)>(key: T -> K, s: seq<T>, ks: seq<K>, k: K)
    requires Distinct(ks)
    ensures Group(key, FlatGroups(key, s, ks), k) == if k in ks then Group(key, s, k) else []
  {
    if ks != [] {
      var init, last := ks[..|ks| - 1], ks[|ks| - 1];
      GroupOfFlat(key, s, init, k);
      GroupAppend(key, FlatGroups(key, s, init), Group(key, s, last), k);
      GroupKeys(key, s, last);
      GroupOfUniform(key, Group(key, s, last), last, k);
      assert ks == init + [last];
    }
  }

  lemma {:induction false} GroupOfUniform<T(!new), K(!new)>(key: T -> K, g: seq<T>, at: K, k: K)
    requires forall r :: r in g ==> key(r) == at
    ensures Group(key, g, k) == if k == at then g else []
  {
    if g != [] {
      assert g[|g| - 1] in g;
      GroupOfUniform(key, g[..|g| - 1], at, k);
      assert g == g[..|g| - 1] + [g[|g| - 1]];
    }
  }

  lemma {:induction false} GroupOfOnly<T(!new), K(!new)>(key: T -> K, s: seq<T>, ks: seq<K>, k: K)
    ensures Group(key, Only(key, s, ks), k) == if k in ks then Group(key, s, k) else []
  {
    if s != [] {
      var init, r := s[..|s| - 1], s[|s| - 1];
      GroupOfOnly(key, init, ks, k);
      GroupAppend(key, Only(key, init, ks), if key(r) in ks then [r] else [], k);
      GroupOfUniform(key, if key(r) in ks then [r] else [], key(r), k);
    }
  }

  /** `xs` without the keys in `ys`. */
  function Minus<K(==, !new)>(xs: seq<K>, ys: seq<K>): seq<K> {
    if xs == [] then []
    else Minus(xs[..|xs| - 1], ys) + if xs[|xs| - 1] in ys then [] else [xs[|xs| - 1]]
  }

  lemma {:induction false} MinusDisjoint<K(!new)>(xs: seq<K>, ys: seq<K>)
    requires forall x :: x in xs ==> x !in ys
    ensures Minus(xs, ys) == xs
  {
    if xs != [] {
      assert xs[|xs| - 1] in xs;
      MinusDisjoint(xs[..|xs| - 1], ys);
    }
  }

  lemma KeysSnoc<T(!new), K(!new)>(key: T -> K, s: seq<T>, x: T)
    ensures Keys(key, s + [x]) == if key(x) in Keys(key, s) then Keys(key, s) else Keys(key, s) + [key(x)]
  {
    assert (s + [x])[..|s + [x]| - 1] == s;
  }

  lemma MinusSnoc<K(!new)>(xs: seq<K>, x: K, ys: seq<K>)
    ensures Minus(xs + [x], ys) == Minus(xs, ys) + if x in ys then [] else [x]
  {
    assert (xs + [x])[..|xs + [x]| - 1] == xs;
  }

  lemma {:induction false} KeysAppend<T(!new), K(!new)>(key: T -> K, s: seq<T>, t: seq<T>)
    ensures Keys(key, s + t) == Keys(key, s) + Minus(Keys(key, t), Keys(key, s))
    decreases |t|
  {
    if |t| == 0 {
      assert s + t == s && Minus(Keys(key, t), Keys(key, s)) == [];
    } else {
      var init, x := t[..|t| - 1], t[|t| - 1];
      assert (s + init) + [x] == s + t && init + [x] == t;
      KeysAppend(key, s, init);
      KeysAppendStep(key, s, init, x);
    }
  }

  lemma KeysAppendStep<T(!new), K(!new)>(key: T -> K, s: seq<T>, init: seq<T>, x: T)
    requires Keys(key, s + init) == Keys(key, s) + Minus(Keys(key, init), Keys(key, s))
    ensures Keys(key, (s + init) + [x]) == Keys(key, s) + Minus(Keys(key, init + [x]), Keys(key, s))
  {
    var ks := Keys(key, init);
    KeysSnoc(key, s + init, x);
    KeysSnoc(key, init, x);
    MinusMembers(ks, Keys(key, s), key(x));
    MinusSnoc(ks, key(x), Keys(key, s));
  }

  lemma {:induction false} MinusMembers<K(!new)>(xs: seq<K>, ys: seq<K>, k: K)
    ensures k in Minus(xs, ys) <==> k in xs && k !in ys
  {
    if xs != [] {
      MinusMembers(xs[..|xs| - 1], ys, k);
      assert xs == xs[..|xs| - 1] + [xs[|xs| - 1]];
    }
  }

  lemma {:induction false} KeysOfUniform<T(!new), K(!new)>(key: T -> K, g: seq<T>, k: K)
    requires g != [] && forall r :: r in g ==> key(r) == k
    ensures Keys(key, g) == [k]
  {
    assert g[|g| - 1] in g;
    if |g| > 1 { KeysOfUniform(key, g[..|g| - 1], k); }
  }

  lemma {:induction false} KeysOfFlat<T(!new), K(!new)>(key: T -> K, s: seq<T>, ks: seq<K>)
    requires Distinct(ks)
    requires forall k :: k in ks ==> k in Keys(key, s)
    ensures Keys(key, FlatGroups(key, s, ks)) == ks
  {
    if ks != [] {
      var init, k := ks[..|ks| - 1], ks[|ks| - 1];
      assert k in ks;
      KeysOfFlat(key, s, init);
      KeysOfGroup(key, s, k);
      KeysAppend(key, FlatGroups(key, s, init), Group(key, s, k));
      assert k !in init;
      MinusDisjoint([k], init);
      assert ks == init + [k];
    }
  }

  lemma KeysOfGroup<T(!new), K(!new)>(key: T -> K, s: seq<T>, k: K)
    requires k in Keys(key, s)
    ensures Keys(key, Group(key, s, k)) == [k]
  {
    GroupKeys(key, s, k);
    KeysOfUniform(key, Group(key, s, k), k);
  }

  /** Dropping every record outside `ks` leaves the keys' order of first appearance alone. */
  lemma {:induction false} KeysOfOnly<T(!new), K(!new)>(key: T -> K, s: seq<T>, done: seq<K>, ks: seq<K>)
    requires forall r :: r in s ==> (key(r) in ks <==> key(r) !in done)
    ensures Keys(key, Only(key, s, ks)) == Minus(Keys(key, s), done)
  {
    if s != [] {
      var init, x := s[..|s| - 1], s[|s| - 1];
      var k := key(x);
      assert x in s;
      KeysOfOnly(key, init, done, ks);
      MinusMembers(Keys(key, init), done, k);
      KeysSnoc(key, Only(key, init, ks), x);
      MinusSnoc(Keys(key, init), k, done);
      if k !in ks { assert Only(key, s, ks) == Only(key, init, ks); }
      if k in done { assert Minus(Keys(key, init) + [k], done) == Minus(Keys(key, init), done); }
    }
  }

  lemma {:induction false} MinusAppend<K(!new)>(xs: seq<K>, zs: seq<K>, ys: seq<K>)
    ensures Minus(xs + zs, ys) == Minus(xs, ys) + Minus(zs, ys)
  {
    if zs == [] {
      assert xs + zs == xs;
    } else {
      assert (xs + zs)[..|xs + zs| - 1] == xs + zs[..|zs| - 1];
      MinusAppend(xs, zs[..|zs| - 1], ys);
    }
  }

  lemma {:induction false} MinusAll<K(!new)>(xs: seq<K>, ys: seq<K>)
    requires forall x :: x in xs ==> x in ys
    ensures Minus(xs, ys) == []
  {
    if xs != [] {
      assert xs[|xs| - 1] in xs;
      MinusAll(xs[..|xs| - 1], ys);
    }
  }
}
