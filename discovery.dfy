/** Accessor discovery (PojoTester.getGetterSettersPair): every public method is
    classified by its name prefix and parameter count, and the getters and setters are
    merged per property into a TreeMap from the name suffix to a GetterSetterPair. */
module Discovery {
  import opened Wrappers
  import opened JavaLang
  import opened Reflection
  import opened Accessors

  /** What one method contributes to discovery. */
  datatype Role = GetterOf(suffix: string) | SetterOf(suffix: string) | NoRole

  predicate HasPrefix(s: string, p: string)
  {
    |p| <= |s| && s[..|p|] == p
  }

  /** The classification of one method, in the order the source tests it: ignored names
      first, then `get` with no parameter, `set` with one, `is` with none. */
  function Classify(m: JMethod, ignored: set<string>): (r: Role)
    ensures m.name in ignored ==> r == NoRole
    ensures r.GetterOf? ==> |m.params| == 0 && (m.name == "get" + r.suffix || m.name == "is" + r.suffix)
    ensures r.SetterOf? ==> |m.params| == 1 && m.name == "set" + r.suffix
  {
    if m.name in ignored then NoRole
    else if HasPrefix(m.name, "get") && |m.params| == 0 then GetterOf(m.name[3..])
    else if HasPrefix(m.name, "set") && |m.params| == 1 then SetterOf(m.name[3..])
    else if HasPrefix(m.name, "is") && |m.params| == 0 then GetterOf(m.name[2..])
    else NoRole
  }

  /** The converse of Classify's contract: every accessor-shaped name that is not ignored
      is recognised, and a method of any other shape contributes nothing. */
  lemma ClassifyComplete(m: JMethod, ignored: set<string>, x: string)
    requires m.name !in ignored
    ensures m.name == "get" + x && |m.params| == 0 ==> Classify(m, ignored) == GetterOf(x)
    ensures m.name == "is" + x && |m.params| == 0 ==> Classify(m, ignored) == GetterOf(x)
    ensures m.name == "set" + x && |m.params| == 1 ==> Classify(m, ignored) == SetterOf(x)
    ensures (forall y :: m.name != "get" + y && m.name != "is" + y) ==> !Classify(m, ignored).GetterOf?
  {
    if m.name == "get" + x {
      assert HasPrefix(m.name, "get") && m.name[3..] == x;
    }
    if m.name == "set" + x {
      assert HasPrefix(m.name, "set") && m.name[3..] == x;
      assert !HasPrefix(m.name, "get") by { assert m.name[0] == 's'; }
    }
    if m.name == "is" + x {
      assert HasPrefix(m.name, "is") && m.name[2..] == x;
      assert !HasPrefix(m.name, "get") by { assert m.name[0] == 'i'; }
      assert !HasPrefix(m.name, "set") by { assert m.name[0] == 'i'; }
    }
    if HasPrefix(m.name, "get") {
      assert m.name == "get" + m.name[3..];
    }
    if HasPrefix(m.name, "is") {
      assert m.name == "is" + m.name[2..];
    }
  }

  /** One TreeMap.merge step: a getter replaces the property's getter, a setter its
      setter, the other accessor of an existing pair is kept. */
  function Merge(acc: map<string, PairView>, m: JMethod, role: Role): map<string, PairView>
  {
    match role
    case NoRole => acc
    case GetterOf(k) => acc[k := PairView(Some(m), if k in acc then acc[k].setter else None)]
    case SetterOf(k) => acc[k := PairView(if k in acc then acc[k].getter else None, Some(m))]
  }

  /** The discovered properties after visiting methods in the given order. */
  function Discovered(methods: seq<JMethod>, ignored: set<string>): map<string, PairView>
  {
    if methods == [] then map[]
    else
      var last := methods[|methods| - 1];
      Merge(Discovered(methods[..|methods| - 1], ignored), last, Classify(last, ignored))
  }

  /** The last method of the given role: the one whose merge is not overwritten. */
  function LastWith(methods: seq<JMethod>, ignored: set<string>, role: Role): (r: Option<JMethod>)
    ensures r.None? <==> forall i :: 0 <= i < |methods| ==> Classify(methods[i], ignored) != role
    ensures r.Some? ==> exists i :: (0 <= i < |methods| && methods[i] == r.value
      && Classify(methods[i], ignored) == role
      && forall j :: i < j < |methods| ==> Classify(methods[j], ignored) != role)
  {
    if methods == [] then None
    else if Classify(methods[|methods| - 1], ignored) == role then Some(methods[|methods| - 1])
    else
      var r := LastWith(methods[..|methods| - 1], ignored, role);
      if r.Some? then
        ghost var i :| 0 <= i < |methods| - 1 && methods[..|methods| - 1][i] == r.value
          && Classify(methods[i], ignored) == role
          && forall j :: i < j < |methods| - 1 ==> Classify(methods[j], ignored) != role;
        assert methods[i] == r.value;
        r
      else
        r
  }

  /** The independent description of discovery: a property is present exactly when some
      method is its getter or setter, and its pair holds the last getter and the last
      setter in visiting order. */
  lemma {:induction false} DiscoveredCharacterized(methods: seq<JMethod>, ignored: set<string>, k: string)
    ensures k in Discovered(methods, ignored) <==>
      LastWith(methods, ignored, GetterOf(k)).Some? || LastWith(methods, ignored, SetterOf(k)).Some?
    ensures k in Discovered(methods, ignored) ==>
      Discovered(methods, ignored)[k] == PairView(LastWith(methods, ignored, GetterOf(k)), LastWith(methods, ignored, SetterOf(k)))
  {
    if methods != [] {
      DiscoveredCharacterized(methods[..|methods| - 1], ignored, k);
    }
  }

  /** Every discovered pair has at least one accessor; its getter takes no parameter and
      its setter exactly one, and both carry the property's name. */
  lemma DiscoveredShape(methods: seq<JMethod>, ignored: set<string>, k: string)
    requires k in Discovered(methods, ignored)
    ensures var p := Discovered(methods, ignored)[k];
      && (p.getter.Some? || p.setter.Some?)
      && (p.getter.Some? ==> p.getter.value in methods && Classify(p.getter.value, ignored) == GetterOf(k))
      && (p.setter.Some? ==> p.setter.value in methods && Classify(p.setter.value, ignored) == SetterOf(k))
  {
    DiscoveredCharacterized(methods, ignored, k);
  }

  /** No property has two candidate getters or two candidate setters (for instance not
      both getX() and isX(), and not two overloads of setX). */
  predicate Unambiguous(methods: seq<JMethod>, ignored: set<string>)
  {
    forall i, j :: 0 <= i < |methods| && 0 <= j < |methods| && methods[i] != methods[j]
      ==> Classify(methods[i], ignored) == NoRole || Classify(methods[i], ignored) != Classify(methods[j], ignored)
  }

  lemma LastWithSameMembers(m1: seq<JMethod>, m2: seq<JMethod>, ignored: set<string>, role: Role)
    requires Unambiguous(m1, ignored) && role != NoRole
    requires forall m :: m in m1 <==> m in m2
    ensures LastWith(m1, ignored, role) == LastWith(m2, ignored, role)
  {
    var r1, r2 := LastWith(m1, ignored, role), LastWith(m2, ignored, role);
    if r1.Some? {
      assert r1.value in m2;
      assert r2.Some?;
    }
    if r2.Some? {
      assert r2.value in m1;
      assert r1.Some?;
    }
  }

  /** getMethods returns the methods in no specified order. When no property has two
      candidate getters or setters the discovered properties do not depend on it. */
  lemma DiscoveredOrderIndependent(m1: seq<JMethod>, m2: seq<JMethod>, ignored: set<string>)
    requires Unambiguous(m1, ignored)
    requires forall m :: m in m1 <==> m in m2
    ensures Discovered(m1, ignored) == Discovered(m2, ignored)
  {
    var d1, d2 := Discovered(m1, ignored), Discovered(m2, ignored);
    forall k
      ensures k in d1 <==> k in d2
      ensures k in d1 ==> d1[k] == d2[k]
    {
      DiscoveredCharacterized(m1, ignored, k);
      DiscoveredCharacterized(m2, ignored, k);
      LastWithSameMembers(m1, m2, ignored, GetterOf(k));
      LastWithSameMembers(m1, m2, ignored, SetterOf(k));
    }
  }

  /** The current contents of a map of pair objects. */
  function Views(pairs: map<string, GetterSetterPair>): map<string, PairView>
    reads pairs.Values
  {
    map k | k in pairs :: pairs[k].View()
  }

  /** Distinct properties own distinct pair objects. */
  predicate Unshared(pairs: map<string, GetterSetterPair>)
  {
    forall j, k :: j in pairs && k in pairs && j != k ==> pairs[j] != pairs[k]
  }

  /** getGetterSettersPair: visits the methods in getMethods order, skips ignored names
      and merges each getter and setter into a fresh pair or into the pair already held
      for its property. The TreeMap is returned as its pair objects and its key sequence
      in ascending compareTo order. */
  method GetGetterSettersPair(methods: seq<JMethod>, ignored: set<string>)
    returns (pairs: map<string, GetterSetterPair>, keys: seq<string>)
    ensures forall k :: k in pairs ==> fresh(pairs[k])
    ensures Unshared(pairs)
    ensures Views(pairs) == Discovered(methods, ignored)
    ensures StrictlySorted(keys) && forall k :: k in keys <==> k in pairs
  {
    pairs, keys := map[], [];
    var i := 0;
    while i < |methods|
      invariant 0 <= i <= |methods|
      invariant forall k :: k in pairs ==> fresh(pairs[k])
      invariant Unshared(pairs)
      invariant Views(pairs) == Discovered(methods[..i], ignored)
      invariant StrictlySorted(keys) && forall k :: k in keys <==> k in pairs
    {
      assert methods[..i + 1][..i] == methods[..i];
      pairs, keys := DiscoverOne(pairs, keys, methods[i], ignored);
      i := i + 1;
    }
    assert methods[..i] == methods;
  }

  /** One iteration of the discovery loop: an ignored name or a method of no accessor
      shape changes nothing; a getter or setter is put in a fresh pair and merged. */
  method DiscoverOne(pairs: map<string, GetterSetterPair>, keys: seq<string>, m: JMethod, ignored: set<string>)
    returns (pairs': map<string, GetterSetterPair>, keys': seq<string>)
    requires Unshared(pairs)
    requires StrictlySorted(keys) && forall j :: j in keys <==> j in pairs
    modifies pairs.Values
    ensures Unshared(pairs')
    ensures forall j :: j in pairs' ==> fresh(pairs'[j]) || (j in pairs && pairs'[j] == pairs[j])
    ensures Views(pairs') == Merge(old(Views(pairs)), m, Classify(m, ignored))
    ensures StrictlySorted(keys') && forall j :: j in keys' <==> j in pairs'
  {
    var role := Classify(m, ignored);
    match role
    case NoRole =>
      pairs', keys' := pairs, keys;
    case GetterOf(k) =>
      pairs', keys' := AddAccessor(pairs, keys, k, m, true);
    case SetterOf(k) =>
      pairs', keys' := AddAccessor(pairs, keys, k, m, false);
  }

  /** A fresh pair holding m as its getter (or setter), merged under key k. */
  method AddAccessor(pairs: map<string, GetterSetterPair>, keys: seq<string>, k: string, m: JMethod, isGetter: bool)
    returns (pairs': map<string, GetterSetterPair>, keys': seq<string>)
    requires Unshared(pairs)
    requires StrictlySorted(keys) && forall j :: j in keys <==> j in pairs
    modifies pairs.Values
    ensures Unshared(pairs')
    ensures forall j :: j in pairs' ==> fresh(pairs'[j]) || (j in pairs && pairs'[j] == pairs[j])
    ensures Views(pairs') == Merge(old(Views(pairs)), m, if isGetter then GetterOf(k) else SetterOf(k))
    ensures StrictlySorted(keys') && forall j :: j in keys' <==> j in pairs'
  {
    ghost var before := Views(pairs);
    var p := new GetterSetterPair();
    if isGetter {
      p.SetGetter(m);
      assert p !in pairs.Values && Views(pairs) == before;
      pairs', keys' := MergeGetter(pairs, keys, k, p, m);
    } else {
      p.SetSetter(m);
      assert p !in pairs.Values && Views(pairs) == before;
      pairs', keys' := MergeSetter(pairs, keys, k, p, m);
    }
  }

  /** getterSetterMapping.merge(k, p, (old, new) -> { old.setGetter(m); return old; }) */
  method MergeGetter(pairs: map<string, GetterSetterPair>, keys: seq<string>, k: string,
                     p: GetterSetterPair, m: JMethod)
    returns (pairs': map<string, GetterSetterPair>, keys': seq<string>)
    requires p !in pairs.Values && p.View() == PairView(Some(m), None)
    requires Unshared(pairs)
    requires StrictlySorted(keys) && forall j :: j in keys <==> j in pairs
    modifies pairs.Values
    ensures Unshared(pairs')
    ensures forall j :: j in pairs' ==> pairs'[j] == p || (j in pairs && pairs'[j] == pairs[j])
    ensures forall j :: j in pairs' <==> j in pairs || j == k
    ensures Views(pairs') == Merge(old(Views(pairs)), m, GetterOf(k))
    ensures StrictlySorted(keys') && forall j :: j in keys' <==> j in pairs'
  {
    ghost var before := Views(pairs);
    if k in pairs {
      var q := pairs[k];
      q.SetGetter(m);
      pairs', keys' := pairs, keys;
      forall j | j in pairs
        ensures Views(pairs)[j] == before[k := PairView(Some(m), before[k].setter)][j]
      {
        if j != k {
          assert pairs[j] != q;
        }
      }
    } else {
      pairs', keys' := pairs[k := p], InsertSorted(keys, k);
      forall j | j in pairs'
        ensures Views(pairs')[j] == before[k := p.View()][j]
      {
      }
    }
  }

  /** getterSetterMapping.merge(k, p, (old, new) -> { old.setSetter(m); return old; }) */
  method MergeSetter(pairs: map<string, GetterSetterPair>, keys: seq<string>, k: string,
                     p: GetterSetterPair, m: JMethod)
    returns (pairs': map<string, GetterSetterPair>, keys': seq<string>)
    requires p !in pairs.Values && p.View() == PairView(None, Some(m))
    requires Unshared(pairs)
    requires StrictlySorted(keys) && forall j :: j in keys <==> j in pairs
    modifies pairs.Values
    ensures Unshared(pairs')
    ensures forall j :: j in pairs' ==> pairs'[j] == p || (j in pairs && pairs'[j] == pairs[j])
    ensures forall j :: j in pairs' <==> j in pairs || j == k
    ensures Views(pairs') == Merge(old(Views(pairs)), m, SetterOf(k))
    ensures StrictlySorted(keys') && forall j :: j in keys' <==> j in pairs'
  {
    ghost var before := Views(pairs);
    if k in pairs {
      var q := pairs[k];
      q.SetSetter(m);
      pairs', keys' := pairs, keys;
      forall j | j in pairs
        ensures Views(pairs)[j] == before[k := PairView(before[k].getter, Some(m))][j]
      {
        if j != k {
          assert pairs[j] != q;
        }
      }
    } else {
      pairs', keys' := pairs[k := p], InsertSorted(keys, k);
      forall j | j in pairs'
        ensures Views(pairs')[j] == before[k := p.View()][j]
      {
      }
    }
  }
}
