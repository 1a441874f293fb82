/** What the PojoTester harness guarantees: which classes pass testGettersAndSetters and
    testEqualsAndHashcode, and which defects each of them detects. */
module HarnessProperties {
  import opened Wrappers
  import opened JavaLang
  import opened Reflection
  import opened Accessors
  import opened Discovery
  import opened Synthesis
  import opened HashArith
  import opened Equality
  import opened Harness

  // ---------------------------------------------------------------------------
  // testGettersAndSetters

  /** A conventional property of a class: the getter returns field f, the setter stores
      its one argument in f and returns nothing or the receiver, and f's type is one the
      default suppliers cover (and no custom supplier replaces). */
  predicate StandardAccessors(env: Env, decl: ClassDecl, v: PairView)
  {
    v.getter.Some? && v.setter.Some? &&
    var g, s := v.getter.value, v.setter.value;
    && g.body.ReadField? && s.body.WriteField? && g.body.field == s.body.field
    && (s.body.gives == ReturnsVoid || s.body.gives == ReturnsThis)
    && g.params == [] && s.params == [g.ret]
    && g.body.field in decl.fields && decl.fields[g.body.field] == g.ret
    && IsDefaultKey(g.ret) && g.ret !in env.custom
  }

  /** A read-only property backed by the field its name implies. */
  predicate GetterOnlyAccessor(env: Env, decl: ClassDecl, key: string, v: PairView)
  {
    key != [] && v.getter.Some? && v.setter.None? &&
    var g := v.getter.value;
    && g.params == [] && g.body == ReadField(FieldName(key))
    && FieldName(key) in decl.fields && decl.fields[FieldName(key)] == g.ret
    && IsDefaultKey(g.ret) && g.ret !in env.custom
  }

  /** A value the default suppliers make is never null, has the requested type, and is
      what the synthesis of that type yields. */
  lemma DefaultSynthesis(env: Env, t: TypeDesc, n: nat)
    requires IsDefaultKey(t) && t !in env.custom && env.depth > 0
    ensures CreateField(env, t, n, env.depth) == DefaultSupply(t, env.entropy, n)
  {
    assert !t.ArrayOf?;
  }

  /** A value of the parameter's type is passed to a one-parameter method unchanged. */
  lemma ConvertOne(reg: Registry, x: Value, t: TypeDesc)
    requires Conforms(reg, x, t)
    ensures ConvertArgs(reg, [x], [t]) == Some([x])
  {
    var r := ConvertArgs(reg, [x], [t]);
    assert Convert(reg, [x][0], [t][0]) == Some(x);
    assert r.Some? && |r.value| == 1 && r.value[0] == x;
    assert r.value == [x];
  }

  /** A conventional getter/setter pair passes its round of testGettersAndSetters, and
      leaves the synthesized value in the field. */
  lemma StandardPropertyPasses(env: Env, v: PairView, key: string, obj: Value, n: nat)
    requires IsObject(env.reg, obj) && key != [] && env.depth > 0
    requires StandardAccessors(env, ClassOf(env.reg, obj), v)
    ensures var r := ExerciseStep(env, v, key, obj, n);
      && r.Continue?
      && r.next == DefaultSupply(v.getter.value.ret, env.entropy, n).next
      && FieldValue(env.reg, r.obj, v.getter.value.body.field) == DefaultSupply(v.getter.value.ret, env.entropy, n).value
  {
    var g, s := v.getter.value, v.setter.value;
    var t := g.ret;
    DefaultSynthesis(env, t, n);
    var x := DefaultSupply(t, env.entropy, n).value;
    ConvertOne(env.reg, x, t);
    var inv := Invoke(env.reg, obj, s, [x]);
    var o := SetObjectField(env.reg, obj, g.body.field, x).value;
    assert inv == Returned(if s.body.gives == ReturnsVoid then Null else o, o);
    assert FieldValue(env.reg, o, g.body.field) == x;
    EqualsReflexive(env.reg, x);
  }

  /** A read-only property passes its round: the harness writes the field directly and
      the getter returns it. */
  lemma GetterOnlyPropertyPasses(env: Env, v: PairView, key: string, obj: Value, n: nat)
    requires IsObject(env.reg, obj) && env.depth > 0
    requires GetterOnlyAccessor(env, ClassOf(env.reg, obj), key, v)
    ensures var r := ExerciseStep(env, v, key, obj, n);
      && r.Continue?
      && r.next == DefaultSupply(v.getter.value.ret, env.entropy, n).next
      && FieldValue(env.reg, r.obj, FieldName(key)) == DefaultSupply(v.getter.value.ret, env.entropy, n).value
  {
    var g := v.getter.value;
    DefaultSynthesis(env, g.ret, n);
    var x := DefaultSupply(g.ret, env.entropy, n).value;
    var o := SetObjectField(env.reg, obj, FieldName(key), x).value;
    assert FieldValue(env.reg, o, FieldName(key)) == x;
    EqualsReflexive(env.reg, x);
  }

  /** A property typed by an abstract class or an interface, with a custom supplier that
      hands out an instance of a subclass (what the custom mappers are for), passes its
      round: the setter takes the subclass instance and the getter returns it. */
  lemma SubclassSupplierPropertyPasses(env: Env, v: PairView, key: string, obj: Value, n: nat, abs: string)
    requires IsObject(env.reg, obj) && key != [] && env.depth > 0
    requires v.getter.Some? && v.setter.Some?
    requires var g, s := v.getter.value, v.setter.value;
      && g.body.ReadField? && s.body == WriteField(g.body.field, ReturnsVoid)
      && g.params == [] && g.ret == ClassT(abs) && s.params == [ClassT(abs)]
      && g.body.field in ClassOf(env.reg, obj).fields && ClassOf(env.reg, obj).fields[g.body.field] == ClassT(abs)
    requires ClassT(abs) in env.custom && IsObject(env.reg, env.custom[ClassT(abs)])
    requires abs in ClassOf(env.reg, env.custom[ClassT(abs)]).supers
    ensures var r := ExerciseStep(env, v, key, obj, n);
      && r.Continue? && r.next == n
      && FieldValue(env.reg, r.obj, v.getter.value.body.field) == env.custom[ClassT(abs)]
  {
    var g, s := v.getter.value, v.setter.value;
    var x := env.custom[ClassT(abs)];
    ReferenceWidening(env.reg, x, abs);
    assert CreateField(env, ClassT(abs), n, env.depth) == Made(x, n);
    ConvertOne(env.reg, x, ClassT(abs));
    var o := SetObjectField(env.reg, obj, g.body.field, x).value;
    assert Invoke(env.reg, obj, s, [x]) == Returned(Null, o);
    assert FieldValue(env.reg, o, g.body.field) == x;
  }

  /** Every property of the class is conventional or read-only. */
  predicate ConventionalProperties(env: Env, decl: ClassDecl, views: map<string, PairView>, keys: seq<string>)
  {
    forall k :: k in keys ==>
      (k in views && k != [] &&
       (StandardAccessors(env, decl, views[k]) || GetterOnlyAccessor(env, decl, k, views[k])))
  }

  /** A class made only of conventional and read-only properties passes the whole loop. */
  lemma {:induction false} ConventionalLoopPasses(env: Env, views: map<string, PairView>, keys: seq<string>,
                                                  i: nat, obj: Value, n: nat)
    requires i <= |keys| && IsObject(env.reg, obj) && env.depth > 0
    requires ConventionalProperties(env, ClassOf(env.reg, obj), views, keys)
    decreases |keys| - i
    ensures ExerciseFrom(env, views, keys, i, obj, n).Continue?
  {
    if i < |keys| {
      var k := keys[i];
      assert k in keys;
      if StandardAccessors(env, ClassOf(env.reg, obj), views[k]) {
        StandardPropertyPasses(env, views[k], k, obj, n);
      } else {
        GetterOnlyPropertyPasses(env, views[k], k, obj, n);
      }
      var r := ExerciseStep(env, views[k], k, obj, n);
      ConventionalLoopPasses(env, views, keys, i + 1, r.obj, r.next);
    }
  }

  /** validate(clazz, ...) returns true for a class the harness can construct whose
      discovered properties are all conventional or read-only. */
  lemma ConventionalClassValidates(env: Env, clazz: string, ignoreFields: Option<set<string>>, n: nat)
    requires Construction(env, clazz, n).Continue? && env.depth > 0
    requires var views := Discovered(env.reg[clazz].methods, IgnoredGetters(ignoreFields));
      ConventionalProperties(env, env.reg[clazz], views, SortedOf(views.Keys))
    ensures ValidateRun(env, clazz, ignoreFields, n).Continue?
  {
    var c := Construction(env, clazz, n);
    var views := Discovered(env.reg[clazz].methods, IgnoredGetters(ignoreFields));
    ConventionalLoopPasses(env, views, SortedOf(views.Keys), 0, c.obj, c.next);
  }

  /** A getter that returns a stored String instead of the field is caught: the value the
      setter was given is a new allocation, so it is not the same instance. */
  lemma StaleGetterDetected(env: Env, v: PairView, key: string, obj: Value, n: nat, stale: Value)
    requires IsObject(env.reg, obj) && key != [] && env.depth > 0 && StringT !in env.custom
    requires v.getter.Some? && v.getter.value == JMethod(v.getter.value.name, [], StringT, Constant(stale))
    requires v.setter.Some? && v.setter.value.params == [StringT] && v.setter.value.body.WriteField?
    requires v.setter.value.body.gives == ReturnsVoid
    requires v.setter.value.body.field in ClassOf(env.reg, obj).fields
    requires ClassOf(env.reg, obj).fields[v.setter.value.body.field] == StringT
    requires stale.Ref? ==> stale.id < n
    ensures ExerciseStep(env, v, key, obj, n) == Stop(AssertionFailed("is different"))
  {
    DefaultSynthesis(env, StringT, n);
    var x := DefaultSupply(StringT, env.entropy, n).value;
    ConvertOne(env.reg, x, StringT);
  }

  /** A fluent setter that hands back some other object than the receiver is caught. */
  lemma ForeignSetterResultDetected(env: Env, v: PairView, key: string, obj: Value, n: nat, other: Value)
    requires IsObject(env.reg, obj) && key != [] && env.depth > 0
    requires v.getter.Some? && v.setter.Some?
    requires var s := v.setter.value;
      && |s.params| == 1 && IsDefaultKey(s.params[0]) && s.params[0] !in env.custom
      && s.body.WriteField? && s.body.gives == ReturnsValue(other)
      && s.body.field in ClassOf(env.reg, obj).fields
      && ClassOf(env.reg, obj).fields[s.body.field] == s.params[0]
    requires other != Null && !SameInstance(other, obj)
    ensures ExerciseStep(env, v, key, obj, n) == Stop(AssertionFailed("Return of setter must match pojo objectUnderTest"))
  {
    var t := v.setter.value.params[0];
    DefaultSynthesis(env, t, n);
    var x := DefaultSupply(t, env.entropy, n).value;
    ConvertOne(env.reg, x, t);
  }

  /** A getter declared wider than its field (`long getX()` over `int x`) is caught: it
      hands back a Long, which does not equal the Integer the setter was given. */
  lemma WideningGetterDetected(env: Env, v: PairView, key: string, obj: Value, n: nat)
    requires IsObject(env.reg, obj) && key != [] && env.depth > 0 && Prim(IntK) !in env.custom
    requires v.getter.Some? && v.getter.value.params == [] && v.getter.value.ret == Prim(LongK)
    requires v.getter.value.body.ReadField? && v.setter.Some? && v.setter.value.params == [Prim(IntK)]
    requires v.setter.value.body == WriteField(v.getter.value.body.field, ReturnsVoid)
    requires v.getter.value.body.field in ClassOf(env.reg, obj).fields
    requires ClassOf(env.reg, obj).fields[v.getter.value.body.field] == Prim(IntK)
    ensures ExerciseStep(env, v, key, obj, n) == Stop(AssertionFailed("is different"))
  {
    var g, s := v.getter.value, v.setter.value;
    DefaultSynthesis(env, Prim(IntK), n);
    var x := DefaultSupply(Prim(IntK), env.entropy, n).value;
    ConvertOne(env.reg, x, Prim(IntK));
    var o := SetObjectField(env.reg, obj, g.body.field, x).value;
    assert Invoke(env.reg, obj, s, [x]) == Returned(Null, o);
    assert FieldValue(env.reg, o, g.body.field) == x;
    assert Invoke(env.reg, o, g, []) == Returned(Num(LongK, x.n), o);
  }

  /** An empty property name (a method called just "get", "set" or "is") makes
      substring(0, 1) throw, which testGettersAndSetters reports as IllegalStateException. */
  lemma EmptyPropertyName(env: Env, v: PairView, obj: Value, n: nat)
    requires IsObject(env.reg, obj)
    ensures ExerciseStep(env, v, [], obj, n) == Stop(IllegalState)
  {
  }

  // ---------------------------------------------------------------------------
  // testEqualsAndHashcode

  /** Every field equals compares is the field of some discovered property. */
  predicate EqualityFieldsAreProperties(fs: seq<string>, keys: seq<string>)
  {
    forall j :: 0 <= j < |fs| ==> fs[j] in FieldsOf(keys)
  }

  /** Every property is backed by a field of its name. */
  predicate PropertiesHaveFields(reg: Registry, obj: Value, keys: seq<string>)
    requires IsObject(reg, obj)
  {
    forall k :: k in keys ==> k != [] && FieldName(k) in ClassOf(reg, obj).fields
  }

  /** The shallow copy of a well-typed object whose equals compares property fields passes
      the first five assertions: equal to itself, unequal to a new Object, equal to the
      copy both ways round, with the same hash code. */
  lemma CopyPassesBasicChecks(reg: Registry, h: Hashing, keys: seq<string>, obj: Value, blank: Value,
                              alloc: nat, fs: seq<string>)
    requires WellTyped(reg, obj) && IsObject(reg, blank)
    requires blank.data.className == obj.data.className && blank.id != obj.id
    requires PropertiesHaveFields(reg, obj, keys)
    requires ClassOf(reg, obj).equality == FieldwiseEquals(fs) && EqualityFieldsAreProperties(fs, keys)
    requires alloc != obj.id && obj.data.className != ObjectClass
    ensures CopyFields(reg, keys, 0, obj, blank).Copied?
    ensures BasicChecks(reg, h, obj, CopyFields(reg, keys, 0, obj, blank).value, alloc) == None
  {
    CopyFieldsSucceeds(reg, keys, 0, obj, blank);
    CopyFieldsCopies(reg, keys, 0, obj, blank);
    assert keys[0..] == keys;
    var copy := CopyFields(reg, keys, 0, obj, blank).value;
    EqualsReflexive(reg, obj);
    forall j | 0 <= j < |fs|
      ensures ShallowEquals(FieldOrNull(reg, obj, fs[j]), FieldOrNull(reg, copy, fs[j]))
      ensures ShallowEquals(FieldOrNull(reg, copy, fs[j]), FieldOrNull(reg, obj, fs[j]))
    {
      assert fs[j] in FieldsOf(keys);
      var k :| k in keys && k != [] && FieldName(k) == fs[j];
      var x := FieldOrNull(reg, obj, fs[j]);
      ShallowEqualsEquivalence(x, x, x);
    }
    assert Equals(reg, obj, copy) && Equals(reg, copy, obj);
    EqualsHashConsistent(reg, h, obj, copy);
  }

  /** A class that does not override equals fails the copy assertion: only the object
      itself is equal to it. */
  lemma IdentityEqualityRejected(reg: Registry, h: Hashing, obj: Value, copy: Value, alloc: nat)
    requires IsObject(reg, obj) && ClassOf(reg, obj).equality == IdentityEquals
    requires alloc != obj.id && (copy.Ref? ==> copy.id != obj.id)
    ensures BasicChecks(reg, h, obj, copy, alloc)
      == Some(AssertionFailed("Equality matches with other object of same properties"))
  {
  }

  /** One round of the per-property loop for a field equals compares, whose value in the
      object differs from the field type's zero, with a mapper whose value Field.set
      stores as that zero (the corrected one always, the source's one except for byte,
      short and char): the nullified copy is always unequal, and the round passes exactly
      when the two values hash differently. */
  lemma NullifyRound(mapper: NullifyMapper, env: Env, h: Hashing, keys: seq<string>, obj: Value, copy: Value,
                     field: string, getter: Option<JMethod>, fs: seq<string>)
    requires WellTyped(env.reg, obj) && IsObject(env.reg, copy)
    requires copy.data.className == obj.data.className && copy.id != obj.id
    requires keys != [] && PropertiesHaveFields(env.reg, obj, keys)
    requires ClassOf(env.reg, obj).equality == FieldwiseEquals(fs) && Distinct(fs) && EqualityFieldsAreProperties(fs, keys)
    requires field in fs && field in ClassOf(env.reg, obj).fields
    requires getter.Some? && ClassOf(env.reg, obj).fields[field] == getter.value.ret && getter.value.ret != VoidT
    requires StoresZero(env.reg, mapper, getter.value.ret)
    requires !ShallowEquals(FieldValue(env.reg, obj, field), DefaultValue(getter.value.ret))
    ensures var r := NullifyOne(mapper, env, h, keys, obj, copy, field, getter);
      && (r.NextCopy? <==> ShallowHash(h, FieldValue(env.reg, obj, field)) != ShallowHash(h, DefaultValue(getter.value.ret)))
      && (r.NullifyFailed? ==> r.failure == AssertionFailed("Hash code must not same with object of different property"))
      && (r.NextCopy? ==> IsObject(env.reg, r.copy) && r.copy.data.className == obj.data.className && r.copy.id == copy.id)
  {
    var reg := env.reg;
    CopyFieldsSucceeds(reg, keys, 0, obj, copy);
    CopyFieldsCopies(reg, keys, 0, obj, copy);
    assert keys[0..] == keys;
    var c := CopyFields(reg, keys, 0, obj, copy).value;
    var t := getter.value.ret;
    var w := NullifyValue(mapper, t);
    var z := DefaultValue(t);
    var c' := SetObjectField(reg, c, field, w).value;
    var idx :| 0 <= idx < |fs| && fs[idx] == field;
    NullifiedCopyAgrees(reg, keys, obj, c, field, w, fs, idx);
    SetThenGet(reg, c, field, w, field);
    SingleFieldDifference(reg, h, obj, c', fs, idx);
    assert !IsMatch(reg, obj, c');
    assert FieldOrNull(reg, c', field) == z;
    assert HashCode(reg, h, obj) == HashCode(reg, h, c') <==>
      ShallowHash(h, FieldValue(reg, obj, field)) == ShallowHash(h, z);
  }

  /** A round whose value Field.set refuses for the property's field stops the loop with
      IllegalArgumentException before anything is compared. */
  lemma NullifyRoundRejected(mapper: NullifyMapper, env: Env, h: Hashing, keys: seq<string>, obj: Value, copy: Value,
                             field: string, getter: Option<JMethod>)
    requires WellTyped(env.reg, obj) && IsObject(env.reg, copy)
    requires copy.data.className == obj.data.className
    requires keys != [] && PropertiesHaveFields(env.reg, obj, keys)
    requires field in ClassOf(env.reg, obj).fields && getter.Some?
    requires Convert(env.reg, NullifyValue(mapper, getter.value.ret), ClassOf(env.reg, obj).fields[field]).None?
    ensures NullifyOne(mapper, env, h, keys, obj, copy, field, getter) == NullifyFailed(IllegalArgument)
  {
    CopyFieldsSucceeds(env.reg, keys, 0, obj, copy);
    CopyFieldsCopies(env.reg, keys, 0, obj, copy);
  }

  /** After the copy is reset and one field is overwritten, every other field equals
      compares still agrees with the original. */
  lemma NullifiedCopyAgrees(reg: Registry, keys: seq<string>, obj: Value, c: Value, field: string, z: Value,
                            fs: seq<string>, idx: nat)
    requires WellTyped(reg, obj) && IsObject(reg, c) && c.data.className == obj.data.className
    requires SetObjectField(reg, c, field, z).Some?
    requires forall k :: k in keys ==>
      (k != [] && FieldName(k) in ClassOf(reg, obj).fields && FieldValue(reg, c, FieldName(k)) == FieldValue(reg, obj, FieldName(k)))
    requires EqualityFieldsAreProperties(fs, keys) && Distinct(fs) && idx < |fs| && fs[idx] == field
    ensures forall j :: 0 <= j < |fs| && j != idx ==>
      ShallowEquals(FieldOrNull(reg, obj, fs[j]), FieldOrNull(reg, SetObjectField(reg, c, field, z).value, fs[j]))
  {
    var c' := SetObjectField(reg, c, field, z).value;
    forall j | 0 <= j < |fs| && j != idx
      ensures ShallowEquals(FieldOrNull(reg, obj, fs[j]), FieldOrNull(reg, c', fs[j]))
    {
      assert fs[j] in FieldsOf(keys);
      var k :| k in keys && k != [] && FieldName(k) == fs[j];
      SetThenGet(reg, c, field, z, fs[j]);
      var x := FieldOrNull(reg, obj, fs[j]);
      ShallowEqualsEquivalence(x, x, x);
    }
  }

  /** The round's condition for property k: it has a getter, its field is compared by
      equals, and the object's value is told apart from the zero of the field's type both
      by equals and by hash code. */
  predicate Distinguishable(reg: Registry, h: Hashing, obj: Value, fs: seq<string>,
                            views: map<string, PairView>, k: string)
    requires IsObject(reg, obj)
  {
    k in views && k != [] && views[k].getter.Some? &&
    var f, t := FieldName(k), views[k].getter.value.ret;
    && f in ClassOf(reg, obj).fields && ClassOf(reg, obj).fields[f] == t && t != VoidT && f in fs
    && !ShallowEquals(FieldValue(reg, obj, f), DefaultValue(t))
    && ShallowHash(h, FieldValue(reg, obj, f)) != ShallowHash(h, DefaultValue(t))
  }

  /** The per-property loop passes when every property not listed to be ignored is
      distinguishable and the mapper's value for it is stored as the zero: always with
      the corrected mapper, and with the source's one when no such property is a byte,
      short or char. */
  lemma {:induction false} NullifyLoopPasses(mapper: NullifyMapper, env: Env, h: Hashing, ignoredEq: set<string>,
                                             views: map<string, PairView>, keys: seq<string>, i: nat,
                                             obj: Value, copy: Value, fs: seq<string>)
    requires i <= |keys| && forall k :: k in keys ==> k in views
    requires WellTyped(env.reg, obj) && IsObject(env.reg, copy)
    requires copy.data.className == obj.data.className && copy.id != obj.id
    requires PropertiesHaveFields(env.reg, obj, keys)
    requires ClassOf(env.reg, obj).equality == FieldwiseEquals(fs) && Distinct(fs) && EqualityFieldsAreProperties(fs, keys)
    requires forall k :: k in keys && k != [] && FieldName(k) !in ignoredEq ==>
      Distinguishable(env.reg, h, obj, fs, views, k) && StoresZero(env.reg, mapper, views[k].getter.value.ret)
    decreases |keys| - i
    ensures NullifyFrom(mapper, env, h, ignoredEq, views, keys, i, obj, copy) == None
  {
    if i < |keys| {
      var k := keys[i];
      assert k in keys;
      if FieldName(k) in ignoredEq {
        NullifyLoopPasses(mapper, env, h, ignoredEq, views, keys, i + 1, obj, copy, fs);
      } else {
        NullifyRound(mapper, env, h, keys, obj, copy, FieldName(k), views[k].getter, fs);
        var r := NullifyOne(mapper, env, h, keys, obj, copy, FieldName(k), views[k].getter);
        NullifyLoopPasses(mapper, env, h, ignoredEq, views, keys, i + 1, obj, r.copy, fs);
      }
    }
  }

  /** With EQUALS_NULLIFY_MAPPER as written, the loop stops with IllegalArgumentException
      at a byte, short or char property that is not ignored, once every property before
      it has passed its round. */
  lemma {:induction false} NullifyLoopRejectsNarrow(env: Env, h: Hashing, ignoredEq: set<string>,
                                                    views: map<string, PairView>, keys: seq<string>, i: nat, j: nat,
                                                    obj: Value, copy: Value, fs: seq<string>)
    requires i <= j < |keys| && forall k :: k in keys ==> k in views
    requires WellTyped(env.reg, obj) && IsObject(env.reg, copy)
    requires copy.data.className == obj.data.className && copy.id != obj.id
    requires PropertiesHaveFields(env.reg, obj, keys)
    requires ClassOf(env.reg, obj).equality == FieldwiseEquals(fs) && Distinct(fs) && EqualityFieldsAreProperties(fs, keys)
    requires forall l :: i <= l < j && keys[l] != [] && FieldName(keys[l]) !in ignoredEq ==>
      Distinguishable(env.reg, h, obj, fs, views, keys[l]) && StoresZero(env.reg, AsWritten, views[keys[l]].getter.value.ret)
    requires keys[j] != [] && FieldName(keys[j]) !in ignoredEq && views[keys[j]].getter.Some?
    requires FieldName(keys[j]) in ClassOf(env.reg, obj).fields
    requires ClassOf(env.reg, obj).fields[FieldName(keys[j])] == views[keys[j]].getter.value.ret
    requires views[keys[j]].getter.value.ret in {Prim(ByteK), Prim(ShortK), Prim(CharK)}
    decreases j - i
    ensures NullifyFrom(AsWritten, env, h, ignoredEq, views, keys, i, obj, copy) == Some(IllegalArgument)
  {
    var k := keys[i];
    assert k in keys;
    if i == j {
      NullifyAsWrittenRejected(env.reg, views[k].getter.value.ret);
      NullifyRoundRejected(AsWritten, env, h, keys, obj, copy, FieldName(k), views[k].getter);
    } else if FieldName(k) in ignoredEq {
      NullifyLoopRejectsNarrow(env, h, ignoredEq, views, keys, i + 1, j, obj, copy, fs);
    } else {
      NullifyRound(AsWritten, env, h, keys, obj, copy, FieldName(k), views[k].getter, fs);
      var r := NullifyOne(AsWritten, env, h, keys, obj, copy, FieldName(k), views[k].getter);
      NullifyLoopRejectsNarrow(env, h, ignoredEq, views, keys, i + 1, j, obj, r.copy, fs);
    }
  }

  /** A boxed numeric property (Integer, Long, ...) that testGettersAndSetters filled with
      the default supplier's 0 cannot pass its round: 0 and null are unequal but both hash
      to 0, so "Hash code must not same" fails. */
  lemma BoxedZeroHashCollision(mapper: NullifyMapper, env: Env, h: Hashing, keys: seq<string>, obj: Value,
                               copy: Value, field: string, getter: Option<JMethod>, fs: seq<string>)
    requires WellTyped(env.reg, obj) && IsObject(env.reg, copy)
    requires copy.data.className == obj.data.className && copy.id != obj.id
    requires keys != [] && PropertiesHaveFields(env.reg, obj, keys)
    requires ClassOf(env.reg, obj).equality == FieldwiseEquals(fs) && Distinct(fs) && EqualityFieldsAreProperties(fs, keys)
    requires field in fs && field in ClassOf(env.reg, obj).fields
    requires getter.Some? && getter.value.ret.Boxed? && getter.value.ret.kind != BooleanK
    requires ClassOf(env.reg, obj).fields[field] == getter.value.ret
    requires FieldValue(env.reg, obj, field) == DefaultSupply(getter.value.ret, env.entropy, 0).value
    ensures NullifyOne(mapper, env, h, keys, obj, copy, field, getter)
      == NullifyFailed(AssertionFailed("Hash code must not same with object of different property"))
  {
    var k := getter.value.ret.kind;
    assert FieldValue(env.reg, obj, field) == Num(k, 0);
    assert ShallowHash(h, Num(k, 0)) == 0 by {
      if k == LongK {
        assert LongHash(0) == 0;
      }
    }
    NullifyRound(mapper, env, h, keys, obj, copy, field, getter, fs);
  }

  /** Long.hashCode of a value that fits in 32 bits is the value itself. */
  lemma LongHashSmall(x: int)
    requires 0 <= x < 0x1_0000_0000
    ensures LongHash(x) == x
  {
    assert x % 0x1_0000_0000_0000_0000 == x;
    var u := x as bv64;
    assert u < 0x1_0000_0000;
    ShiftSmall(u);
    assert (u ^ (u >> 32)) as int == x;
  }

  lemma ShiftSmall(u: bv64)
    requires u < 0x1_0000_0000
    ensures u >> 32 == 0 && u ^ (u >> 32) == u
  {
  }

  /** What the default suppliers put in a property of a primitive type, of Boolean,
      String, BigDecimal, List or Set is told apart from that type's zero by equals and
      by hash code; what they put in a boxed numeric property is not. */
  lemma SuppliedValueDistinguishable(h: Hashing, t: TypeDesc, entropy: nat -> int, n: nat)
    requires IsDefaultKey(t) && t !in {DateT, LocalDateTimeT, MapT}
    ensures var x := DefaultSupply(t, entropy, n).value;
      (!ShallowEquals(x, DefaultValue(t)) && ShallowHash(h, x) != ShallowHash(h, DefaultValue(t)))
        <==> !(t.Boxed? && t.kind != BooleanK)
  {
    if t.Prim? {
      PrimitiveSupplyDistinguishable(h, t.kind, entropy, n);
    } else if t.Boxed? {
      BoxedSupplyHashesLikeNull(h, t.kind, entropy, n);
    } else if t == StringT {
      DecimalStringHashPositive(Draw(entropy, n, 32767));
    } else if t == ListT || t == SetT {
      CollectionSupplyHashPositive(h, t, entropy, n);
    }
  }

  lemma PrimitiveSupplyDistinguishable(h: Hashing, k: PrimKind, entropy: nat -> int, n: nat)
    ensures var x := DefaultSupply(Prim(k), entropy, n).value;
      !ShallowEquals(x, DefaultValue(Prim(k))) && ShallowHash(h, x) != ShallowHash(h, DefaultValue(Prim(k)))
  {
    var x := DefaultSupply(Prim(k), entropy, n).value;
    if k == LongK {
      LongHashSmall(x.n);
      LongHashSmall(0);
    }
  }

  lemma BoxedSupplyHashesLikeNull(h: Hashing, k: PrimKind, entropy: nat -> int, n: nat)
    ensures var x := DefaultSupply(Boxed(k), entropy, n).value;
      k != BooleanK ==> ShallowHash(h, x) == ShallowHash(h, Null)
    ensures var x := DefaultSupply(Boxed(k), entropy, n).value;
      k == BooleanK ==> !ShallowEquals(x, Null) && ShallowHash(h, x) != ShallowHash(h, Null)
  {
    if k == LongK {
      LongHashSmall(0);
    }
  }

  lemma CollectionSupplyHashPositive(h: Hashing, t: TypeDesc, entropy: nat -> int, n: nat)
    requires t == ListT || t == SetT
    ensures ShallowHash(h, DefaultSupply(t, entropy, n).value) > 0
  {
    var s := RandomDigits(entropy, n);
    DecimalStringHashPositive(Draw(entropy, n, 32767));
    SingletonHashes(s);
    if t == ListT {
      assert DefaultSupply(t, entropy, n).value == Ref(n, ListD([s]));
      assert ShallowHash(h, Ref(n, ListD([s]))) == ListHash([s]);
    } else {
      assert DefaultSupply(t, entropy, n).value == Ref(n, SetD([s]));
      assert ShallowHash(h, Ref(n, SetD([s]))) == Wrap32(Sum([s], ElementHash));
    }
  }

  /** The hash of a one-element List or Set of strings. */
  lemma SingletonHashes(s: string)
    ensures ListHash([s]) == Wrap32(31 + StringHash(s))
    ensures Sum([s], ElementHash) == StringHash(s)
  {
    var hs := seq(1, i requires 0 <= i < 1 => StringHash([s][i]));
    assert hs == [StringHash(s)] && hs[..0] == [];
    assert HashFold(hs) == Wrap32(31 * HashFold([]) + StringHash(s));
    assert Sum([s], ElementHash) == StringHash(s) + Sum([], ElementHash);
  }

  /** The Map supplier's one entry is "1" -> a random number; when that number is 1 the
      entry's key and value hash alike, the map hashes to 0 like null, and the round for
      a Map property fails although the copy is unequal. */
  lemma SingletonMapCanHashLikeNull(h: Hashing, entropy: nat -> int, n: nat)
    requires Draw(entropy, n, 32767) == 1
    ensures var x := DefaultSupply(MapT, entropy, n).value;
      !ShallowEquals(x, Null) && ShallowHash(h, x) == ShallowHash(h, Null)
  {
    var s := RandomDigits(entropy, n);
    MapSupplyIs(entropy, n);
    OneDigit();
    assert s == "1";
    SameEntryMapHash(h, n, s);
  }

  lemma MapSupplyIs(entropy: nat -> int, n: nat)
    ensures DefaultSupply(MapT, entropy, n).value == Ref(n, MapD([("1", RandomDigits(entropy, n))]))
  {
  }

  lemma OneDigit()
    ensures DecimalString(1) == "1"
  {
  }

  // ---------------------------------------------------------------------------
  // EQUALS_NULLIFY_MAPPER

  /** With the mapper as written, the round for a byte, short or char property throws
      IllegalArgumentException from Field.set instead of comparing anything. */
  lemma NullifyAsWrittenFailsNarrowFields(reg: Registry, obj: Value, field: string)
    requires IsObject(reg, obj) && field in ClassOf(reg, obj).fields
    requires ClassOf(reg, obj).fields[field] in {Prim(ByteK), Prim(ShortK), Prim(CharK)}
    ensures SetObjectField(reg, obj, field, NullifyAsWritten(ClassOf(reg, obj).fields[field])).None?
    ensures SetObjectField(reg, obj, field, NullifyFixed(ClassOf(reg, obj).fields[field])).Some?
  {
    NullifyAsWrittenRejected(reg, ClassOf(reg, obj).fields[field]);
  }
}
