/** The PojoTester harness: construction of the object under test, the getter/setter
    round trip and the equals/hashCode check. Objects are values that carry their
    identity; writing a field of an object rebinds the variable holding it to the updated
    value with the same identity. */
module Harness {
  import opened Wrappers
  import opened JavaLang
  import opened Reflection
  import opened Accessors
  import opened Discovery
  import opened Synthesis
  import opened Equality

  /** Why a run of the harness stops. */
  datatype Failure =
    | IllegalState                 // IllegalStateException, also wrapping any other Exception
    | IllegalArgument              // IllegalArgumentException
    | NullPointer                  // NullPointerException
    | IndexOutOfBounds             // StringIndexOutOfBoundsException
    | AssertionFailed(reason: string)  // AssertionError from assertThat
    | StackOverflow                // StackOverflowError from unbounded synthesis

  /** The declared constructors of a class; a class the registry does not know has none
      the harness can use. */
  function ConstructorsOf(reg: Registry, c: string): seq<Ctor>
  {
    if c in reg then reg[c].ctors else []
  }

  // ---------------------------------------------------------------------------
  // setObjectUnderTest: try every constructor, keep the last object made

  /** Where the constructor loop of setObjectUnderTest ends up. */
  datatype Setup = SetUp(obj: Value, next: nat) | SetupOverflow

  /** The loop from constructor i on, holding `current`: a failure is ignored, a success
      replaces the object, an overflow escapes the loop. */
  function TryAll(env: Env, c: string, ctors: seq<Ctor>, i: nat, n: nat, current: Value): (r: Setup)
    requires i <= |ctors|
    decreases |ctors| - i
    ensures r.SetUp? ==> n <= r.next
  {
    if i == |ctors| then SetUp(current, n)
    else
      match Attempt(env, c, ctors, i, n, env.depth)
      case Overflow => SetupOverflow
      case Failed(m) => TryAll(env, c, ctors, i + 1, m, current)
      case Made(v, m) => TryAll(env, c, ctors, i + 1, m, v)
  }

  /** The object the loop ends with is the one it started with, or one made by a
      constructor of class c during the loop. */
  lemma {:induction false} TryAllMakes(env: Env, c: string, ctors: seq<Ctor>, i: nat, n: nat, current: Value)
    requires i <= |ctors|
    decreases |ctors| - i
    ensures var r := TryAll(env, c, ctors, i, n, current);
      r.SetUp? && r.obj != current ==>
        i < |ctors| && r.obj.Ref? && r.obj.data.ObjD? && r.obj.data.className == c && n <= r.obj.id < r.next
  {
    if i < |ctors| {
      var a := Attempt(env, c, ctors, i, n, env.depth);
      if a.Failed? {
        TryAllMakes(env, c, ctors, i + 1, a.next, current);
      } else if a.Made? {
        TryAllMakes(env, c, ctors, i + 1, a.next, a.value);
      }
    }
  }

  /** The object kept after a trace of attempts, starting from `current`. */
  function LastMade(tr: seq<Synth>, current: Value): Value
  {
    if tr == [] then current else LastMade(tr[1..], if tr[0].Made? then tr[0].value else current)
  }

  /** setObjectUnderTest keeps the object of the LAST constructor that succeeded (where
      createField's constructor loop keeps the first): the loop's result is LastMade of
      the trace of attempts, and an overflow anywhere ends it. */
  lemma {:induction false} TryAllIsLastSuccess(env: Env, c: string, ctors: seq<Ctor>, i: nat, n: nat, current: Value)
    requires i <= |ctors|
    decreases |ctors| - i
    ensures var tr := Trace(env, c, ctors, i, n, env.depth);
      && (TryAll(env, c, ctors, i, n, current).SetupOverflow? <==> exists j :: 0 <= j < |tr| && tr[j].Overflow?)
      && (TryAll(env, c, ctors, i, n, current).SetUp? ==> TryAll(env, c, ctors, i, n, current).obj == LastMade(tr, current))
  {
    if i < |ctors| {
      var a := Attempt(env, c, ctors, i, n, env.depth);
      var tr := Trace(env, c, ctors, i, n, env.depth);
      if !a.Overflow? {
        var rest := Trace(env, c, ctors, i + 1, a.next, env.depth);
        var next := if a.Made? then a.value else current;
        TryAllIsLastSuccess(env, c, ctors, i + 1, a.next, next);
        assert TryAll(env, c, ctors, i, n, current) == TryAll(env, c, ctors, i + 1, a.next, next);
        assert tr == [a] + rest;
        OverflowInCons(a, rest);
        assert LastMade(tr, current) == LastMade(rest, next) by {
          assert tr[1..] == rest;
        }
      } else {
        assert tr[0].Overflow?;
      }
    }
  }

  /** An attempt that did not overflow, put in front of a trace, adds no overflow. */
  lemma OverflowInCons(a: Synth, rest: seq<Synth>)
    requires !a.Overflow?
    ensures (exists j :: 0 <= j < |[a] + rest| && ([a] + rest)[j].Overflow?)
      <==> exists j :: 0 <= j < |rest| && rest[j].Overflow?
  {
    var tr := [a] + rest;
    if exists j :: 0 <= j < |tr| && tr[j].Overflow? {
      var j :| 0 <= j < |tr| && tr[j].Overflow?;
      assert rest[j - 1].Overflow?;
    }
    if exists j :: 0 <= j < |rest| && rest[j].Overflow? {
      var j :| 0 <= j < |rest| && rest[j].Overflow?;
      assert tr[j + 1].Overflow?;
    }
  }

  /** What LastMade keeps: the value of the last Made attempt, or `current` if none. */
  lemma {:induction false} LastMadeCharacterized(tr: seq<Synth>, current: Value)
    ensures (forall j :: 0 <= j < |tr| ==> !tr[j].Made?) ==> LastMade(tr, current) == current
    ensures (exists j :: 0 <= j < |tr| && tr[j].Made?) ==>
      exists j :: 0 <= j < |tr| && tr[j].Made? && LastMade(tr, current) == tr[j].value
        && forall k :: j < k < |tr| ==> !tr[k].Made?
  {
    if tr != [] {
      var next := if tr[0].Made? then tr[0].value else current;
      LastMadeCharacterized(tr[1..], next);
      if exists j :: 0 <= j < |tr[1..]| && tr[1..][j].Made? {
        var j :| 0 <= j < |tr[1..]| && tr[1..][j].Made? && LastMade(tr[1..], next) == tr[1..][j].value
          && forall k :: j < k < |tr[1..]| ==> !tr[1..][k].Made?;
        assert tr[j + 1].Made? && forall k :: j + 1 < k < |tr| ==> !tr[k].Made? by {
          forall k | j + 1 < k < |tr| ensures !tr[k].Made? {
            assert tr[k] == tr[1..][k - 1];
          }
        }
      } else {
        forall k | 1 <= k < |tr| ensures !tr[k].Made? {
          assert tr[k] == tr[1..][k - 1];
        }
      }
    }
  }

  /** A class with two constructors that both succeed: createField builds with the first,
      setObjectUnderTest keeps the object of the second. */
  lemma FirstVersusLast(env: Env, c: string, n: nat)
    requires |ConstructorsOf(env.reg, c)| == 2
    requires var ctors := ConstructorsOf(env.reg, c);
      Attempt(env, c, ctors, 0, n, env.depth).Made? &&
      Attempt(env, c, ctors, 1, Attempt(env, c, ctors, 0, n, env.depth).next, env.depth).Made?
    ensures var ctors := ConstructorsOf(env.reg, c);
      var first := Attempt(env, c, ctors, 0, n, env.depth);
      var second := Attempt(env, c, ctors, 1, first.next, env.depth);
      && OtherConstructors(env, c, ctors, 0, n, env.depth) == first
      && TryAll(env, c, ctors, 0, n, Null) == SetUp(second.value, second.next)
      && first.value.id != second.value.id
  {
    var ctors := ConstructorsOf(env.reg, c);
    var first := Attempt(env, c, ctors, 0, n, env.depth);
    var second := Attempt(env, c, ctors, 1, first.next, env.depth);
    assert TryAll(env, c, ctors, 2, second.next, second.value) == SetUp(second.value, second.next);
    assert TryAll(env, c, ctors, 1, first.next, first.value) == SetUp(second.value, second.next);
  }

  /** ArgsOutcome of the arguments made so far followed by the outcome of the rest. */
  function Prepend(done: seq<Value>, rest: ArgsOutcome): ArgsOutcome
  {
    match rest
    case ArgsMade(vs, k) => ArgsMade(done + vs, k)
    case other => other
  }

  // ---------------------------------------------------------------------------
  // testGettersAndSetters and verifyGetter

  /** Where a step of a test leaves the harness: the object under test and the step
      counter, or the failure that ends the run. */
  datatype Progress = Continue(obj: Value, next: nat) | Stop(failure: Failure)

  /** Hamcrest's is(expected) applied to `actual`: null matches only null, otherwise
      actual.equals(expected). */
  predicate IsMatch(reg: Registry, actual: Value, expected: Value)
  {
    if actual == Null then expected == Null else Equals(reg, actual, expected)
  }

  /** verifyGetter: invoke the getter; for a primitive return type (void included) the
      expected value must equal the result, otherwise it must be the very same instance.
      An exception from the getter stops the run (wrapped by the caller). */
  function VerifyGetter(reg: Registry, getter: JMethod, obj: Value, expected: Value, n: nat): (r: Progress)
    requires IsObject(reg, obj)
    ensures r.Continue? ==> (r.next == n && IsObject(reg, r.obj) && SameInstance(r.obj, obj)
      && r.obj.data.className == obj.data.className)
    ensures r.Continue? <==> (
      Invoke(reg, obj, getter, []).Returned? &&
      var got := Invoke(reg, obj, getter, []).result;
      if IsPrimitive(getter.ret) then IsMatch(reg, expected, got) else SameInstance(expected, got))
  {
    match Invoke(reg, obj, getter, [])
    case Threw => Stop(IllegalState)
    case Returned(got, o) =>
      if IsPrimitive(getter.ret) then
        if IsMatch(reg, expected, got) then Continue(o, n) else Stop(AssertionFailed("is different"))
      else if SameInstance(expected, got) then Continue(o, n) else Stop(AssertionFailed("is different"))
  }

  /** One iteration of testGettersAndSetters for property `key` with accessors v:
      with both accessors, call the setter with a synthesized value, check a non-null
      return is the object itself, then verify the getter; with a getter only, write the
      backing field directly and verify the getter; with a setter only, do nothing. Every
      Exception becomes an IllegalStateException; assertion failures and stack overflows
      pass through. */
  function ExerciseStep(env: Env, v: PairView, key: string, obj: Value, n: nat): (r: Progress)
    requires IsObject(env.reg, obj)
    ensures r.Continue? ==> (n <= r.next && IsObject(env.reg, r.obj) && SameInstance(r.obj, obj)
      && r.obj.data.className == obj.data.className)
  {
    if key == [] then Stop(IllegalState)
    else
      var field := FieldName(key);
      if v.getter.Some? && v.setter.Some? then
        var setter := v.setter.value;
        if setter.params == [] then Stop(IllegalState)
        else
          match CreateField(env, setter.params[0], n, env.depth)
          case Overflow => Stop(StackOverflow)
          case Failed(_) => Stop(IllegalState)
          case Made(x, m) =>
            match Invoke(env.reg, obj, setter, [x])
            case Threw => Stop(IllegalState)
            case Returned(res, o) =>
              if res != Null && !SameInstance(res, obj) then
                Stop(AssertionFailed("Return of setter must match pojo objectUnderTest"))
              else VerifyGetter(env.reg, v.getter.value, o, x, m)
      else if v.getter.Some? then
        match CreateField(env, v.getter.value.ret, n, env.depth)
        case Overflow => Stop(StackOverflow)
        case Failed(_) => Stop(IllegalState)
        case Made(x, m) =>
          match SetObjectField(env.reg, obj, field, x)
          case None => Stop(IllegalState)
          case Some(o) => VerifyGetter(env.reg, v.getter.value, o, x, m)
      else Continue(obj, n)
  }

  /** The loop of testGettersAndSetters from the i-th property (in key order) on. */
  function ExerciseFrom(env: Env, views: map<string, PairView>, keys: seq<string>, i: nat, obj: Value, n: nat): (r: Progress)
    requires i <= |keys| && forall k :: k in keys ==> k in views
    requires IsObject(env.reg, obj)
    decreases |keys| - i
    ensures r.Continue? ==> (n <= r.next && IsObject(env.reg, r.obj) && SameInstance(r.obj, obj)
      && r.obj.data.className == obj.data.className)
  {
    if i == |keys| then Continue(obj, n)
    else
      match ExerciseStep(env, views[keys[i]], keys[i], obj, n)
      case Stop(f) => Stop(f)
      case Continue(o, m) => ExerciseFrom(env, views, keys, i + 1, o, m)
  }

  /** The loop of testGettersAndSetters after its i-th step: stopped, or the rest of it. */
  lemma ExerciseFromStep(env: Env, views: map<string, PairView>, keys: seq<string>, i: nat, obj: Value, n: nat)
    requires i < |keys| && forall k :: k in keys ==> k in views
    requires IsObject(env.reg, obj)
    ensures var step := ExerciseStep(env, views[keys[i]], keys[i], obj, n);
      && (step.Stop? ==> ExerciseFrom(env, views, keys, i, obj, n) == step)
      && (step.Continue? ==> ExerciseFrom(env, views, keys, i, obj, n) == ExerciseFrom(env, views, keys, i + 1, step.obj, step.next))
  {
  }

  /** The keys of a TreeMap with the given key set, in iteration order. */
  ghost function SortedOf(ks: set<string>): (r: seq<string>)
    ensures StrictlySorted(r) && forall k :: k in r <==> k in ks
    decreases |ks|
  {
    if ks == {} then []
    else
      var k :| k in ks;
      InsertSorted(SortedOf(ks - {k}), k)
  }

  /** The run of testGettersAndSetters on an object: the properties discovered on its
      class, exercised in key order. */
  ghost function Exercise(env: Env, ignored: set<string>, obj: Value, n: nat): (r: Progress)
    requires IsObject(env.reg, obj)
    ensures r.Continue? ==> (n <= r.next && IsObject(env.reg, r.obj) && SameInstance(r.obj, obj)
      && r.obj.data.className == obj.data.className)
  {
    var views := Discovered(ClassOf(env.reg, obj).methods, ignored);
    ExerciseFrom(env, views, SortedOf(views.Keys), 0, obj, n)
  }

  // ---------------------------------------------------------------------------
  // testEqualsAndHashcode: the shallow copy, the basic checks, one nullified field at a time

  /** EQUALS_NULLIFY_MAPPER as the static initializer fills it: the boxed Integer 0 for
      every numeric primitive class (char included), false for boolean, null (the
      getOrDefault default) for any other class. */
  function NullifyAsWritten(t: TypeDesc): (v: Value)
    ensures t.Prim? && t.kind != BooleanK ==> v == Num(IntK, 0)
    ensures t.Prim? && t.kind == BooleanK ==> v == Bool(false)
    ensures !t.Prim? ==> v == Null
  {
    if t.Prim? then (if t.kind == BooleanK then Bool(false) else Num(IntK, 0)) else Null
  }

  /** Field.set only unboxes and widens, so the Integer 0 cannot be stored in a byte,
      short or char field: for those the as-written mapper makes setObjectField throw
      IllegalArgumentException, while every other primitive field takes it. */
  lemma NullifyAsWrittenRejected(reg: Registry, t: TypeDesc)
    requires t.Prim?
    ensures Convert(reg, NullifyAsWritten(t), t).None? <==> t.kind in {ByteK, ShortK, CharK}
  {
  }

  /** The evidently intended mapper: the value a field of type t holds before anything is
      written to it. Field.set stores it unchanged, and wherever Field.set accepts the
      as-written value it stores this same value. */
  function NullifyFixed(t: TypeDesc): (v: Value)
    ensures forall reg :: t != VoidT ==> Convert(reg, v, t) == Some(v)
    ensures forall reg :: Convert(reg, NullifyAsWritten(t), t).Some? ==> Convert(reg, NullifyAsWritten(t), t) == Some(v)
  {
    DefaultValue(t)
  }

  /** Which table the per-property loop of testEqualsAndHashcode takes its values from:
      EQUALS_NULLIFY_MAPPER as the source fills it, or the corrected one. */
  datatype NullifyMapper = AsWritten | Corrected

  /** The value a round writes into the field of a property whose getter returns t. */
  function NullifyValue(mapper: NullifyMapper, t: TypeDesc): Value
  {
    match mapper
    case AsWritten => NullifyAsWritten(t)
    case Corrected => NullifyFixed(t)
  }

  /** Field.set turns the mapper's value for t into the zero of t. */
  predicate StoresZero(reg: Registry, mapper: NullifyMapper, t: TypeDesc)
  {
    Convert(reg, NullifyValue(mapper, t), t) == Some(DefaultValue(t))
  }

  /** The corrected mapper stores the zero for every field type; the mapper as written
      does so for every type except byte, short and char. */
  lemma StoresZeroIff(reg: Registry, mapper: NullifyMapper, t: TypeDesc)
    requires t != VoidT
    ensures StoresZero(reg, mapper, t) <==> mapper == Corrected || t !in {Prim(ByteK), Prim(ShortK), Prim(CharK)}
  {
    if t.Prim? {
      NullifyAsWrittenRejected(reg, t);
    }
  }

  /** The outcome of a run of field copies. */
  datatype CopyOutcome = Copied(value: Value) | CopyFailed(failure: Failure)

  /** The fields the properties name (property name with its first letter lower-cased). */
  function FieldsOf(keys: seq<string>): set<string>
  {
    set k | k in keys && k != [] :: FieldName(k)
  }

  /** copyProperties(src, dst) from the i-th property on: for each property in key order,
      getObjectField(src) then setObjectField(dst). A property without a backing field
      throws IllegalArgumentException, a null target NullPointerException, an empty
      property name StringIndexOutOfBoundsException. */
  function CopyFields(reg: Registry, keys: seq<string>, i: nat, src: Value, dst: Value): (r: CopyOutcome)
    requires i <= |keys| && IsObject(reg, src)
    decreases |keys| - i
    ensures r.Copied? && i == |keys| ==> r.value == dst
    ensures r.Copied? && i < |keys| ==>
      IsObject(reg, r.value) && IsObject(reg, dst) && SameInstance(r.value, dst)
      && r.value.data.className == dst.data.className
  {
    if i == |keys| then Copied(dst)
    else if keys[i] == [] then CopyFailed(IndexOutOfBounds)
    else
      var f := FieldName(keys[i]);
      match GetObjectField(reg, src, f)
      case None => CopyFailed(IllegalArgument)
      case Some(v) =>
        if dst == Null then CopyFailed(NullPointer)
        else if !IsObject(reg, dst) then CopyFailed(IllegalArgument)
        else
          match SetObjectField(reg, dst, f, v)
          case None => CopyFailed(IllegalArgument)
          case Some(d) => CopyFields(reg, keys, i + 1, src, d)
  }

  /** Every declared field holds a value of its declared type. */
  predicate WellTyped(reg: Registry, obj: Value)
  {
    IsObject(reg, obj) &&
    forall f :: f in ClassOf(reg, obj).fields ==> Conforms(reg, FieldValue(reg, obj, f), ClassOf(reg, obj).fields[f])
  }

  /** A copy between two objects of one class makes every named field of the target equal
      to the source's and leaves every other field of the target as it was. */
  lemma {:induction false} CopyFieldsCopies(reg: Registry, keys: seq<string>, i: nat, src: Value, dst: Value)
    requires i <= |keys| && WellTyped(reg, src) && IsObject(reg, dst)
    requires dst.data.className == src.data.className
    requires CopyFields(reg, keys, i, src, dst).Copied?
    decreases |keys| - i
    ensures var d := CopyFields(reg, keys, i, src, dst).value;
      && IsObject(reg, d) && d.data.className == src.data.className && d.id == dst.id
      && (forall k :: k in keys[i..] ==>
            (k != [] && FieldName(k) in ClassOf(reg, src).fields
             && FieldValue(reg, d, FieldName(k)) == FieldValue(reg, src, FieldName(k))))
      && (forall f :: f in ClassOf(reg, dst).fields && f !in FieldsOf(keys[i..]) ==>
            FieldValue(reg, d, f) == FieldValue(reg, dst, f))
  {
    if i < |keys| {
      var f := FieldName(keys[i]);
      var v := GetObjectField(reg, src, f).value;
      var d1 := SetObjectField(reg, dst, f, v).value;
      assert Convert(reg, v, ClassOf(reg, src).fields[f]) == Some(v);
      CopyFieldsCopies(reg, keys, i + 1, src, d1);
      var d := CopyFields(reg, keys, i, src, dst).value;
      assert keys[i..] == [keys[i]] + keys[i + 1..];
      assert FieldsOf(keys[i..]) == {f} + FieldsOf(keys[i + 1..]);
      forall k | k in keys[i..]
        ensures k != [] && FieldName(k) in ClassOf(reg, src).fields
          && FieldValue(reg, d, FieldName(k)) == FieldValue(reg, src, FieldName(k))
      {
        if k !in keys[i + 1..] {
          assert k == keys[i];
          if FieldName(k) !in FieldsOf(keys[i + 1..]) {
            assert FieldValue(reg, d, f) == FieldValue(reg, d1, f);
          } else {
            var k' :| k' in keys[i + 1..] && k' != [] && FieldName(k') == FieldName(k);
          }
        }
      }
    }
  }

  /** A well-typed object copies onto another object of its class without failure, as
      long as every property is backed by a field of its name. */
  lemma {:induction false} CopyFieldsSucceeds(reg: Registry, keys: seq<string>, i: nat, src: Value, dst: Value)
    requires i <= |keys| && WellTyped(reg, src) && IsObject(reg, dst)
    requires dst.data.className == src.data.className
    requires forall k :: k in keys ==> k != [] && FieldName(k) in ClassOf(reg, src).fields
    decreases |keys| - i
    ensures CopyFields(reg, keys, i, src, dst).Copied?
  {
    if i < |keys| {
      assert keys[i] in keys;
      var f := FieldName(keys[i]);
      assert Convert(reg, FieldValue(reg, src, f), ClassOf(reg, src).fields[f]).Some?;
      CopyFieldsSucceeds(reg, keys, i + 1, src, SetObjectField(reg, dst, f, FieldValue(reg, src, f)).value);
    }
  }

  /** getAnObjectCopy: a new object of the same class, made as createField makes any
      field value, with every property's field copied from the original. */
  function ObjectCopy(env: Env, keys: seq<string>, obj: Value, n: nat): (r: Progress)
    requires IsObject(env.reg, obj)
    ensures r.Continue? ==> n <= r.next
    ensures r.Continue? && keys != [] ==> IsObject(env.reg, r.obj)
  {
    match CreateField(env, ClassT(obj.data.className), n, env.depth)
    case Overflow => Stop(StackOverflow)
    case Failed(_) => Stop(IllegalState)
    case Made(c, m) =>
      match CopyFields(env.reg, keys, 0, obj, c)
      case CopyFailed(f) => Stop(f)
      case Copied(d) => Continue(d, m)
  }

  /** The first five assertions: equal to itself, unequal to a new Object, equal to the
      copy both ways round, and the same hash code as the copy. */
  function BasicChecks(reg: Registry, h: Hashing, obj: Value, copy: Value, alloc: nat): (r: Option<Failure>)
    requires IsObject(reg, obj)
    ensures r.None? <==> (IsMatch(reg, obj, obj) && !Equals(reg, obj, Ref(alloc, ObjD(ObjectClass, map[])))
      && IsMatch(reg, obj, copy) && IsMatch(reg, copy, obj) && HashCode(reg, h, obj) == HashCode(reg, h, copy))
    ensures r.Some? ==> r.value.AssertionFailed?
  {
    if !IsMatch(reg, obj, obj) then Some(AssertionFailed("Equality matches with self"))
    else if Equals(reg, obj, Ref(alloc, ObjD(ObjectClass, map[]))) then Some(AssertionFailed("Not equals with other object"))
    else if !IsMatch(reg, obj, copy) || !IsMatch(reg, copy, obj) then
      Some(AssertionFailed("Equality matches with other object of same properties"))
    else if HashCode(reg, h, obj) != HashCode(reg, h, copy) then Some(AssertionFailed("Hashcode matches"))
    else None
  }

  /** The copy after one property's round, or the failure that ends the loop. */
  datatype Nullified = NextCopy(copy: Value) | NullifyFailed(failure: Failure)

  /** One round for a property that is not ignored: reset the copy to the original,
      write the mapper's value for the getter's return type into the property's field,
      and require the copy to be unequal to the original and to hash differently. A
      property without a getter throws NullPointerException, a value Field.set refuses
      IllegalArgumentException. */
  function NullifyOne(mapper: NullifyMapper, env: Env, h: Hashing, keys: seq<string>, obj: Value, copy: Value,
                      field: string, getter: Option<JMethod>): (r: Nullified)
    requires IsObject(env.reg, obj) && keys != []
    ensures r.NextCopy? ==> (IsObject(env.reg, r.copy) && !IsMatch(env.reg, obj, r.copy)
      && HashCode(env.reg, h, obj) != HashCode(env.reg, h, r.copy))
  {
    match CopyFields(env.reg, keys, 0, obj, copy)
    case CopyFailed(f) => NullifyFailed(f)
    case Copied(c) =>
      if getter.None? then NullifyFailed(NullPointer)
      else
        match SetObjectField(env.reg, c, field, NullifyValue(mapper, getter.value.ret))
        case None => NullifyFailed(IllegalArgument)
        case Some(c') =>
          if IsMatch(env.reg, obj, c') then
            NullifyFailed(AssertionFailed("Must not be equal with object of different property"))
          else if HashCode(env.reg, h, obj) == HashCode(env.reg, h, c') then
            NullifyFailed(AssertionFailed("Hash code must not same with object of different property"))
          else NextCopy(c')
  }

  /** The per-property loop from the i-th property on, skipping the fields listed to be
      ignored. */
  function NullifyFrom(mapper: NullifyMapper, env: Env, h: Hashing, ignoredEq: set<string>, views: map<string, PairView>,
                       keys: seq<string>, i: nat, obj: Value, copy: Value): (r: Option<Failure>)
    requires i <= |keys| && forall k :: k in keys ==> k in views
    requires IsObject(env.reg, obj)
    decreases |keys| - i
  {
    if i == |keys| then None
    else if keys[i] == [] then Some(IndexOutOfBounds)
    else
      var field := FieldName(keys[i]);
      if field in ignoredEq then NullifyFrom(mapper, env, h, ignoredEq, views, keys, i + 1, obj, copy)
      else
        match NullifyOne(mapper, env, h, keys, obj, copy, field, views[keys[i]].getter)
        case NullifyFailed(f) => Some(f)
        case NextCopy(c) => NullifyFrom(mapper, env, h, ignoredEq, views, keys, i + 1, obj, c)
  }

  /** testEqualsAndHashcode on an object whose properties are `views`, visited in the
      order of `keys`: the copy, the basic checks (the new Object takes the next
      allocation), then the per-property loop with the given nullify mapper. It leaves the
      object unchanged. */
  function EqualityCheckOn(mapper: NullifyMapper, env: Env, h: Hashing, ignoredEq: set<string>, views: map<string, PairView>,
                           keys: seq<string>, obj: Value, n: nat): (r: Progress)
    requires IsObject(env.reg, obj) && forall k :: k in keys ==> k in views
    ensures r.Continue? ==> r.obj == obj && n < r.next
  {
    match ObjectCopy(env, keys, obj, n)
    case Stop(f) => Stop(f)
    case Continue(copy, m) =>
      match BasicChecks(env.reg, h, obj, copy, m)
      case Some(f) => Stop(f)
      case None =>
        match NullifyFrom(mapper, env, h, ignoredEq, views, keys, 0, obj, copy)
        case Some(f) => Stop(f)
        case None => Continue(obj, m + 1)
  }

  /** testEqualsAndHashcode on an object: its properties as discovered on its class, in
      key order. */
  ghost function EqualityCheck(mapper: NullifyMapper, env: Env, h: Hashing, ignoredGet: set<string>, ignoredEq: set<string>,
                               obj: Value, n: nat): Progress
    requires IsObject(env.reg, obj)
  {
    var views := Discovered(ClassOf(env.reg, obj).methods, ignoredGet);
    EqualityCheckOn(mapper, env, h, ignoredEq, views, SortedOf(views.Keys), obj, n)
  }

  class PojoTester {
    /** The class registry, the suppliers (custom ones in env.custom, the defaults
        implied), the Random/clock readings, the constructor bodies and the stack size. */
    const env: Env
    /** Identity hash codes. */
    const hashing: Hashing
    /** The class under test. */
    const clazz: string
    const ignoredGetMethods: set<string>
    const ignoredEqualsAndHash: set<string>
    var objectUnderTest: Value
    /** How many Random draws and allocations have happened so far. */
    var tick: nat

    /** The object under test is an instance of a registry class, allocated already. */
    predicate Valid()
      reads this
    {
      IsObject(env.reg, objectUnderTest) && objectUnderTest.id < tick
    }

    /** The field initialisation of the Java constructor: the ignored getter names always
        include getClass, a null set of names to leave out of the equality check is an
        empty one. The mapper table check and setObjectUnderTest follow in Create. */
    constructor (clazz: string, env: Env, hashing: Hashing, ignoredGetMethods: Option<set<string>>,
                 ignoredEqualsAndHash: Option<set<string>>, tick: nat)
      ensures this.env == env && this.hashing == hashing && this.clazz == clazz
      ensures this.ignoredGetMethods == (if ignoredGetMethods.Some? then ignoredGetMethods.value else {}) + {"getClass"}
      ensures this.ignoredEqualsAndHash == (if ignoredEqualsAndHash.Some? then ignoredEqualsAndHash.value else {})
      ensures objectUnderTest == Null && this.tick == tick
    {
      this.env := env;
      this.hashing := hashing;
      this.clazz := clazz;
      var ignored: set<string> := {};
      if ignoredGetMethods.Some? {
        ignored := ignored + ignoredGetMethods.value;
      }
      ignored := ignored + {"getClass"};
      this.ignoredGetMethods := ignored;
      this.ignoredEqualsAndHash := if ignoredEqualsAndHash.Some? then ignoredEqualsAndHash.value else {};
      objectUnderTest := Null;
      this.tick := tick;
    }

    /** The argument loop of a constructor attempt: consArgs[i] = createField(...) for
        each parameter in turn; the first failure ends it. */
    method SynthesizeArgs(params: seq<TypeDesc>) returns (out: ArgsOutcome)
      ensures out == Args(env, params, tick, env.depth)
    {
      var done: seq<Value> := [];
      var n := tick;
      var j := 0;
      while j < |params|
        invariant 0 <= j <= |params|
        invariant Args(env, params, tick, env.depth) == Prepend(done, Args(env, params[j..], n, env.depth))
      {
        assert params[j..][0] == params[j] && params[j..][1..] == params[j + 1..];
        var r := CreateField(env, params[j], n, env.depth);
        if r.Overflow? {
          return ArgsOverflow;
        } else if r.Failed? {
          return ArgsFailed(r.next);
        }
        var rest := Args(env, params[j + 1..], r.next, env.depth);
        if rest.ArgsMade? {
          assert done + ([r.value] + rest.values) == (done + [r.value]) + rest.values;
        }
        done := done + [r.value];
        n := r.next;
        j := j + 1;
      }
      out := ArgsMade(done, n);
    }

    /** setObjectUnderTest: tries every declared constructor with synthesized arguments,
        ignores the ones that throw and keeps the object of the last one that succeeded;
        IllegalStateException when none did. */
    method SetObjectUnderTest() returns (failure: Option<Failure>)
      modifies this
      requires objectUnderTest == Null
      ensures var r := TryAll(env, clazz, ConstructorsOf(env.reg, clazz), 0, old(tick), Null);
        && (r.SetupOverflow? ==> failure == Some(StackOverflow))
        && (r.SetUp? && r.obj == Null ==> failure == Some(IllegalState))
        && (r.SetUp? && r.obj != Null ==> failure == None && objectUnderTest == r.obj && tick == r.next)
      ensures failure == None ==> Valid()
    {
      var ctors := ConstructorsOf(env.reg, clazz);
      var i := 0;
      while i < |ctors|
        invariant 0 <= i <= |ctors|
        invariant old(tick) <= tick
        invariant TryAll(env, clazz, ctors, 0, old(tick), Null) == TryAll(env, clazz, ctors, i, tick, objectUnderTest)
        invariant objectUnderTest != Null ==> IsObject(env.reg, objectUnderTest) && objectUnderTest.id < tick
      {
        var args := SynthesizeArgs(ctors[i].params);
        if args.ArgsOverflow? {
          return Some(StackOverflow);
        }
        tick := args.next;
        if args.ArgsMade? {
          var actuals := ConvertArgs(env.reg, args.values, ctors[i].params);
          if actuals.Some? {
            var store := env.construct(clazz, i, actuals.value);
            if store.Some? {
              objectUnderTest := Ref(tick, ObjD(clazz, store.value));
              tick := tick + 1;
            }
          }
        }
        i := i + 1;
      }
      if objectUnderTest == Null {
        return Some(IllegalState);
      }
      failure := None;
    }

    /** verifyGetter on the object under test. */
    method CheckGetter(getter: JMethod, expected: Value) returns (failure: Option<Failure>)
      modifies this
      requires Valid()
      ensures var r := VerifyGetter(env.reg, getter, old(objectUnderTest), expected, old(tick));
        && (r.Stop? ==> failure == Some(r.failure))
        && (r.Continue? ==> failure == None && objectUnderTest == r.obj && tick == r.next)
      ensures failure == None ==> Valid()
    {
      var inv := Invoke(env.reg, objectUnderTest, getter, []);
      if inv.Threw? {
        return Some(IllegalState);
      }
      var matched := if IsPrimitive(getter.ret) then IsMatch(env.reg, expected, inv.result)
                     else SameInstance(expected, inv.result);
      if !matched {
        return Some(AssertionFailed("is different"));
      }
      objectUnderTest := inv.target;
      failure := None;
    }

    /** One pass of the loop body of testGettersAndSetters. */
    method ExercisePair(key: string, pair: GetterSetterPair) returns (failure: Option<Failure>)
      modifies this
      requires Valid()
      ensures var r := ExerciseStep(env, pair.View(), key, old(objectUnderTest), old(tick));
        && (r.Stop? ==> failure == Some(r.failure))
        && (r.Continue? ==> failure == None && objectUnderTest == r.obj && tick == r.next)
      ensures failure == None ==> Valid()
    {
      if key == [] {
        return Some(IllegalState);
      }
      var fieldName := FieldName(key);
      if pair.HasGetterAndSetter() {
        var setter := pair.GetSetter().value;
        if setter.params == [] {
          return Some(IllegalState);
        }
        var made := CreateField(env, setter.params[0], tick, env.depth);
        if made.Overflow? {
          return Some(StackOverflow);
        } else if made.Failed? {
          return Some(IllegalState);
        }
        var inv := Invoke(env.reg, objectUnderTest, setter, [made.value]);
        if inv.Threw? {
          return Some(IllegalState);
        }
        if inv.result != Null && !SameInstance(inv.result, objectUnderTest) {
          return Some(AssertionFailed("Return of setter must match pojo objectUnderTest"));
        }
        objectUnderTest := inv.target;
        tick := made.next;
        failure := CheckGetter(pair.GetGetter().value, made.value);
      } else if pair.GetGetter().Some? {
        var getter := pair.GetGetter().value;
        var made := CreateField(env, getter.ret, tick, env.depth);
        if made.Overflow? {
          return Some(StackOverflow);
        } else if made.Failed? {
          return Some(IllegalState);
        }
        var written := SetObjectField(env.reg, objectUnderTest, fieldName, made.value);
        if written.None? {
          return Some(IllegalState);
        }
        objectUnderTest := written.value;
        tick := made.next;
        failure := CheckGetter(getter, made.value);
      } else {
        failure := None;
      }
    }

    /** testGettersAndSetters: discover the properties of the object under test and
        exercise each, in key order, until one fails. */
    method TestGettersAndSetters() returns (failure: Option<Failure>)
      modifies this
      requires Valid()
      ensures var r := Exercise(env, ignoredGetMethods, old(objectUnderTest), old(tick));
        && (r.Stop? ==> failure == Some(r.failure))
        && (r.Continue? ==> failure == None && objectUnderTest == r.obj && tick == r.next)
      ensures failure == None ==> Valid()
    {
      var pairs, keys := GetGetterSettersPair(ClassOf(env.reg, objectUnderTest).methods, ignoredGetMethods);
      ghost var views := Views(pairs);
      SortedUnique(keys, SortedOf(views.Keys));
      failure := ExercisePairs(pairs, keys, views);
    }

    /** The loop of testGettersAndSetters over the pairs, in the order of `keys`. */
    method ExercisePairs(pairs: map<string, GetterSetterPair>, keys: seq<string>, ghost views: map<string, PairView>)
      returns (failure: Option<Failure>)
      modifies this
      requires Valid()
      requires forall k :: k in keys ==> k in pairs && k in views && pairs[k].View() == views[k]
      ensures var r := ExerciseFrom(env, views, keys, 0, old(objectUnderTest), old(tick));
        && (r.Stop? ==> failure == Some(r.failure))
        && (r.Continue? ==> failure == None && objectUnderTest == r.obj && tick == r.next)
      ensures failure == None ==> Valid()
    {
      var i := 0;
      while i < |keys|
        invariant 0 <= i <= |keys|
        invariant Valid()
        invariant ExerciseFrom(env, views, keys, 0, old(objectUnderTest), old(tick))
          == ExerciseFrom(env, views, keys, i, objectUnderTest, tick)
      {
        assert keys[i] in keys;
        ExerciseFromStep(env, views, keys, i, objectUnderTest, tick);
        failure := ExercisePair(keys[i], pairs[keys[i]]);
        if failure.Some? {
          return;
        }
        i := i + 1;
      }
      failure := None;
    }

    /** copyProperties(objectUnderTest, target) over the given property names. */
    method CopyProperties(keys: seq<string>, target: Value) returns (out: CopyOutcome)
      requires Valid()
      ensures out == CopyFields(env.reg, keys, 0, objectUnderTest, target)
    {
      var dst := target;
      var i := 0;
      while i < |keys|
        invariant 0 <= i <= |keys|
        invariant CopyFields(env.reg, keys, 0, objectUnderTest, target) == CopyFields(env.reg, keys, i, objectUnderTest, dst)
      {
        if keys[i] == [] {
          return CopyFailed(IndexOutOfBounds);
        }
        var fieldName := FieldName(keys[i]);
        var value := GetObjectField(env.reg, objectUnderTest, fieldName);
        if value.None? {
          return CopyFailed(IllegalArgument);
        }
        if dst == Null {
          return CopyFailed(NullPointer);
        } else if !IsObject(env.reg, dst) {
          return CopyFailed(IllegalArgument);
        }
        var written := SetObjectField(env.reg, dst, fieldName, value.value);
        if written.None? {
          return CopyFailed(IllegalArgument);
        }
        dst := written.value;
        i := i + 1;
      }
      out := Copied(dst);
    }

    /** getAnObjectCopy(objectUnderTest). */
    method GetAnObjectCopy(keys: seq<string>) returns (out: Progress)
      requires Valid()
      ensures out == ObjectCopy(env, keys, objectUnderTest, tick)
    {
      var made := CreateField(env, ClassT(objectUnderTest.data.className), tick, env.depth);
      if made.Overflow? {
        return Stop(StackOverflow);
      } else if made.Failed? {
        return Stop(IllegalState);
      }
      var copied := CopyProperties(keys, made.value);
      if copied.CopyFailed? {
        return Stop(copied.failure);
      }
      out := Continue(copied.value, made.next);
    }

    /** One round of the per-property loop of testEqualsAndHashcode, writing the value
        EQUALS_NULLIFY_MAPPER holds. */
    method NullifyProperty(keys: seq<string>, fieldName: string, getter: Option<JMethod>, copy: Value)
      returns (out: Nullified)
      requires Valid() && keys != []
      ensures out == NullifyOne(AsWritten, env, hashing, keys, objectUnderTest, copy, fieldName, getter)
    {
      var reset := CopyProperties(keys, copy);
      if reset.CopyFailed? {
        return NullifyFailed(reset.failure);
      }
      if getter.None? {
        return NullifyFailed(NullPointer);
      }
      var nullified := SetObjectField(env.reg, reset.value, fieldName, NullifyAsWritten(getter.value.ret));
      if nullified.None? {
        return NullifyFailed(IllegalArgument);
      }
      if IsMatch(env.reg, objectUnderTest, nullified.value) {
        return NullifyFailed(AssertionFailed("Must not be equal with object of different property"));
      }
      if HashCode(env.reg, hashing, objectUnderTest) == HashCode(env.reg, hashing, nullified.value) {
        return NullifyFailed(AssertionFailed("Hash code must not same with object of different property"));
      }
      out := NextCopy(nullified.value);
    }

    /** The per-property loop of testEqualsAndHashcode over the discovered pairs. */
    method NullifyLoop(pairs: map<string, GetterSetterPair>, keys: seq<string>, start: Value)
      returns (failure: Option<Failure>)
      requires Valid() && forall k :: k in keys ==> k in pairs
      ensures failure == NullifyFrom(AsWritten, env, hashing, ignoredEqualsAndHash, Views(pairs), keys, 0, objectUnderTest, start)
    {
      var copy := start;
      var i := 0;
      while i < |keys|
        invariant 0 <= i <= |keys|
        invariant NullifyFrom(AsWritten, env, hashing, ignoredEqualsAndHash, Views(pairs), keys, 0, objectUnderTest, start)
          == NullifyFrom(AsWritten, env, hashing, ignoredEqualsAndHash, Views(pairs), keys, i, objectUnderTest, copy)
      {
        if keys[i] == [] {
          return Some(IndexOutOfBounds);
        }
        var fieldName := FieldName(keys[i]);
        if fieldName !in ignoredEqualsAndHash {
          var round := NullifyProperty(keys, fieldName, pairs[keys[i]].GetGetter(), copy);
          if round.NullifyFailed? {
            return Some(round.failure);
          }
          copy := round.copy;
        }
        i := i + 1;
      }
      failure := None;
    }

    /** The body of testEqualsAndHashcode once the properties are discovered. */
    method RunEqualityCheck(pairs: map<string, GetterSetterPair>, keys: seq<string>) returns (r: Progress)
      requires Valid() && forall k :: k in keys ==> k in pairs
      ensures r == EqualityCheckOn(AsWritten, env, hashing, ignoredEqualsAndHash, Views(pairs), keys, objectUnderTest, tick)
    {
      var copied := GetAnObjectCopy(keys);
      if copied.Stop? {
        return Stop(copied.failure);
      }
      var copy := copied.obj;
      var basic := BasicChecks(env.reg, hashing, objectUnderTest, copy, copied.next);
      if basic.Some? {
        return Stop(basic.value);
      }
      var failure := NullifyLoop(pairs, keys, copied.obj);
      if failure.Some? {
        return Stop(failure.value);
      }
      r := Continue(objectUnderTest, copied.next + 1);
    }

    /** testEqualsAndHashcode: compare the object under test with a shallow copy, then
        with the copy after nullifying one property at a time. */
    method TestEqualsAndHashcode() returns (failure: Option<Failure>)
      modifies this
      requires Valid()
      ensures var r := EqualityCheck(AsWritten, env, hashing, ignoredGetMethods, ignoredEqualsAndHash, old(objectUnderTest), old(tick));
        && (r.Stop? ==> failure == Some(r.failure))
        && (r.Continue? ==> failure == None && tick == r.next)
      ensures objectUnderTest == old(objectUnderTest) && Valid()
    {
      var pairs, keys := GetGetterSettersPair(ClassOf(env.reg, objectUnderTest).methods, ignoredGetMethods);
      ghost var views := Views(pairs);
      SortedUnique(keys, SortedOf(views.Keys));
      var r := RunEqualityCheck(pairs, keys);
      if r.Stop? {
        return Some(r.failure);
      }
      tick := r.next;
      failure := None;
    }
  }

  // ---------------------------------------------------------------------------
  // Construction and the static entry points

  /** The getter names a tester skips: the ones given (none for null) and getClass. */
  function IgnoredGetters(ignore: Option<set<string>>): (r: set<string>)
    ensures "getClass" in r
    ensures forall m :: m in r <==> m == "getClass" || (ignore.Some? && m in ignore.value)
  {
    (if ignore.Some? then ignore.value else {}) + {"getClass"}
  }

  /** What the PojoTester constructor does beyond field initialisation: build the mapper
      table (a custom supplier for a class the defaults cover throws
      IllegalArgumentException), then setObjectUnderTest. */
  function Construction(env: Env, clazz: string, n: nat): (r: Progress)
    ensures r.Continue? ==> IsObject(env.reg, r.obj) && r.obj.data.className == clazz && n <= r.obj.id < r.next
    ensures BuildMappers(env.custom).None? ==> r == Stop(IllegalArgument)
    ensures ConstructorsOf(env.reg, clazz) == [] && BuildMappers(env.custom).Some? ==> r == Stop(IllegalState)
  {
    if BuildMappers(env.custom).None? then Stop(IllegalArgument)
    else
      TryAllMakes(env, clazz, ConstructorsOf(env.reg, clazz), 0, n, Null);
      match TryAll(env, clazz, ConstructorsOf(env.reg, clazz), 0, n, Null)
      case SetupOverflow => Stop(StackOverflow)
      case SetUp(o, m) => if o == Null then Stop(IllegalState) else Continue(o, m)
  }

  /** validate(clazz, customMappers, ignoreFields): construct the tester, then
      testGettersAndSetters; true (Continue) unless something is thrown. */
  ghost function ValidateRun(env: Env, clazz: string, ignoreFields: Option<set<string>>, n: nat): Progress
  {
    match Construction(env, clazz, n)
    case Stop(f) => Stop(f)
    case Continue(o, m) => Exercise(env, IgnoredGetters(ignoreFields), o, m)
  }

  /** validateWithEqualsAndHashcode(clazz, customMappers, ignoreFields, ignoredEqualsAndHash):
      the same, followed by testEqualsAndHashcode with the given nullify mapper (the
      source's is AsWritten). */
  ghost function ValidateWithEqualsRun(mapper: NullifyMapper, env: Env, h: Hashing, clazz: string,
                                       ignoreFields: Option<set<string>>, ignoredEqualsAndHash: Option<set<string>>,
                                       n: nat): Progress
  {
    match ValidateRun(env, clazz, ignoreFields, n)
    case Stop(f) => Stop(f)
    case Continue(o, m) =>
      EqualityCheck(mapper, env, h, IgnoredGetters(ignoreFields),
                    if ignoredEqualsAndHash.Some? then ignoredEqualsAndHash.value else {}, o, m)
  }

  /** new PojoTester(clazz, customMappers, ignoredGetMethods, ignoredEqualsAndHash): the
      suppliers are those of `env` (the custom ones in env.custom, none for null). */
  method Create(clazz: string, env: Env, h: Hashing, ignoredGet: Option<set<string>>,
                ignoredEq: Option<set<string>>, tick: nat) returns (tester: PojoTester?, failure: Option<Failure>)
    ensures var r := Construction(env, clazz, tick);
      && (r.Stop? ==> tester == null && failure == Some(r.failure))
      && (r.Continue? ==> (failure == None && tester != null && fresh(tester) && tester.Valid()
            && tester.objectUnderTest == r.obj && tester.tick == r.next))
    ensures tester != null ==> (tester.env == env && tester.hashing == h && tester.clazz == clazz
      && tester.ignoredGetMethods == IgnoredGetters(ignoredGet)
      && tester.ignoredEqualsAndHash == (if ignoredEq.Some? then ignoredEq.value else {}))
  {
    if BuildMappers(env.custom).None? {
      return null, Some(IllegalArgument);
    }
    var t := new PojoTester(clazz, env, h, ignoredGet, ignoredEq, tick);
    failure := t.SetObjectUnderTest();
    tester := if failure.None? then t else null;
  }

  /** validate(clazz, customMappers, ignoreFields). */
  method Validate(clazz: string, env: Env, h: Hashing, ignoreFields: Option<set<string>>, tick: nat)
    returns (failure: Option<Failure>)
    ensures var r := ValidateRun(env, clazz, ignoreFields, tick);
      failure == if r.Stop? then Some(r.failure) else None
  {
    var tester, f := Create(clazz, env, h, ignoreFields, None, tick);
    if f.Some? {
      return f;
    }
    failure := tester.TestGettersAndSetters();
  }

  /** validateWithEqualsAndHashcode(clazz, customMappers, ignoreFields, ignoredEqualsAndHash). */
  method ValidateWithEqualsAndHashcode(clazz: string, env: Env, h: Hashing, ignoreFields: Option<set<string>>,
                                       ignoredEqualsAndHash: Option<set<string>>, tick: nat)
    returns (failure: Option<Failure>)
    ensures var r := ValidateWithEqualsRun(AsWritten, env, h, clazz, ignoreFields, ignoredEqualsAndHash, tick);
      failure == if r.Stop? then Some(r.failure) else None
  {
    var tester, f := Create(clazz, env, h, ignoreFields, ignoredEqualsAndHash, tick);
    if f.Some? {
      return f;
    }
    failure := tester.TestGettersAndSetters();
    if failure.Some? {
      return;
    }
    failure := tester.TestEqualsAndHashcode();
  }

  /** validateWithEqualsAndHashcode(clazz, ignoreFields): no custom suppliers, and the
      names given are the fields to leave out of the equality check, not getters. */
  method ValidateWithEqualsAndHashcodeIgnoring(clazz: string, env: Env, h: Hashing, ignoreFields: set<string>, tick: nat)
    returns (failure: Option<Failure>)
    requires env.custom == map[]
    ensures var r := ValidateWithEqualsRun(AsWritten, env, h, clazz, None, Some(ignoreFields), tick);
      failure == if r.Stop? then Some(r.failure) else None
  {
    failure := ValidateWithEqualsAndHashcode(clazz, env, h, None, Some(ignoreFields), tick);
  }
}
