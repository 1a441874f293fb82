/** Value synthesis (PojoTester.createField with getArrayField,
    createFldUsingDftConstructor and createFldUsingOtherConstructor, and the
    DEFAULT_MAPPERS supplier table). A recursive decision chain: array, then mapper,
    then first enum constant, then the public no-argument constructor, then the first
    declared constructor whose arguments can be synthesized. */
module Synthesis {
  import opened Wrappers
  import opened JavaLang
  import opened Reflection

  /** What a synthesis run may consult. `entropy(n)` is what the shared Random (or the
      clock) yields at step n; `construct(c, i, args)` is the body of the i-th declared
      constructor of class c, which either throws (None) or leaves the object with the
      given field values; `depth` is how many nested createField calls fit on the Java
      stack. */
  datatype Env = Env(
    reg: Registry,
    custom: map<TypeDesc, Value>,
    entropy: nat -> int,
    construct: (string, nat, seq<Value>) -> Option<map<string, Value>>,
    depth: nat)

  /** The outcome of an attempt. `next` is the step counter afterwards: it numbers Random
      draws and allocations, so failed attempts still use up the draws they made.
      Overflow is the StackOverflowError of an unbounded recursion, which no
      `catch (Exception)` stops. */
  datatype Synth = Made(value: Value, next: nat) | Failed(next: nat) | Overflow

  /** The outcome of synthesizing a constructor's arguments left to right. */
  datatype ArgsOutcome = ArgsMade(values: seq<Value>, next: nat) | ArgsFailed(next: nat) | ArgsOverflow

  // ---------------------------------------------------------------------------
  // The mapper tables

  /** The classes DEFAULT_MAPPERS has a supplier for. */
  predicate IsDefaultKey(t: TypeDesc)
  {
    t.Prim? || t.Boxed? || t in {StringT, BigDecimalT, DateT, LocalDateTimeT, SetT, ListT, MapT}
  }

  /** nextInt(bound) at step n: some value in [0, bound). */
  function Draw(entropy: nat -> int, n: nat, bound: nat): (d: nat)
    requires bound > 0
    ensures d < bound
  {
    entropy(n) % bound
  }

  /** String.valueOf(random.nextInt(32767)). */
  function RandomDigits(entropy: nat -> int, n: nat): string
  {
    DecimalString(Draw(entropy, n, 32767))
  }

  /** The supplier of DEFAULT_MAPPERS for t, run at step n. */
  function DefaultSupply(t: TypeDesc, entropy: nat -> int, n: nat): (r: Synth)
    requires IsDefaultKey(t)
    ensures r.Made? && n <= r.next <= n + 1
    ensures r.value.Ref? ==> r.value.id == n && r.next == n + 1
    ensures t.Prim? && t.kind in {IntK, ShortK, LongK, DoubleK, FloatK} ==>
      r.value.Num? && r.value.kind == t.kind && 1 <= r.value.n <= 32767
    ensures t.Prim? && t.kind in {ByteK, CharK} ==>
      r.value.Num? && r.value.kind == t.kind && 1 <= r.value.n <= 127
    ensures t == Prim(BooleanK) || t == Boxed(BooleanK) ==> r.value == Bool(true)
    ensures t.Boxed? && t.kind != BooleanK ==> r.value == Num(t.kind, 0)
    ensures t == StringT ==> r.value.Ref? && r.value.data.StrD? && AllDigits(r.value.data.s) && 1 <= |r.value.data.s| <= 5
    ensures t == MapT ==> r.value.Ref? && r.value.data.MapD? && |r.value.data.entries| == 1 && r.value.data.entries[0].0 == "1"
    ensures t in {SetT, ListT} ==> r.value.Ref? && (r.value.data.SetD? || r.value.data.ListD?) && |r.value.data.elems| == 1
    ensures r.value != Null && forall reg :: Conforms(reg, r.value, t)
  {
    assert Pow10(5) == 100000;
    DecimalLength(Draw(entropy, n, 32767), 5);
    match t
    case Prim(k) =>
      if k == BooleanK then Made(Bool(true), n)
      else if k == ByteK || k == CharK then Made(Num(k, 1 + Draw(entropy, n, 127)), n + 1)
      else Made(Num(k, 1 + Draw(entropy, n, 32767)), n + 1)
    case Boxed(k) => if k == BooleanK then Made(Bool(true), n) else Made(Num(k, 0), n)
    case StringT => Made(Ref(n, StrD(RandomDigits(entropy, n))), n + 1)
    case BigDecimalT => Made(DecimalOne, n)
    case DateT => Made(Ref(n, DateD(entropy(n))), n + 1)
    case LocalDateTimeT => Made(Ref(n, DateTimeD(entropy(n))), n + 1)
    case SetT => Made(Ref(n, SetD([RandomDigits(entropy, n)])), n + 1)
    case ListT => Made(Ref(n, ListD([RandomDigits(entropy, n)])), n + 1)
    case MapT => Made(Ref(n, MapD([("1", RandomDigits(entropy, n))])), n + 1)
  }

  /** The mapper table of one tester: ImmutableMap.builder().putAll(custom)
      .putAll(DEFAULT_MAPPERS).build() refuses a key given twice, so a custom supplier for
      a class DEFAULT_MAPPERS already covers is an IllegalArgumentException (None), not
      an override. */
  function BuildMappers(custom: map<TypeDesc, Value>): (r: Option<map<TypeDesc, Value>>)
    ensures r.Some? <==> forall t :: t in custom ==> !IsDefaultKey(t)
    ensures r.Some? ==> r.value == custom
  {
    if exists t :: t in custom && IsDefaultKey(t) then None else Some(custom)
  }

  /** mappers.get(clazz).get(): the custom table, then the defaults (disjoint once built). */
  function Supplier(env: Env, t: TypeDesc, n: nat): (r: Option<Synth>)
    ensures r.Some? <==> t in env.custom || IsDefaultKey(t)
    ensures t in env.custom ==> r == Some(Made(env.custom[t], n))
    ensures r.Some? ==> r.value.Made? && n <= r.value.next
    ensures r.Some? && t !in env.custom && r.value.value.Ref? ==> n <= r.value.value.id < r.value.next
  {
    if t in env.custom then Some(Made(env.custom[t], n))
    else if IsDefaultKey(t) then Some(DefaultSupply(t, env.entropy, n))
    else None
  }

  // ---------------------------------------------------------------------------
  // Arrays

  /** The innermost element type of a (possibly nested) array type. */
  function BaseType(t: TypeDesc): (b: TypeDesc)
    ensures !b.ArrayOf?
  {
    if t.ArrayOf? then BaseType(t.elem) else t
  }

  /** A class nested in another. The registry names classes by their binary names, in
      which a nested class is `Outer$Inner`; its canonical name is `Outer.Inner`. */
  predicate IsNested(t: TypeDesc)
  {
    (t.ClassT? && '$' in t.className) || (t.EnumT? && '$' in t.enumName)
  }

  /** The element class getArrayField allocates: ARRAY_FIELD_MAPPER, keyed by the simple
      name, for the eight one-dimensional primitive arrays, otherwise Class.forName of the
      canonical name with every "[]" removed. That fails (None) when what is left is a
      primitive name (a primitive array of two or more dimensions, whose simple name such
      as "int[][]" is no key), or the canonical name of a nested class, which is not a
      binary name. */
  function ArrayElementClass(t: TypeDesc): (r: Option<TypeDesc>)
    requires t.ArrayOf?
    ensures t.elem.Prim? ==> r == Some(t.elem)
    ensures t.elem.ArrayOf? && BaseType(t.elem).Prim? ==> r.None?
    ensures !t.elem.ArrayOf? && !t.elem.Prim? && !t.elem.VoidT? ==>
      (r.Some? <==> !IsNested(t.elem)) && (r.Some? ==> r.value == t.elem)
    ensures r.Some? ==> !r.value.ArrayOf? && !IsNested(r.value)
  {
    if t.elem.Prim? then Some(t.elem)
    else
      var b := BaseType(t.elem);
      if b.Prim? || b.VoidT? || IsNested(b) then None else Some(b)
  }

  // ---------------------------------------------------------------------------
  // createField and its helpers

  /** Class.newInstance(): the public constructor without parameters, if the class has
      one and its body does not throw; None is the `null` createFldUsingDftConstructor
      returns. */
  function DefaultConstructed(env: Env, t: TypeDesc, n: nat): (r: Option<Synth>)
    ensures r.Some? <==>
      t.ClassT? && t.className in env.reg && HasPublicNullary(env.reg[t.className].ctors)
      && env.construct(t.className, FirstNullary(env.reg[t.className].ctors), []).Some?
    ensures r.Some? ==> r.value.Made? && r.value.next == n + 1 && Conforms(env.reg, r.value.value, t)
    ensures r.Some? ==>
      r.value.value == Ref(n, ObjD(t.className, env.construct(t.className, FirstNullary(env.reg[t.className].ctors), []).value))
  {
    if t.ClassT? && t.className in env.reg then
      var ctors := env.reg[t.className].ctors;
      if exists i :: 0 <= i < |ctors| && ctors[i].params == [] then
        var i := FirstNullary(ctors);
        if ctors[i].isPublic then
          match env.construct(t.className, i, [])
          case Some(store) => Some(Made(Ref(n, ObjD(t.className, store)), n + 1))
          case None => None
        else None
      else None
    else None
  }

  /** The class declares a constructor without parameters, and it is public. */
  predicate HasPublicNullary(ctors: seq<Ctor>)
  {
    (exists i :: 0 <= i < |ctors| && ctors[i].params == []) && ctors[FirstNullary(ctors)].isPublic
  }

  /** The (only) declared constructor without parameters. */
  function FirstNullary(ctors: seq<Ctor>): (i: nat)
    requires exists i :: 0 <= i < |ctors| && ctors[i].params == []
    ensures i < |ctors| && ctors[i].params == []
    ensures forall j :: 0 <= j < i ==> ctors[j].params != []
  {
    if ctors[0].params == [] then 0
    else
      assert exists i :: 0 <= i < |ctors[1..]| && ctors[1..][i].params == [] by {
        var i :| 0 <= i < |ctors| && ctors[i].params == [];
        assert ctors[1..][i - 1].params == [];
      }
      1 + FirstNullary(ctors[1..])
  }

  /** A value some custom supplier hands out (the same instance on every call). */
  predicate FromCustom(env: Env, v: Value)
  {
    exists t :: t in env.custom && env.custom[t] == v
  }

  /** createField(fieldName, clazz). The depth bound stands for the Java stack: a class
      whose only constructors need an instance of itself recurses until it overflows.
      Every reference it yields is allocated during the call, unless a custom supplier
      handed it out. */
  function CreateField(env: Env, t: TypeDesc, n: nat, depth: nat): (r: Synth)
    decreases depth, 0
    ensures r.Made? || r.Failed? ==> n <= r.next
    ensures r.Made? && r.value.Ref? ==> n <= r.value.id < r.next || FromCustom(env, r.value)
    ensures r.Made? && t.ArrayOf? ==> r.value.Ref? && r.value.data.ArrayD? && |r.value.data.items| == 1
  {
    if depth == 0 then Overflow
    else if t.ArrayOf? then
      // getArrayField: allocate the one-slot array first, then fill its slot
      match ArrayElementClass(t)
      case None => Failed(n)
      case Some(e) =>
        match CreateField(env, e, n + 1, depth - 1)
        case Overflow => Overflow
        case Failed(m) => Failed(m)
        case Made(v, m) =>
          match Convert(env.reg, v, e)
          case None => Failed(m)
          case Some(w) => Made(Ref(n, ArrayD(e, [w])), m)
    else
      match Supplier(env, t, n)
      case Some(s) =>
        assert t in env.custom && s.value.Ref? ==> FromCustom(env, s.value);
        s
      case None =>
        if t.EnumT? then
          if |t.constants| == 0 then Failed(n) else Made(EnumConst(t.enumName, t.constants[0]), n)
        else
          match DefaultConstructed(env, t, n)
          case Some(s) => s
          case None =>
            if t.ClassT? && t.className in env.reg then
              OtherConstructors(env, t.className, env.reg[t.className].ctors, 0, n, depth - 1)
            else Failed(n)
  }

  /** Synthesizes one argument per parameter type, left to right; the first failure
      ends the attempt. */
  function Args(env: Env, params: seq<TypeDesc>, n: nat, depth: nat): (r: ArgsOutcome)
    decreases depth, 1, |params|
    ensures r.ArgsMade? ==> |r.values| == |params| && n <= r.next
    ensures r.ArgsFailed? ==> n <= r.next
  {
    if params == [] then ArgsMade([], n)
    else
      match CreateField(env, params[0], n, depth)
      case Overflow => ArgsOverflow
      case Failed(m) => ArgsFailed(m)
      case Made(v, m) =>
        match Args(env, params[1..], m, depth)
        case ArgsMade(vs, k) => ArgsMade([v] + vs, k)
        case other => other
  }

  /** One iteration of the constructor loops: synthesize the arguments of the i-th
      declared constructor and invoke it. Any Exception makes it Failed. */
  function Attempt(env: Env, c: string, ctors: seq<Ctor>, i: nat, n: nat, depth: nat): (r: Synth)
    requires i < |ctors|
    decreases depth, 2, 0
    ensures r.Made? || r.Failed? ==> n <= r.next
    ensures r.Made? ==> r.value.Ref? && n <= r.value.id < r.next && r.value.data.ObjD? && r.value.data.className == c
  {
    match Args(env, ctors[i].params, n, depth)
    case ArgsOverflow => Overflow
    case ArgsFailed(m) => Failed(m)
    case ArgsMade(vs, m) =>
      match ConvertArgs(env.reg, vs, ctors[i].params)
      case None => Failed(m)
      case Some(actuals) =>
        match env.construct(c, i, actuals)
        case None => Failed(m)
        case Some(store) => Made(Ref(m, ObjD(c, store)), m + 1)
  }

  /** createFldUsingOtherConstructor: the declared constructors from index i on, in
      order; the loop breaks at the first success. */
  function OtherConstructors(env: Env, c: string, ctors: seq<Ctor>, i: nat, n: nat, depth: nat): (r: Synth)
    requires i <= |ctors|
    decreases depth, 3, |ctors| - i
    ensures r.Made? || r.Failed? ==> n <= r.next
    ensures r.Made? ==> r.value.Ref? && n <= r.value.id < r.next && r.value.data.ObjD? && r.value.data.className == c
  {
    if i == |ctors| then Failed(n)
    else
      var a := Attempt(env, c, ctors, i, n, depth);
      if a.Failed? then OtherConstructors(env, c, ctors, i + 1, a.next, depth) else a
  }

  // ---------------------------------------------------------------------------
  // Traces of the constructor loops

  /** Every attempt of a loop over the constructors from index i on, each starting at the
      step the previous one ended with; an Overflow ends the trace. */
  function Trace(env: Env, c: string, ctors: seq<Ctor>, i: nat, n: nat, depth: nat): (tr: seq<Synth>)
    requires i <= |ctors|
    decreases |ctors| - i
    ensures |tr| <= |ctors| - i
    ensures forall j :: 0 <= j < |tr| - 1 ==> !tr[j].Overflow?
    ensures |tr| < |ctors| - i ==> tr != [] && tr[|tr| - 1].Overflow?
  {
    if i == |ctors| then []
    else
      var a := Attempt(env, c, ctors, i, n, depth);
      if a.Overflow? then [a] else [a] + Trace(env, c, ctors, i + 1, a.next, depth)
  }

  /** The step counter once every attempt of a complete trace has run. */
  function TraceEnd(tr: seq<Synth>, n: nat): nat
  {
    if tr == [] || tr[|tr| - 1].Overflow? then n else tr[|tr| - 1].next
  }

  /** A first-success loop run over a trace: the first attempt that did not fail, or
      Failed at the step the last attempt ended with. */
  function FirstOutcome(tr: seq<Synth>, n: nat): Synth
  {
    if tr == [] then Failed(n)
    else if tr[0].Failed? then FirstOutcome(tr[1..], tr[0].next)
    else tr[0]
  }

  /** FirstOutcome yields the first attempt that made an object or overflowed, every
      attempt before it having failed; it fails only if every attempt failed. */
  lemma {:induction false} FirstOutcomeCharacterized(tr: seq<Synth>, n: nat)
    ensures var r := FirstOutcome(tr, n);
      && (!r.Failed? ==> exists j :: 0 <= j < |tr| && tr[j] == r && forall k :: 0 <= k < j ==> tr[k].Failed?)
      && (r.Failed? ==> forall j :: 0 <= j < |tr| ==> tr[j].Failed?)
  {
    if tr != [] && tr[0].Failed? {
      FirstOutcomeCharacterized(tr[1..], tr[0].next);
      var r := FirstOutcome(tr, n);
      if !r.Failed? {
        var j :| 0 <= j < |tr[1..]| && tr[1..][j] == r && forall k :: 0 <= k < j ==> tr[1..][k].Failed?;
        assert tr[j + 1] == r;
        assert forall k :: 0 <= k < j + 1 ==> tr[k].Failed? by {
          forall k | 0 <= k < j + 1 ensures tr[k].Failed? {
            if k > 0 { assert tr[k] == tr[1..][k - 1]; }
          }
        }
      } else {
        forall j | 0 <= j < |tr| ensures tr[j].Failed? {
          if j > 0 { assert tr[j] == tr[1..][j - 1]; }
        }
      }
    } else if tr != [] {
      assert tr[0] == FirstOutcome(tr, n);
    }
  }

  /** createFldUsingOtherConstructor is the first-success loop over the trace of its
      constructor attempts. */
  lemma {:induction false} OtherConstructorsIsFirstOutcome(env: Env, c: string, ctors: seq<Ctor>, i: nat, n: nat, depth: nat)
    requires i <= |ctors|
    decreases |ctors| - i
    ensures OtherConstructors(env, c, ctors, i, n, depth) == FirstOutcome(Trace(env, c, ctors, i, n, depth), n)
  {
    if i < |ctors| {
      var a := Attempt(env, c, ctors, i, n, depth);
      if a.Failed? {
        OtherConstructorsIsFirstOutcome(env, c, ctors, i + 1, a.next, depth);
        var rest := Trace(env, c, ctors, i + 1, a.next, depth);
        assert ([a] + rest)[1..] == rest;
      }
    }
  }

  // ---------------------------------------------------------------------------
  // Properties of createField

  /** Custom suppliers that never return null. */
  predicate NonNullMappers(env: Env)
  {
    forall t :: t in env.custom ==> env.custom[t] != Null
  }

  /** The harness never synthesizes null unless a custom supplier does: every path yields
      an array, a supplier's value, an enum constant or a constructed object. */
  lemma CreateFieldNonNull(env: Env, t: TypeDesc, n: nat, depth: nat)
    requires NonNullMappers(env)
    ensures var r := CreateField(env, t, n, depth); r.Made? ==> r.value != Null
  {
  }

  /** Resolution order, step 1: an array type always takes the array path, and a
      successful result holds exactly one element, of the element class. */
  lemma ArrayFirst(env: Env, t: TypeDesc, n: nat, depth: nat)
    requires t.ArrayOf? && depth > 0
    ensures var r := CreateField(env, t, n, depth);
      r.Made? ==> (ArrayElementClass(t).Some? && r.value == Ref(n, ArrayD(ArrayElementClass(t).value, r.value.data.items))
        && |r.value.data.items| == 1 && Conforms(env.reg, r.value.data.items[0], ArrayElementClass(t).value))
    ensures t.elem.Prim? && t.elem !in env.custom && depth > 1 ==> CreateField(env, t, n, depth).Made?
  {
  }

  /** Resolution order, step 2: for anything but an array a custom supplier wins over
      enum constants and constructors. */
  lemma MapperBeforeEnumAndConstructors(env: Env, t: TypeDesc, n: nat, depth: nat)
    requires !t.ArrayOf? && depth > 0 && t in env.custom
    ensures CreateField(env, t, n, depth) == Made(env.custom[t], n)
  {
  }

  /** Resolution order, step 3: an enum without a supplier yields its first constant; an
      enum without constants cannot be synthesized. */
  lemma EnumFirstConstant(env: Env, name: string, constants: seq<string>, n: nat, depth: nat)
    requires depth > 0 && EnumT(name, constants) !in env.custom
    ensures var r := CreateField(env, EnumT(name, constants), n, depth);
      && (constants != [] ==> r == Made(EnumConst(name, constants[0]), n))
      && (constants == [] ==> r == Failed(n))
  {
  }

  /** Resolution order, step 4: a public no-argument constructor that does not throw is
      used, whatever constructors are declared before it. */
  lemma NoArgConstructorPreferred(env: Env, c: string, n: nat, depth: nat, i: nat)
    requires depth > 0 && ClassT(c) !in env.custom && c in env.reg
    requires var ctors := env.reg[c].ctors;
      i < |ctors| && ctors[i].params == [] && ctors[i].isPublic && env.construct(c, i, []).Some?
      && forall j :: 0 <= j < |ctors| && j != i ==> ctors[j].params != []
    ensures CreateField(env, ClassT(c), n, depth) == Made(Ref(n, ObjD(c, env.construct(c, i, []).value)), n + 1)
  {
    var ctors := env.reg[c].ctors;
    assert FirstNullary(ctors) == i;
  }

  /** Resolution order, step 5: otherwise the first declared constructor whose
      arguments can be synthesized and whose body does not throw; with none, an
      IllegalStateException (Failed). */
  lemma OtherConstructorsLast(env: Env, c: string, n: nat, depth: nat)
    requires depth > 0 && ClassT(c) !in env.custom && c in env.reg
    requires DefaultConstructed(env, ClassT(c), n).None?
    ensures CreateField(env, ClassT(c), n, depth) == OtherConstructors(env, c, env.reg[c].ctors, 0, n, depth - 1)
  {
  }

  /** A class whose only constructor takes an instance of the class itself (and which has
      no supplier) can never be synthesized: the recursion exhausts any stack. */
  lemma SelfReferenceOverflows(env: Env, c: string, n: nat, depth: nat)
    requires ClassT(c) !in env.custom && c in env.reg
    requires env.reg[c].ctors == [Ctor([ClassT(c)], true)]
    ensures CreateField(env, ClassT(c), n, depth) == Overflow
    decreases depth
  {
    if depth > 0 {
      var ctors := env.reg[c].ctors;
      assert !(exists i :: 0 <= i < |ctors| && ctors[i].params == []);
      SelfReferenceOverflows(env, c, n, depth - 1);
      assert Args(env, [ClassT(c)], n, depth - 1) == ArgsOverflow;
      assert Attempt(env, c, ctors, 0, n, depth - 1) == Overflow;
      assert OtherConstructors(env, c, ctors, 0, n, depth - 1) == Overflow;
    }
  }

  /** Freshness: a synthesized reference is a new allocation, distinct from anything
      allocated before step n, so two synthesis runs in sequence give distinct objects
      unless a custom supplier handed out the instance. */
  lemma SequentialSynthesesDistinct(env: Env, t1: TypeDesc, t2: TypeDesc, n: nat, depth: nat)
    requires CreateField(env, t1, n, depth).Made?
    requires var r1 := CreateField(env, t1, n, depth); CreateField(env, t2, r1.next, depth).Made?
    ensures var r1 := CreateField(env, t1, n, depth);
      var r2 := CreateField(env, t2, r1.next, depth);
      r1.value.Ref? && r2.value.Ref? && !FromCustom(env, r1.value) && !FromCustom(env, r2.value) ==>
        !SameInstance(r1.value, r2.value)
  {
  }
}
