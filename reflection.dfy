/** The reflective view of Java that the harness works through, with reflection replaced
    by an explicit registry: type descriptors (Class objects), runtime values with object
    identity, the declared constructors, fields, public methods and supertypes of each
    class, and what Method.invoke, Field.get and Field.set do with them. */
module Reflection {
  import opened Wrappers

  /** The eight primitive kinds. */
  datatype PrimKind = IntK | DoubleK | FloatK | LongK | BooleanK | ShortK | ByteK | CharK

  /** A Class object as far as the harness looks at it. */
  datatype TypeDesc =
    | Prim(kind: PrimKind)       // int.class, boolean.class, ...
    | Boxed(kind: PrimKind)      // Integer.class, Boolean.class, ...
    | VoidT                      // void.class: the return type of a void method
    | StringT
    | BigDecimalT
    | DateT                      // java.util.Date
    | LocalDateTimeT
    | SetT                       // the interfaces java.util.Set, List and Map
    | ListT
    | MapT
    | ArrayOf(elem: TypeDesc)
    | EnumT(enumName: string, constants: seq<string>)
    | ClassT(className: string)  // any other class: see the registry

  /** Class.isPrimitive: true of the eight primitive classes and of void.class. */
  predicate IsPrimitive(t: TypeDesc)
  {
    t.Prim? || t.VoidT?
  }

  /** A runtime value. Reference values that Java allocates carry the identity `id` of
      the allocation; numbers, booleans, enum constants and BigDecimal.ONE are compared
      by value. Boxes of numbers have no identity here: a number that is unboxed into a
      primitive field and boxed again counts as the same instance, which Java's cache of
      boxes guarantees only for booleans, bytes and small integral values. */
  datatype Value =
    | Null
    | Num(kind: PrimKind, n: int)          // a number or char (boxed when seen reflectively)
    | Bool(b: bool)
    | EnumConst(enumName: string, constant: string)
    | DecimalOne                           // the shared constant BigDecimal.ONE
    | Ref(id: nat, data: Data)

  /** What an allocated object holds. */
  datatype Data =
    | StrD(s: string)
    | DateD(millis: int)
    | DateTimeD(stamp: int)
    | SetD(elems: seq<string>)
    | ListD(elems: seq<string>)
    | MapD(entries: seq<(string, string)>)
    | ArrayD(elemType: TypeDesc, items: seq<Value>)
    | ObjD(className: string, fields: map<string, Value>)

  /** Hamcrest's sameInstance, i.e. Java's ==: the same allocation for references. */
  predicate SameInstance(a: Value, b: Value)
  {
    if a.Ref? || b.Ref? then a.Ref? && b.Ref? && a.id == b.id else a == b
  }

  /** A declared constructor: its parameter types and whether it is public
      (Class.newInstance only uses a public no-argument constructor). */
  datatype Ctor = Ctor(params: seq<TypeDesc>, isPublic: bool)

  /** What a setter hands back: nothing (void), the receiver (fluent style) or some value. */
  datatype SetterReturn = ReturnsVoid | ReturnsThis | ReturnsValue(v: Value)

  /** The behaviour of an accessor method of the class under test. */
  datatype Body =
    | ReadField(field: string)                          // return this.field
    | WriteField(field: string, gives: SetterReturn)  // this.field = arg; return ...
    | Constant(result: Value)                           // return a value, touch nothing

  /** A public method as Class.getMethods reports it, with its behaviour. */
  datatype JMethod = JMethod(name: string, params: seq<TypeDesc>, ret: TypeDesc, body: Body)

  /** How a class implements equals/hashCode: inherited from Object (identity and the
      identity hash), or the usual generated form over a list of fields
      (Objects.equals on each, Objects.hash over all). */
  datatype EqualsImpl = IdentityEquals | FieldwiseEquals(fields: seq<string>)

  /** Everything reflection reveals about one class. */
  datatype ClassDecl = ClassDecl(
    ctors: seq<Ctor>,                 // getDeclaredConstructors, in declaration order
    fields: map<string, TypeDesc>,    // declared fields and their types
    methods: seq<JMethod>,            // getMethods, in whatever order the VM returns them
    equality: EqualsImpl,
    supers: set<string>)              // every class and interface it extends or implements,
                                      // directly or through another

  type Registry = map<string, ClassDecl>

  /** The root of the class hierarchy: every object, box and array is an instance of it. */
  const ObjectClass := "java.lang.Object"

  /** Class.isAssignableFrom between named classes: an instance of class c is an instance
      of `name` when it is the same class, Object, or one of c's supertypes. */
  predicate IsSubclass(reg: Registry, c: string, name: string)
  {
    c == name || name == ObjectClass || (c in reg && name in reg[c].supers)
  }

  /** Array covariance: an array whose component type is `from` is an instance of an
      array type with component `to` when the components are the same, or are both
      classes and `from` is a subclass of `to`. */
  predicate ComponentAssignable(reg: Registry, from: TypeDesc, to: TypeDesc)
  {
    from == to || (from.ClassT? && to.ClassT? && IsSubclass(reg, from.className, to.className))
  }

  /** The value a field holds before anything is written to it. */
  function DefaultValue(t: TypeDesc): (v: Value)
    ensures t.Prim? && t.kind != BooleanK ==> v == Num(t.kind, 0)
    ensures t.Prim? && t.kind == BooleanK ==> v == Bool(false)
    ensures !t.Prim? ==> v == Null
  {
    match t
    case Prim(k) => if k == BooleanK then Bool(false) else Num(k, 0)
    case _ => Null
  }

  /** The widening primitive conversions of the Java language (plus identity). */
  predicate Widens(from: PrimKind, to: PrimKind)
  {
    from == to ||
    match from
    case ByteK => to in {ShortK, IntK, LongK, FloatK, DoubleK}
    case ShortK => to in {IntK, LongK, FloatK, DoubleK}
    case CharK => to in {IntK, LongK, FloatK, DoubleK}
    case IntK => to in {LongK, FloatK, DoubleK}
    case LongK => to in {FloatK, DoubleK}
    case FloatK => to == DoubleK
    case _ => false
  }

  /** `v instanceof t` for a non-null v. */
  predicate InstanceOf(reg: Registry, v: Value, t: TypeDesc)
  {
    match t
    case Prim(_) => false
    case VoidT => false
    case Boxed(k) => if k == BooleanK then v.Bool? else v.Num? && v.kind == k
    case StringT => v.Ref? && v.data.StrD?
    case BigDecimalT => v.DecimalOne?
    case DateT => v.Ref? && v.data.DateD?
    case LocalDateTimeT => v.Ref? && v.data.DateTimeD?
    case SetT => v.Ref? && v.data.SetD?
    case ListT => v.Ref? && v.data.ListD?
    case MapT => v.Ref? && v.data.MapD?
    case ArrayOf(e) => v.Ref? && v.data.ArrayD? && ComponentAssignable(reg, v.data.elemType, e)
    case EnumT(name, _) => v.EnumConst? && v.enumName == name
    case ClassT(name) =>
      name == ObjectClass || (v.Ref? && v.data.ObjD? && IsSubclass(reg, v.data.className, name))
  }

  /** The value a field or parameter of type t holds. */
  predicate Conforms(reg: Registry, v: Value, t: TypeDesc)
  {
    match t
    case Prim(k) => if k == BooleanK then v.Bool? else v.Num? && v.kind == k
    case VoidT => false
    case _ => v.Null? || InstanceOf(reg, v, t)
  }

  /** The unboxing-and-widening step of Field.set and of Method.invoke's arguments;
      None is the IllegalArgumentException both throw when it fails. */
  function Convert(reg: Registry, v: Value, t: TypeDesc): (r: Option<Value>)
    ensures r.Some? ==> Conforms(reg, r.value, t)
    ensures Conforms(reg, v, t) ==> r == Some(v)
    ensures r.Some? && !t.Prim? ==> r.value == v
    ensures t.Prim? && v.Null? ==> r.None?
  {
    match t
    case Prim(k) =>
      if k == BooleanK then (if v.Bool? then Some(v) else None)
      else if v.Num? && Widens(v.kind, k) then Some(Num(k, v.n))
      else None
    case VoidT => None
    case _ => if v.Null? || InstanceOf(reg, v, t) then Some(v) else None
  }

  /** Reference widening, as Field.set and Method.invoke apply it: an object is accepted
      for a field or parameter of any of its supertypes and of Object, and is refused for
      a class that is neither. */
  lemma ReferenceWidening(reg: Registry, v: Value, name: string)
    requires IsObject(reg, v)
    ensures name in ClassOf(reg, v).supers ==> Convert(reg, v, ClassT(name)) == Some(v)
    ensures Convert(reg, v, ClassT(ObjectClass)) == Some(v)
    ensures name != v.data.className && name != ObjectClass && name !in ClassOf(reg, v).supers ==>
      Convert(reg, v, ClassT(name)).None?
  {
  }

  /** Converts every argument to its parameter type; None if the counts differ or one fails. */
  function ConvertArgs(reg: Registry, args: seq<Value>, params: seq<TypeDesc>): (r: Option<seq<Value>>)
    ensures r.Some? <==> |args| == |params| && forall i :: 0 <= i < |args| ==> Convert(reg, args[i], params[i]).Some?
    ensures r.Some? ==> |r.value| == |args| && forall i :: 0 <= i < |args| ==> r.value[i] == Convert(reg, args[i], params[i]).value
  {
    if |args| != |params| then None
    else if args == [] then Some([])
    else
      match Convert(reg, args[0], params[0])
      case None => None
      case Some(a) =>
        match ConvertArgs(reg, args[1..], params[1..])
        case None =>
          assert !forall i :: 0 <= i < |args| ==> Convert(reg, args[i], params[i]).Some? by {
            var i :| 0 <= i < |args| - 1 && Convert(reg, args[1..][i], params[1..][i]).None?;
            assert Convert(reg, args[i + 1], params[i + 1]).None?;
          }
          None
        case Some(rest) => Some([a] + rest)
  }

  /** An object of a class the registry declares. */
  predicate IsObject(reg: Registry, v: Value)
  {
    v.Ref? && v.data.ObjD? && v.data.className in reg
  }

  /** The declaration of an object's class. */
  function ClassOf(reg: Registry, obj: Value): ClassDecl
    requires IsObject(reg, obj)
  {
    reg[obj.data.className]
  }

  /** The value of a declared field: what was stored, or the field's default. */
  function FieldValue(reg: Registry, obj: Value, f: string): Value
    requires IsObject(reg, obj) && f in ClassOf(reg, obj).fields
  {
    if f in obj.data.fields then obj.data.fields[f] else DefaultValue(ClassOf(reg, obj).fields[f])
  }

  /** JUnitReflectionUtil.getObjectField: None stands for the IllegalArgumentException
      "field not found". */
  function GetObjectField(reg: Registry, obj: Value, f: string): (r: Option<Value>)
    requires IsObject(reg, obj)
    ensures r.Some? <==> f in ClassOf(reg, obj).fields
  {
    if f in ClassOf(reg, obj).fields then Some(FieldValue(reg, obj, f)) else None
  }

  /** JUnitReflectionUtil.setObjectField: the same object (same identity) with field f
      replaced; None for a missing field or a value Field.set will not convert. */
  function SetObjectField(reg: Registry, obj: Value, f: string, v: Value): (r: Option<Value>)
    requires IsObject(reg, obj)
    ensures r.Some? <==> f in ClassOf(reg, obj).fields && Convert(reg, v, ClassOf(reg, obj).fields[f]).Some?
    ensures r.Some? ==> IsObject(reg, r.value) && SameInstance(r.value, obj)
    ensures r.Some? ==> r.value.data.className == obj.data.className
  {
    var decl := ClassOf(reg, obj);
    if f in decl.fields then
      match Convert(reg, v, decl.fields[f])
      case None => None
      case Some(w) => Some(Ref(obj.id, ObjD(obj.data.className, obj.data.fields[f := w])))
    else None
  }

  /** Writing a field and reading it back gives the converted value, and every other
      field keeps its value. */
  lemma SetThenGet(reg: Registry, obj: Value, f: string, v: Value, g: string)
    requires IsObject(reg, obj)
    requires SetObjectField(reg, obj, f, v).Some?
    ensures var o := SetObjectField(reg, obj, f, v).value;
      && GetObjectField(reg, o, f) == Convert(reg, v, ClassOf(reg, obj).fields[f])
      && (g != f ==> GetObjectField(reg, o, g) == GetObjectField(reg, obj, g))
  {
  }

  /** The outcome of Method.invoke: the result and the receiver as it is afterwards, or an
      exception (InvocationTargetException or IllegalArgumentException). */
  datatype Invocation = Returned(result: Value, target: Value) | Threw

  /** Method.invoke(target, args) for an accessor of the target's class. A getter's
      `return this.field` converts the field's value to the declared return type
      (widening a primitive, so a long getter over an int field yields a Long). */
  function Invoke(reg: Registry, target: Value, m: JMethod, args: seq<Value>): (r: Invocation)
    requires IsObject(reg, target)
    ensures r.Returned? ==> IsObject(reg, r.target) && SameInstance(r.target, target)
    ensures r.Returned? ==> r.target.data.className == target.data.className
    ensures r.Returned? ==> ConvertArgs(reg, args, m.params).Some?
    ensures m.body.ReadField? && ConvertArgs(reg, args, m.params).Some? ==>
      (r.Returned? <==>
        m.body.field in ClassOf(reg, target).fields && Convert(reg, FieldValue(reg, target, m.body.field), m.ret).Some?)
    ensures r.Returned? && m.body.ReadField? ==>
      r.target == target && Conforms(reg, r.result, m.ret)
      && (!m.ret.Prim? ==> r.result == FieldValue(reg, target, m.body.field))
  {
    match ConvertArgs(reg, args, m.params)
    case None => Threw
    case Some(actuals) =>
      match m.body
      case Constant(v) => Returned(v, target)
      case ReadField(f) =>
        if f in ClassOf(reg, target).fields then
          match Convert(reg, FieldValue(reg, target, f), m.ret)
          case None => Threw
          case Some(v) => Returned(v, target)
        else Threw
      case WriteField(f, ret) =>
        if |actuals| == 0 then Threw
        else
          match SetObjectField(reg, target, f, actuals[0])
          case None => Threw
          case Some(t) =>
            var result := match ret
              case ReturnsVoid => Null
              case ReturnsThis => t
              case ReturnsValue(v) => v;
            Returned(result, t)
  }
}
