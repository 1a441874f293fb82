/** equals and hashCode of the values the harness handles: the library classes it
    synthesizes (String, boxed numbers, Date, the collections, arrays) and objects of
    registry classes, whose equals/hashCode are either Object's (identity) or the usual
    field-wise form (Objects.equals on each listed field, Objects.hash over them). */
module Equality {
  import opened JavaLang
  import opened Reflection
  import opened HashArith

  /** Hash codes Java does not define by value: the identity hash code of each allocation
      and the hash code of each enum constant (also an identity hash). */
  datatype Hashing = Hashing(identity: nat -> int, enumConst: (string, string) -> int)

  // ---------------------------------------------------------------------------
  // Sums over collections (AbstractSet.hashCode and AbstractMap.hashCode add up the
  // hashes of their members)

  function Sum<T>(s: seq<T>, f: T -> int): int
  {
    if s == [] then 0 else f(s[0]) + Sum(s[1..], f)
  }

  lemma {:induction false} SumConcat<T>(s: seq<T>, t: seq<T>, f: T -> int)
    ensures Sum(s + t, f) == Sum(s, f) + Sum(t, f)
  {
    if s == [] {
      assert s + t == t;
    } else {
      assert (s + t)[0] == s[0];
      assert (s + t)[1..] == s[1..] + t;
      SumConcat(s[1..], t, f);
    }
  }

  /** A sum over a collection does not depend on the order of its members. */
  lemma {:induction false} SumPermutation<T>(s: seq<T>, t: seq<T>, f: T -> int)
    requires multiset(s) == multiset(t)
    ensures Sum(s, f) == Sum(t, f)
    decreases |s|
  {
    if s != [] {
      assert s[0] in multiset(s);
      assert s[0] in multiset(t);
      var j :| 0 <= j < |t| && t[j] == s[0];
      var rest := t[..j] + t[j + 1..];
      assert t == t[..j] + ([t[j]] + t[j + 1..]);
      SumConcat(t[..j], [t[j]] + t[j + 1..], f);
      SumConcat([t[j]], t[j + 1..], f);
      SumConcat(t[..j], t[j + 1..], f);
      assert s == [s[0]] + s[1..];
      assert multiset(s) == multiset([s[0]]) + multiset(s[1..]);
      assert multiset(t) == multiset(t[..j]) + multiset([t[j]]) + multiset(t[j + 1..]);
      assert multiset(rest) == multiset(t[..j]) + multiset(t[j + 1..]);
      assert multiset([s[0]]) == multiset([t[j]]);
      assert multiset(s[1..]) == multiset(s) - multiset([s[0]]);
      assert multiset(rest) == multiset(t) - multiset([t[j]]);
      SumPermutation(s[1..], rest, f);
    }
  }

  // ---------------------------------------------------------------------------
  // Hash codes of library values

  /** Long.hashCode (and Date.hashCode, which hashes the millisecond count the same way):
      the upper and lower halves of the 64-bit value, xor-ed. */
  function LongHash(n: int): Int32Bits
  {
    var u := (n % 0x1_0000_0000_0000_0000) as bv64;
    Wrap32((u ^ (u >> 32)) as int)
  }

  function ElementHash(s: string): int
  {
    StringHash(s)
  }

  /** Bitwise exclusive or of two non-negative numbers, bit by bit from the lowest. */
  function Xor(a: nat, b: nat): nat
    decreases a + b
  {
    if a == 0 then b
    else if b == 0 then a
    else 2 * Xor(a / 2, b / 2) + (if a % 2 == b % 2 then 0 else 1)
  }

  lemma {:induction false} XorSelf(a: nat)
    ensures Xor(a, a) == 0
    decreases a
  {
    if a > 0 {
      XorSelf(a / 2);
    }
  }

  /** A Map entry's hashCode: key hash xor value hash. */
  function EntryHash(e: (string, string)): int
  {
    Xor(StringHash(e.0), StringHash(e.1))
  }

  /** List.hashCode: the Objects.hash polynomial over the element hashes. */
  function ListHash(elems: seq<string>): Int32Bits
  {
    HashFold(seq(|elems|, i requires 0 <= i < |elems| => StringHash(elems[i])))
  }

  /** A one-entry map whose key and value are the same string hashes to 0. */
  lemma SameEntryMapHash(h: Hashing, id: nat, s: string)
    ensures ShallowHash(h, Ref(id, MapD([(s, s)]))) == 0
  {
    EntryHashSame(s);
    SumSingle((s, s), EntryHash);
  }

  lemma SumSingle<T>(x: T, f: T -> int)
    ensures Sum([x], f) == f(x)
  {
    assert [x][1..] == [];
  }

  /** An entry whose key and value are the same string hashes to 0. */
  lemma EntryHashSame(s: string)
    ensures EntryHash((s, s)) == 0
  {
    XorSelf(StringHash(s));
  }

  /** Objects.equals(a, b) for values of library classes. Arrays, which do not override
      equals, compare by identity. So do objects of registry classes: this is exact for
      a class with identity equals, and for a class with field-wise equals it stands in
      for the nested call of that class's own equals, which is not modelled. */
  predicate ShallowEquals(a: Value, b: Value)
  {
    match a
    case Ref(id, d) =>
      b.Ref? &&
      (match d
       case StrD(s) => b.data.StrD? && b.data.s == s
       case DateD(m) => b.data.DateD? && b.data.millis == m
       case DateTimeD(t) => b.data.DateTimeD? && b.data.stamp == t
       case SetD(e) => b.data.SetD? && multiset(e) == multiset(b.data.elems)
       case ListD(e) => b.data.ListD? && b.data.elems == e
       case MapD(e) => b.data.MapD? && multiset(e) == multiset(b.data.entries)
       case ArrayD(_, _) => b.data.ArrayD? && b.id == id
       case ObjD(_, _) => b.data.ObjD? && b.id == id)
    case _ => a == b
  }

  /** Objects.hashCode(a) for the same values: 0 for null. */
  function ShallowHash(h: Hashing, a: Value): Int32Bits
  {
    match a
    case Null => 0
    case Num(k, n) => if k == LongK then LongHash(n) else Wrap32(n)
    case Bool(b) => if b then 1231 else 1237
    case EnumConst(e, c) => Wrap32(h.enumConst(e, c))
    case DecimalOne => 31
    case Ref(id, d) =>
      match d
      case StrD(s) => StringHash(s)
      case DateD(m) => LongHash(m)
      case DateTimeD(t) => LongHash(t)
      case SetD(e) => Wrap32(Sum(e, ElementHash))
      case ListD(e) => ListHash(e)
      case MapD(e) => Wrap32(Sum(e, EntryHash))
      case ArrayD(_, _) => Wrap32(h.identity(id))
      case ObjD(_, _) => Wrap32(h.identity(id))
  }

  /** Objects.equals is an equivalence on these values. */
  lemma ShallowEqualsEquivalence(a: Value, b: Value, c: Value)
    ensures ShallowEquals(a, a)
    ensures ShallowEquals(a, b) ==> ShallowEquals(b, a)
    ensures ShallowEquals(a, b) && ShallowEquals(b, c) ==> ShallowEquals(a, c)
  {
  }

  /** Values Objects.equals calls equal have the same hash code; for sets and maps this is
      the order-independence of the member sum. */
  lemma ShallowHashConsistent(h: Hashing, a: Value, b: Value)
    requires ShallowEquals(a, b)
    ensures ShallowHash(h, a) == ShallowHash(h, b)
  {
    if a.Ref? && a.data.SetD? {
      SumPermutation(a.data.elems, b.data.elems, ElementHash);
    } else if a.Ref? && a.data.MapD? {
      assert multiset(a.data.entries) == multiset(b.data.entries);
      SumPermutation(a.data.entries, b.data.entries, EntryHash);
    }
  }

  // ---------------------------------------------------------------------------
  // equals and hashCode of registry objects

  /** The value of a field when it exists; null otherwise. */
  function FieldOrNull(reg: Registry, obj: Value, f: string): Value
  {
    if IsObject(reg, obj) && f in ClassOf(reg, obj).fields then FieldValue(reg, obj, f) else Null
  }

  /** a.equals(b) for a non-null a. The field-wise form first compares identities, then
      the runtime classes, then every listed field with Objects.equals. */
  predicate Equals(reg: Registry, a: Value, b: Value)
  {
    if IsObject(reg, a) then
      match ClassOf(reg, a).equality
      case IdentityEquals => b.Ref? && b.id == a.id
      case FieldwiseEquals(fs) =>
        (b.Ref? && b.id == a.id) ||
        (b.Ref? && b.data.ObjD? && b.data.className == a.data.className &&
         forall i :: 0 <= i < |fs| ==> ShallowEquals(FieldOrNull(reg, a, fs[i]), FieldOrNull(reg, b, fs[i])))
    else ShallowEquals(a, b)
  }

  /** The hashes of the listed fields, in order. */
  function FieldHashes(reg: Registry, h: Hashing, obj: Value, fs: seq<string>): (r: seq<Int32Bits>)
    ensures |r| == |fs| && forall i :: 0 <= i < |fs| ==> r[i] == ShallowHash(h, FieldOrNull(reg, obj, fs[i]))
  {
    if fs == [] then [] else [ShallowHash(h, FieldOrNull(reg, obj, fs[0]))] + FieldHashes(reg, h, obj, fs[1..])
  }

  /** a.hashCode(): the identity hash for Object's, Objects.hash over the listed fields for
      the field-wise form. */
  function HashCode(reg: Registry, h: Hashing, a: Value): Int32Bits
  {
    if IsObject(reg, a) then
      match ClassOf(reg, a).equality
      case IdentityEquals => Wrap32(h.identity(a.id))
      case FieldwiseEquals(fs) => HashFold(FieldHashes(reg, h, a, fs))
    else ShallowHash(h, a)
  }

  /** Two views of one allocation are the same value (the model's values carry the object's
      state, so the same identity must mean the same state). */
  predicate Coherent(a: Value, b: Value)
  {
    a.Ref? && b.Ref? && a.id == b.id ==> a == b
  }

  /** equals is reflexive. */
  lemma EqualsReflexive(reg: Registry, a: Value)
    ensures Equals(reg, a, a)
  {
    ShallowEqualsEquivalence(a, a, a);
  }

  /** equals is symmetric. */
  lemma EqualsSymmetric(reg: Registry, a: Value, b: Value)
    requires Coherent(a, b)
    requires Equals(reg, a, b)
    ensures Equals(reg, b, a)
  {
    if IsObject(reg, a) && a.Ref? && b.Ref? && a.id == b.id {
      EqualsReflexive(reg, a);
    } else if IsObject(reg, a) {
      match ClassOf(reg, a).equality
      case IdentityEquals =>
      case FieldwiseEquals(fs) =>
        forall i | 0 <= i < |fs|
          ensures ShallowEquals(FieldOrNull(reg, b, fs[i]), FieldOrNull(reg, a, fs[i]))
        {
          ShallowEqualsEquivalence(FieldOrNull(reg, a, fs[i]), FieldOrNull(reg, b, fs[i]), Null);
        }
    } else {
      ShallowEqualsEquivalence(a, b, Null);
    }
  }

  /** equals is transitive. */
  lemma EqualsTransitive(reg: Registry, a: Value, b: Value, c: Value)
    requires Coherent(a, b) && Coherent(b, c) && Coherent(a, c)
    requires Equals(reg, a, b) && Equals(reg, b, c)
    ensures Equals(reg, a, c)
  {
    if IsObject(reg, a) && !(a.Ref? && c.Ref? && a.id == c.id) {
      match ClassOf(reg, a).equality
      case IdentityEquals =>
      case FieldwiseEquals(fs) =>
        if a.id == b.id {
        } else {
          forall i | 0 <= i < |fs|
            ensures ShallowEquals(FieldOrNull(reg, a, fs[i]), FieldOrNull(reg, c, fs[i]))
          {
            ShallowEqualsEquivalence(FieldOrNull(reg, a, fs[i]), FieldOrNull(reg, b, fs[i]), FieldOrNull(reg, c, fs[i]));
          }
        }
    } else if !IsObject(reg, a) {
      ShallowEqualsEquivalence(a, b, c);
    }
  }

  /** Equal objects have equal hash codes. */
  lemma EqualsHashConsistent(reg: Registry, h: Hashing, a: Value, b: Value)
    requires Coherent(a, b)
    requires Equals(reg, a, b)
    ensures HashCode(reg, h, a) == HashCode(reg, h, b)
  {
    if IsObject(reg, a) && !(b.Ref? && a.id == b.id) {
      match ClassOf(reg, a).equality
      case IdentityEquals =>
      case FieldwiseEquals(fs) =>
        var ha, hb := FieldHashes(reg, h, a, fs), FieldHashes(reg, h, b, fs);
        forall i | 0 <= i < |fs| ensures ha[i] == hb[i] {
          ShallowHashConsistent(h, FieldOrNull(reg, a, fs[i]), FieldOrNull(reg, b, fs[i]));
        }
        assert ha == hb;
    } else if !IsObject(reg, a) {
      ShallowHashConsistent(h, a, b);
    }
  }

  /** No field name is listed twice. */
  predicate Distinct(fs: seq<string>)
  {
    forall i, j :: 0 <= i < j < |fs| ==> fs[i] != fs[j]
  }

  /** Two distinct objects of a class with field-wise equals that agree on every listed
      field but f, where they differ: equals is false both ways, and the hash codes
      coincide exactly when the two values of f hash alike. */
  lemma SingleFieldDifference(reg: Registry, h: Hashing, a: Value, b: Value, fs: seq<string>, i: nat)
    requires IsObject(reg, a) && IsObject(reg, b) && a.data.className == b.data.className && a.id != b.id
    requires ClassOf(reg, a).equality == FieldwiseEquals(fs) && Distinct(fs) && i < |fs|
    requires forall j :: 0 <= j < |fs| && j != i ==> ShallowEquals(FieldOrNull(reg, a, fs[j]), FieldOrNull(reg, b, fs[j]))
    requires !ShallowEquals(FieldOrNull(reg, a, fs[i]), FieldOrNull(reg, b, fs[i]))
    ensures !Equals(reg, a, b) && !Equals(reg, b, a)
    ensures HashCode(reg, h, a) == HashCode(reg, h, b) <==>
      ShallowHash(h, FieldOrNull(reg, a, fs[i])) == ShallowHash(h, FieldOrNull(reg, b, fs[i]))
  {
    var x, y := FieldOrNull(reg, a, fs[i]), FieldOrNull(reg, b, fs[i]);
    if Equals(reg, b, a) {
      assert ShallowEquals(y, x);
      ShallowEqualsEquivalence(y, x, Null);
    }
    var ha, hb := FieldHashes(reg, h, a, fs), FieldHashes(reg, h, b, fs);
    forall j | 0 <= j < |fs| && j != i ensures ha[j] == hb[j] {
      ShallowHashConsistent(h, FieldOrNull(reg, a, fs[j]), FieldOrNull(reg, b, fs[j]));
    }
    HashFoldSingleDifference(ha, hb, i);
  }
}
