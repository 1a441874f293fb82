/** GenericProductWithHashEquals: an immutable value object with three reference fields
    (name, price: String; subTypes: Map<String, String>) and the usual equals/hashCode
    over all three. Fields hold the harness's runtime values, so null and object identity
    are represented as they are everywhere else in the model. */
module Product {
  import opened JavaLang
  import opened Reflection
  import opened HashArith
  import opened Equality

  /** An instance: its allocation identity and its three final fields. */
  datatype GenericProductWithHashEquals = GenericProductWithHashEquals(
    id: nat, name: Value, price: Value, subTypes: Value)

  /** The argument of equals(Object o): null, a product, or an object of another class. */
  datatype Other = NullRef | AProduct(p: GenericProductWithHashEquals) | Foreign(otherId: nat)

  /** The constructor stores its arguments as they are; `id` is the new allocation. */
  function New(id: nat, name: Value, price: Value, subTypes: Value): (p: GenericProductWithHashEquals)
    ensures p.id == id
    ensures SameInstance(GetName(p), name) && SameInstance(GetPrice(p), price) && SameInstance(GetSubTypes(p), subTypes)
  {
    GenericProductWithHashEquals(id, name, price, subTypes)
  }

  function GetName(p: GenericProductWithHashEquals): Value { p.name }
  function GetPrice(p: GenericProductWithHashEquals): Value { p.price }
  function GetSubTypes(p: GenericProductWithHashEquals): Value { p.subTypes }

  /** The three fields agree pairwise under Objects.equals. */
  predicate SameFields(p: GenericProductWithHashEquals, q: GenericProductWithHashEquals)
  {
    ShallowEquals(p.name, q.name) && ShallowEquals(p.price, q.price) && ShallowEquals(p.subTypes, q.subTypes)
  }

  /** equals: the same reference; otherwise false for null and for another class;
      otherwise Objects.equals on name, price and subTypes. */
  predicate ProductEquals(self: GenericProductWithHashEquals, o: Other)
  {
    if o.AProduct? && o.p.id == self.id then true
    else if !o.AProduct? then false
    else SameFields(self, o.p)
  }

  /** hashCode: Objects.hash(name, price, subTypes). */
  function ProductHash(h: Hashing, self: GenericProductWithHashEquals): Int32Bits
  {
    HashFold([ShallowHash(h, self.name), ShallowHash(h, self.price), ShallowHash(h, self.subTypes)])
  }

  /** One allocation is one instance. */
  predicate SameAllocationSameProduct(p: GenericProductWithHashEquals, q: GenericProductWithHashEquals)
  {
    p.id == q.id ==> p == q
  }

  lemma EqualsReflexive(p: GenericProductWithHashEquals)
    ensures ProductEquals(p, AProduct(p))
  {
  }

  /** equals(null) and equals(anything of another class) are false. */
  lemma EqualsNullOrForeign(p: GenericProductWithHashEquals, otherId: nat)
    ensures !ProductEquals(p, NullRef) && !ProductEquals(p, Foreign(otherId))
  {
  }

  /** Two products are equal exactly when their fields are pairwise equal. */
  lemma EqualsIffSameFields(p: GenericProductWithHashEquals, q: GenericProductWithHashEquals)
    requires SameAllocationSameProduct(p, q)
    ensures ProductEquals(p, AProduct(q)) <==> SameFields(p, q)
  {
    if p.id == q.id {
      ShallowEqualsEquivalence(p.name, p.name, p.name);
      ShallowEqualsEquivalence(p.price, p.price, p.price);
      ShallowEqualsEquivalence(p.subTypes, p.subTypes, p.subTypes);
    }
  }

  lemma EqualsSymmetric(p: GenericProductWithHashEquals, q: GenericProductWithHashEquals)
    requires SameAllocationSameProduct(p, q)
    requires ProductEquals(p, AProduct(q))
    ensures ProductEquals(q, AProduct(p))
  {
    EqualsIffSameFields(p, q);
    ShallowEqualsEquivalence(p.name, q.name, q.name);
    ShallowEqualsEquivalence(p.price, q.price, q.price);
    ShallowEqualsEquivalence(p.subTypes, q.subTypes, q.subTypes);
  }

  lemma EqualsTransitive(p: GenericProductWithHashEquals, q: GenericProductWithHashEquals, r: GenericProductWithHashEquals)
    requires SameAllocationSameProduct(p, q) && SameAllocationSameProduct(q, r) && SameAllocationSameProduct(p, r)
    requires ProductEquals(p, AProduct(q)) && ProductEquals(q, AProduct(r))
    ensures ProductEquals(p, AProduct(r))
  {
    EqualsIffSameFields(p, q);
    EqualsIffSameFields(q, r);
    EqualsIffSameFields(p, r);
    ShallowEqualsEquivalence(p.name, q.name, r.name);
    ShallowEqualsEquivalence(p.price, q.price, r.price);
    ShallowEqualsEquivalence(p.subTypes, q.subTypes, r.subTypes);
  }

  /** Equal products have equal hash codes. */
  lemma EqualsHashConsistent(h: Hashing, p: GenericProductWithHashEquals, q: GenericProductWithHashEquals)
    requires SameAllocationSameProduct(p, q)
    requires ProductEquals(p, AProduct(q))
    ensures ProductHash(h, p) == ProductHash(h, q)
  {
    EqualsIffSameFields(p, q);
    ShallowHashConsistent(h, p.name, q.name);
    ShallowHashConsistent(h, p.price, q.price);
    ShallowHashConsistent(h, p.subTypes, q.subTypes);
  }

  /** A copy with one field replaced by a value Objects.equals tells apart from the
      original's is a different product; its hash code differs exactly when the two
      values of that field hash differently. */
  lemma ChangedNameUnequal(h: Hashing, p: GenericProductWithHashEquals, id: nat, name: Value)
    requires id != p.id && !ShallowEquals(p.name, name)
    ensures var q := New(id, name, p.price, p.subTypes);
      && !ProductEquals(p, AProduct(q)) && !ProductEquals(q, AProduct(p))
      && (ProductHash(h, p) == ProductHash(h, q) <==> ShallowHash(h, p.name) == ShallowHash(h, name))
  {
    var q := New(id, name, p.price, p.subTypes);
    ShallowEqualsEquivalence(name, p.name, name);
    ShallowEqualsEquivalence(p.price, p.price, p.price);
    ShallowEqualsEquivalence(p.subTypes, p.subTypes, p.subTypes);
    HashFoldSingleDifference([ShallowHash(h, p.name), ShallowHash(h, p.price), ShallowHash(h, p.subTypes)],
                             [ShallowHash(h, name), ShallowHash(h, p.price), ShallowHash(h, p.subTypes)], 0);
  }

  lemma ChangedPriceUnequal(h: Hashing, p: GenericProductWithHashEquals, id: nat, price: Value)
    requires id != p.id && !ShallowEquals(p.price, price)
    ensures var q := New(id, p.name, price, p.subTypes);
      && !ProductEquals(p, AProduct(q)) && !ProductEquals(q, AProduct(p))
      && (ProductHash(h, p) == ProductHash(h, q) <==> ShallowHash(h, p.price) == ShallowHash(h, price))
  {
    ShallowEqualsEquivalence(price, p.price, price);
    ShallowEqualsEquivalence(p.name, p.name, p.name);
    ShallowEqualsEquivalence(p.subTypes, p.subTypes, p.subTypes);
    HashFoldSingleDifference([ShallowHash(h, p.name), ShallowHash(h, p.price), ShallowHash(h, p.subTypes)],
                             [ShallowHash(h, p.name), ShallowHash(h, price), ShallowHash(h, p.subTypes)], 1);
  }

  lemma ChangedSubTypesUnequal(h: Hashing, p: GenericProductWithHashEquals, id: nat, subTypes: Value)
    requires id != p.id && !ShallowEquals(p.subTypes, subTypes)
    ensures var q := New(id, p.name, p.price, subTypes);
      && !ProductEquals(p, AProduct(q)) && !ProductEquals(q, AProduct(p))
      && (ProductHash(h, p) == ProductHash(h, q) <==> ShallowHash(h, p.subTypes) == ShallowHash(h, subTypes))
  {
    ShallowEqualsEquivalence(subTypes, p.subTypes, subTypes);
    ShallowEqualsEquivalence(p.name, p.name, p.name);
    ShallowEqualsEquivalence(p.price, p.price, p.price);
    HashFoldSingleDifference([ShallowHash(h, p.name), ShallowHash(h, p.price), ShallowHash(h, p.subTypes)],
                             [ShallowHash(h, p.name), ShallowHash(h, p.price), ShallowHash(h, subTypes)], 2);
  }

  /** Unequal products need not hash differently: a product named "" and one whose name
      is null, otherwise alike, are unequal and have the same hash code, because "" and
      null both hash to 0. */
  lemma UnequalButSameHash(h: Hashing, p: GenericProductWithHashEquals, id: nat, strId: nat)
    requires id != p.id && p.name == Null
    ensures var q := New(id, Ref(strId, StrD("")), p.price, p.subTypes);
      !ProductEquals(p, AProduct(q)) && ProductHash(h, p) == ProductHash(h, q)
  {
    ChangedNameUnequal(h, p, id, Ref(strId, StrD("")));
  }
}
