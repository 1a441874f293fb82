# javaUnitTesting: PojoTester, GetterSetterPair, GenericProductWithHashEquals, Service

A Dafny model of the reflective POJO tester of the `javaUnitTesting` repository and of
the two small value and service classes it exercises. The model has these parts:

- **`PojoTester`** (`harness.dfy`, with `synthesis.dfy`, `discovery.dfy`,
  `equality.dfy`, `reflection.dfy`). This is a class whose state is the object under
  test and the position of the random-number generator. It models these operations:
  - Building the object under test from every declared constructor. The last success
    wins. Failures are swallowed and a `StackOverflowError` escapes.
  - Synthesizing values, in `createField`'s order: array, supplier, enum constant,
    no-argument constructor, then the other constructors.
  - Discovering getter/setter pairs into a sorted map, which stands for the `TreeMap`.
  - `testGettersAndSetters`. Every `Exception` is wrapped as `IllegalStateException`.
  - `testEqualsAndHashcode`. It makes a copy and runs the five basic assertions. Then,
    for each property, it resets the copy, nullifies the field and asserts that the copy
    is unequal to the original and hashes differently.
  - The three `validate…` entry points.
- **`GetterSetterPair`** (`accessors.dfy`). This is a class with two mutable accessor
  slots.
- **`GenericProductWithHashEquals`** (`product.dfy`). This is an immutable value with
  field-wise `equals` and `Objects.hash`.
- **`Service`** (`service.dfy`). `getAllProducts` stores the response it builds for a
  region code in its `response` field.

Java reflection is replaced by a registry of class declarations. Each declaration lists
the class's fields and their types, its methods and their bodies, its constructors and
its equality and its supertypes. `Field.set` and `Method.invoke` accept an object for
any of its supertypes and for `Object`. Objects are values that carry an allocation id. A field write yields a
value with the same id, so `sameInstance` compares ids (numbers and booleans are
compared by value, see "Left out"). Two things are oracles, passed
in as parameters:

- the constructor bodies: `construct(class, index, args)` either throws or gives the
  field store;
- `java.util.Random`: `entropy`, indexed by a counter that also hands out allocation
  ids.

A depth bound stands for the Java stack. When it is exhausted, the result is
`StackOverflowError`, which `catch (Exception)` does not catch.

The lemmas cover the following:

- `equals`/`hashCode` are an equivalence and consistent, and one changed field flips
  `equals`.
- Discovery has an independent characterization and does not depend on method order.
- The resolution order of synthesis is stated as one lemma per step.
- Conventional POJOs pass `validate`.
- A stale getter or a foreign fluent-setter result is reported.
- A copy passes the basic checks, and a nullify round passes exactly when the hashes
  differ, as long as `Field.set` stores the mapper's value as the field's zero.
- With `EQUALS_NULLIFY_MAPPER` as written, a `byte`, `short` or `char` property stops
  `testEqualsAndHashcode` with `IllegalArgumentException` (see Findings).
- Some behaviour of the code as written makes `validateWithEqualsAndHashcode` fail:
  - A boxed numeric property gets `0` from its supplier, and `0` hashes like `null`
    (`HarnessProperties.BoxedZeroHashCollision`).
  - A `Map` property whose random value is `"1"` hashes to 0
    (`HarnessProperties.SingletonMapCanHashLikeNull`).
  - A class with identity `equals` always fails
    (`HarnessProperties.IdentityEqualityRejected`).

Where the code and its description differ, the model follows the code:

- The constructor puts the custom suppliers and then the defaults into one
  `ImmutableMap.Builder`. A custom supplier for a class that already has a default
  supplier therefore makes `build()` throw `IllegalArgumentException`. It does not
  override the default (`Synthesis.BuildMappers`, `Harness.Construction`).
- The two-argument `validateWithEqualsAndHashcode(clazz, ignoreFields)` passes its set
  as the fields to leave out of the equality check, not as getters to ignore
  (`Harness.ValidateWithEqualsAndHashcodeIgnoring`).
- `testEqualsAndHashcode` has no `try`/`catch`, so its exceptions reach the caller
  unwrapped:
  - an empty property name gives `StringIndexOutOfBoundsException`;
  - a setter-only property gives a `NullPointerException` from `v.getGetter()`.
- The per-property loop of `testEqualsAndHashcode` writes the values of
  `EQUALS_NULLIFY_MAPPER` as the static initializer fills it (`Harness.AsWritten`).
  The functions modelling `testEqualsAndHashcode` take the mapper as a parameter, so the corrected mapper's
  properties are proved on the same definitions (see Findings).

## Model

| member | source | states |
|---|---|---|
| Accessors.GetterSetterPair.constructor | src/test/java/bose/edu/junit/util/GetterSetterPair.java:9-18 | a new pair has neither accessor and is not complete |
| Accessors.GetterSetterPair.GetGetter | src/test/java/bose/edu/junit/util/GetterSetterPair.java:25-27 | returns the getter slot as it is now |
| Accessors.GetterSetterPair.SetGetter | src/test/java/bose/edu/junit/util/GetterSetterPair.java:34-36 | replaces the getter and leaves the setter as it was |
| Accessors.GetterSetterPair.GetSetter | src/test/java/bose/edu/junit/util/GetterSetterPair.java:43-45 | returns the setter slot as it is now |
| Accessors.GetterSetterPair.SetSetter | src/test/java/bose/edu/junit/util/GetterSetterPair.java:52-54 | replaces the setter and leaves the getter as it was |
| Accessors.GetterSetterPair.HasGetterAndSetter | src/test/java/bose/edu/junit/util/GetterSetterPair.java:61-63 | true exactly when both accessors are present |
| Accessors.PairLifecycle | src/test/java/bose/edu/junit/util/GetterSetterPair.java:34-63 | after a setter and two getters are set, the pair is complete and holds the last getter |
| Reflection.GetObjectField | src/test/java/bose/edu/junit/util/JUnitReflectionUtil.java:67-75 | the read succeeds exactly when the class declares the field (else IllegalArgumentException) |
| Reflection.SetObjectField | src/test/java/bose/edu/junit/util/JUnitReflectionUtil.java:84-92 | the write succeeds exactly when the field exists and the value converts to its type (unboxing plus primitive widening, or an instance of the field's class, of a subclass or of any class for an `Object` field); the object keeps its identity and class |
| Reflection.SetThenGet | src/test/java/bose/edu/junit/util/JUnitReflectionUtil.java:67-92 | reading a field back after writing it gives the converted value; other fields are unchanged |
| Reflection.Convert | src/test/java/bose/edu/junit/util/JUnitReflectionUtil.java:84-92 | a conforming value passes unchanged, where an object conforms to its own class, to each of its supertypes and to `Object`; conversion to a reference type never changes the value; null never converts to a primitive |
| Reflection.ConvertArgs | src/test/java/bose/edu/junit/util/PojoTester.java:383-384 | Method.invoke accepts the arguments exactly when the counts match and each converts (a subclass instance for a supertype parameter included); the result is the converted arguments |
| Reflection.ReferenceWidening | src/test/java/bose/edu/junit/util/JUnitReflectionUtil.java:84-92 | an object converts unchanged to each of its supertypes and to `Object`, and is refused for any other class |
| Reflection.Invoke | src/test/java/bose/edu/junit/util/PojoTester.java:269 | a call that returns leaves the receiver the same instance of the same class and had convertible arguments; a field getter returns exactly when its field exists and the value converts to the declared return type, and then returns that converted value (widened for a primitive, the field's own value otherwise) |
| JavaLang.FieldName | src/test/java/bose/edu/junit/util/PojoTester.java:376 | property name with an upper-case ASCII first letter lowered (code point minus 32); the rest is kept |
| JavaLang.DecimalRoundTrip | src/test/java/bose/edu/junit/util/PojoTester.java:55 | String.valueOf of a non-negative int parses back to the same number |
| JavaLang.DecimalLength | src/test/java/bose/edu/junit/util/PojoTester.java:55 | a number below 10^k prints in at most k digits |
| JavaLang.DecimalStringHashPositive | src/test/java/bose/edu/junit/util/PojoTester.java:55 | the String supplier's value (below 32767) has a hash code strictly between 0 and 121196736 |
| JavaLang.ShortAsciiHashPositive | src/test/java/bose/edu/junit/util/PojoTester.java:55 | a non-empty ASCII string of at most six characters hashes to a positive value below the bound |
| JavaLang.InsertSorted | src/test/java/bose/edu/junit/util/PojoTester.java:415 | inserting a new key into TreeMap's sorted key list keeps it strictly sorted and adds exactly that key |
| JavaLang.SortedUnique | src/test/java/bose/edu/junit/util/PojoTester.java:415 | two strictly sorted key lists with the same keys are equal, so the iteration order is determined by the key set |
| JavaLang.StrLessTransitive | src/test/java/bose/edu/junit/util/PojoTester.java:415 | String.compareTo order is transitive |
| JavaLang.StrLessTotal | src/test/java/bose/edu/junit/util/PojoTester.java:415 | String.compareTo order is total |
| JavaLang.StrLessIrreflexive | src/test/java/bose/edu/junit/util/PojoTester.java:415 | no string sorts before itself |
| JavaLang.StrLessAsymmetric | src/test/java/bose/edu/junit/util/PojoTester.java:415 | two strings never sort before each other |
| Discovery.Classify | src/test/java/bose/edu/junit/util/PojoTester.java:418-456 | an ignored name has no role; a getter is a no-argument get/is method; a setter is a one-argument set method; the suffix is the property |
| Discovery.ClassifyComplete | src/test/java/bose/edu/junit/util/PojoTester.java:426-456 | every non-ignored get/is method without parameters is a getter, and every set method with one parameter is a setter |
| Discovery.LastWith | src/test/java/bose/edu/junit/util/PojoTester.java:431-455 | the last method in visiting order with the role, or none exactly when no method has it |
| Discovery.DiscoveredCharacterized | src/test/java/bose/edu/junit/util/PojoTester.java:413-459 | a property is discovered exactly when it has a getter or a setter, and its pair holds the last getter and the last setter |
| Discovery.DiscoveredShape | src/test/java/bose/edu/junit/util/PojoTester.java:413-459 | every discovered pair has an accessor, which is one of the class's methods and carries the property's name |
| Discovery.LastWithSameMembers | src/test/java/bose/edu/junit/util/PojoTester.java:417 | with one accessor per role, the method chosen does not depend on the order getMethods returns |
| Discovery.DiscoveredOrderIndependent | src/test/java/bose/edu/junit/util/PojoTester.java:417 | with one accessor per role, the discovered map does not depend on the order getMethods returns |
| Discovery.GetGetterSettersPair | src/test/java/bose/edu/junit/util/PojoTester.java:413-459 | fresh, unshared GetterSetterPair objects whose contents are the discovered pairs, with keys in sorted order |
| Discovery.DiscoverOne | src/test/java/bose/edu/junit/util/PojoTester.java:418-456 | one loop iteration changes the map contents exactly as one merge of the method's role; new pair objects are fresh |
| Discovery.AddAccessor | src/test/java/bose/edu/junit/util/PojoTester.java:425-455 | a fresh pair holding the accessor is merged under the property, keys stay sorted |
| Discovery.MergeGetter | src/test/java/bose/edu/junit/util/PojoTester.java:425-435 | Map.merge with a new getter pair: an existing pair gets its getter replaced in place, otherwise the new pair is added; keys stay sorted |
| Discovery.MergeSetter | src/test/java/bose/edu/junit/util/PojoTester.java:436-445 | Map.merge with a new setter pair: an existing pair gets its setter replaced in place, otherwise the new pair is added; keys stay sorted |
| Synthesis.Draw | src/test/java/bose/edu/junit/util/PojoTester.java:38 | Random.nextInt(bound) is below the bound |
| Synthesis.DefaultSupply | src/test/java/bose/edu/junit/util/PojoTester.java:33-66 | per default key: primitives from 1 up to the bound, true for booleans, 0 for boxed numbers, a 1-5 digit String, one-element collections, a map with key "1"; always non-null and of the type |
| Synthesis.BuildMappers | src/test/java/bose/edu/junit/util/PojoTester.java:119-126 | the supplier table builds exactly when no custom key is a default key, and then the custom entries are kept |
| Synthesis.Supplier | src/test/java/bose/edu/junit/util/PojoTester.java:294-297 | a supplier exists exactly for custom and default keys; a custom one hands back its value |
| Synthesis.ArrayElementClass | src/test/java/bose/edu/junit/util/PojoTester.java:491-499 | each of the eight one-dimensional primitive arrays maps to its primitive through `ARRAY_FIELD_MAPPER` (filled at lines 79-86); a primitive array of two or more dimensions fails; an array of a top-level class or enum maps to it and one of a nested class fails, because `Class.forName` of a canonical name does not find it |
| Synthesis.DefaultConstructed | src/test/java/bose/edu/junit/util/PojoTester.java:323-329 | a result exists exactly when the class declares a public no-argument constructor whose body does not throw, and it is a new instance holding that constructor's store |
| Synthesis.FirstNullary | src/test/java/bose/edu/junit/util/PojoTester.java:325 | the first declared constructor without parameters |
| Synthesis.CreateField | src/test/java/bose/edu/junit/util/PojoTester.java:288-315 | a made reference is a new allocation or a custom supplier's value; an array holds one element |
| Synthesis.Args | src/test/java/bose/edu/junit/util/PojoTester.java:343-348 | one argument per parameter, synthesized in order |
| Synthesis.Attempt | src/test/java/bose/edu/junit/util/PojoTester.java:341-353 | a successful constructor call yields a new instance of the class |
| Synthesis.OtherConstructors | src/test/java/bose/edu/junit/util/PojoTester.java:337-359 | a result is a new instance of the class |
| Synthesis.Trace | src/test/java/bose/edu/junit/util/PojoTester.java:340-354 | the attempts in declaration order, cut short only by a stack overflow |
| Synthesis.FirstOutcomeCharacterized | src/test/java/bose/edu/junit/util/PojoTester.java:349-350 | the loop's result is the first attempt that did not fail, every earlier one having failed; it fails only if all failed |
| Synthesis.OtherConstructorsIsFirstOutcome | src/test/java/bose/edu/junit/util/PojoTester.java:337-359 | createFldUsingOtherConstructor equals the first-outcome reading of its trace |
| Synthesis.CreateFieldNonNull | src/test/java/bose/edu/junit/util/PojoTester.java:288-315 | with non-null custom suppliers, a synthesized value is never null |
| Synthesis.ArrayFirst | src/test/java/bose/edu/junit/util/PojoTester.java:291-292 | an array type takes the array path and yields a new one-element array of the element class; every one-dimensional primitive array without a custom supplier for its element succeeds |
| Synthesis.MapperBeforeEnumAndConstructors | src/test/java/bose/edu/junit/util/PojoTester.java:294-297 | a custom supplier wins over enum constants and constructors |
| Synthesis.EnumFirstConstant | src/test/java/bose/edu/junit/util/PojoTester.java:299-301 | an enum yields its first constant; an enum without constants fails |
| Synthesis.NoArgConstructorPreferred | src/test/java/bose/edu/junit/util/PojoTester.java:303 | a working public no-argument constructor is used, as a new allocation |
| Synthesis.OtherConstructorsLast | src/test/java/bose/edu/junit/util/PojoTester.java:305-309 | without a usable no-argument constructor, the other-constructors loop decides |
| Synthesis.SelfReferenceOverflows | src/test/java/bose/edu/junit/util/PojoTester.java:337-359 | a class whose only constructor takes itself overflows the stack at any depth |
| Synthesis.SequentialSynthesesDistinct | src/test/java/bose/edu/junit/util/PojoTester.java:288-315 | two syntheses in a row give different instances unless a custom supplier handed them out |
| HashArith.HashFoldIsPolyMod | src/main/java/bose/edu/junit/valueobjects/GenericProductWithHashEquals.java:40 | Objects.hash's 31-fold is the polynomial in 31 reduced to 32 bits |
| HashArith.PolyDifference | src/main/java/bose/edu/junit/valueobjects/GenericProductWithHashEquals.java:40 | a change in one position changes the polynomial by a power of 31 times the change |
| HashArith.HashFoldSingleDifference | src/main/java/bose/edu/junit/valueobjects/GenericProductWithHashEquals.java:40 | Objects.hash of lists differing in one position agree exactly when that position's hashes agree |
| Equality.SumPermutation | src/test/java/bose/edu/junit/util/PojoTester.java:62 | a set's hash sum does not depend on element order |
| Equality.SameEntryMapHash | src/test/java/bose/edu/junit/util/PojoTester.java:64 | a one-entry map whose key and value are the same string hashes to 0 (the entry hash is key hash xor value hash) |
| Equality.XorSelf | src/test/java/bose/edu/junit/util/PojoTester.java:64 | a number xor itself is 0 |
| Equality.ShallowEqualsEquivalence | src/main/java/bose/edu/junit/valueobjects/GenericProductWithHashEquals.java:34-35 | Objects.equals on field values is reflexive, symmetric and transitive |
| Equality.ShallowHashConsistent | src/main/java/bose/edu/junit/valueobjects/GenericProductWithHashEquals.java:40 | Objects.equals field values have the same hash code |
| Equality.FieldHashes | src/main/java/bose/edu/junit/valueobjects/GenericProductWithHashEquals.java:40 | one hash per listed field, null fields hashing as null |
| Equality.EqualsReflexive | src/test/java/bose/edu/junit/util/PojoTester.java:206 | every object equals itself |
| Equality.EqualsSymmetric | src/test/java/bose/edu/junit/util/PojoTester.java:208-211 | equals is symmetric |
| Equality.EqualsTransitive | src/test/java/bose/edu/junit/util/PojoTester.java:208-211 | equals is transitive |
| Equality.EqualsHashConsistent | src/test/java/bose/edu/junit/util/PojoTester.java:212 | equal objects have equal hash codes |
| Equality.SingleFieldDifference | src/test/java/bose/edu/junit/util/PojoTester.java:221-224 | objects differing in one equality field are unequal both ways, and hash alike exactly when that field's values do |
| Harness.TryAll | src/test/java/bose/edu/junit/util/PojoTester.java:235-251 | the constructor loop only moves the generator forward |
| Harness.TryAllMakes | src/test/java/bose/edu/junit/util/PojoTester.java:237-251 | a changed object under test was made by one of the class's constructors during the loop |
| Harness.TryAllIsLastSuccess | src/test/java/bose/edu/junit/util/PojoTester.java:237-251 | the loop overflows exactly when an attempt overflowed, and otherwise keeps the last object made |
| Harness.LastMadeCharacterized | src/test/java/bose/edu/junit/util/PojoTester.java:247 | the kept object is the last success, or the starting value when nothing succeeded |
| Harness.FirstVersusLast | src/test/java/bose/edu/junit/util/PojoTester.java:235-359 | with two working constructors, createField uses the first while setObjectUnderTest keeps the second, a different instance |
| Harness.IgnoredGetters | src/test/java/bose/edu/junit/util/PojoTester.java:113-117 | the ignored getters are the given names plus getClass, and nothing else |
| Harness.Construction | src/test/java/bose/edu/junit/util/PojoTester.java:111-131 | a bad supplier table gives IllegalArgumentException, no constructors give IllegalStateException, success yields a new instance of the class |
| Harness.VerifyGetter | src/test/java/bose/edu/junit/util/PojoTester.java:266-277 | passes exactly when the getter returns and its result, converted to the return type, is `is`-equal (primitive return) or the same instance (otherwise) |
| Harness.ExerciseStep | src/test/java/bose/edu/junit/util/PojoTester.java:372-405 | a passing property step leaves the same instance of the same class and does not rewind the generator |
| Harness.ExerciseFrom | src/test/java/bose/edu/junit/util/PojoTester.java:372-402 | a passing loop leaves the same instance of the same class |
| Harness.SortedOf | src/test/java/bose/edu/junit/util/PojoTester.java:415 | the key set in strictly sorted order |
| Harness.Exercise | src/test/java/bose/edu/junit/util/PojoTester.java:365-406 | a passing testGettersAndSetters leaves the same instance of the same class |
| Harness.NullifyAsWritten | src/test/java/bose/edu/junit/util/PojoTester.java:68-76 | the mapper as written: Integer 0 for every non-boolean primitive, false for boolean, null otherwise |
| Harness.NullifyAsWrittenRejected | src/test/java/bose/edu/junit/util/PojoTester.java:74-76 | for a primitive field, the written value is rejected by Field.set exactly for byte, short and char |
| Harness.NullifyFixed | src/test/java/bose/edu/junit/util/PojoTester.java:68-76 | the corrected mapper's value is stored unchanged by Field.set, and wherever Field.set accepts the as-written value it stores this same value |
| Harness.StoresZeroIff | src/test/java/bose/edu/junit/util/PojoTester.java:68-76 | Field.set stores the mapper's value as the field's zero always for the corrected mapper, and for the mapper as written exactly when the type is not byte, short or char |
| Harness.CopyFields | src/test/java/bose/edu/junit/util/PojoTester.java:483-489 | a completed copy is the same target instance of the same class |
| Harness.CopyFieldsCopies | src/test/java/bose/edu/junit/util/PojoTester.java:483-489 | after copyProperties every property's field equals the source's and every other field is unchanged |
| Harness.CopyFieldsSucceeds | src/test/java/bose/edu/junit/util/PojoTester.java:483-489 | copyProperties succeeds when every property has a backing field |
| Harness.ObjectCopy | src/test/java/bose/edu/junit/util/PojoTester.java:467-475 | a copy is an object and the generator only moves forward |
| Harness.BasicChecks | src/test/java/bose/edu/junit/util/PojoTester.java:206-212 | passes exactly when the object equals itself, not a new Object, and the copy both ways, with the copy's hash code; otherwise an assertion fails |
| Harness.NullifyOne | src/test/java/bose/edu/junit/util/PojoTester.java:215-224 | a passing round, which writes the mapper's value for the getter's return type, leaves a copy unequal to the object and with a different hash code |
| Harness.EqualityCheckOn | src/test/java/bose/edu/junit/util/PojoTester.java:203-227 | a passing check, with the given mapper, leaves the object under test unchanged and allocates the copy and a new Object |
| Harness.PojoTester.constructor | src/test/java/bose/edu/junit/util/PojoTester.java:111-128 | stores the ignored getters with getClass added, the ignored equality fields (empty for null) and the suppliers |
| Harness.PojoTester.SynthesizeArgs | src/test/java/bose/edu/junit/util/PojoTester.java:241-245 | fills the argument array by createField in order, as Args specifies |
| Harness.PojoTester.SetObjectUnderTest | src/test/java/bose/edu/junit/util/PojoTester.java:235-255 | runs the constructor loop as TryAll specifies; a null result is IllegalStateException |
| Harness.PojoTester.CheckGetter | src/test/java/bose/edu/junit/util/PojoTester.java:266-277 | calls the getter on the object under test as VerifyGetter specifies |
| Harness.PojoTester.ExercisePair | src/test/java/bose/edu/junit/util/PojoTester.java:373-401 | exercises one pair as ExerciseStep specifies and updates the object under test |
| Harness.PojoTester.TestGettersAndSetters | src/test/java/bose/edu/junit/util/PojoTester.java:365-406 | discovers the pairs and exercises them in key order, as Exercise specifies |
| Harness.PojoTester.ExercisePairs | src/test/java/bose/edu/junit/util/PojoTester.java:371-401 | the loop over the entries stops at the first failing pair and otherwise leaves the object and the entropy tick where ExerciseFrom says |
| Harness.PojoTester.CopyProperties | src/test/java/bose/edu/junit/util/PojoTester.java:483-489 | copies each property's field in key order, as CopyFields specifies |
| Harness.PojoTester.GetAnObjectCopy | src/test/java/bose/edu/junit/util/PojoTester.java:467-475 | synthesizes an instance of the object's class and copies the properties, as ObjectCopy specifies |
| Harness.PojoTester.NullifyProperty | src/test/java/bose/edu/junit/util/PojoTester.java:216-224 | one nullify round writing EQUALS_NULLIFY_MAPPER's value as written, as NullifyOne with AsWritten specifies |
| Harness.PojoTester.NullifyLoop | src/test/java/bose/edu/junit/util/PojoTester.java:214-226 | the per-property loop, skipping ignored fields, as NullifyFrom with the mapper as written specifies |
| Harness.PojoTester.RunEqualityCheck | src/test/java/bose/edu/junit/util/PojoTester.java:204-226 | the copy, basic checks and loop, as EqualityCheckOn with the mapper as written specifies |
| Harness.PojoTester.TestEqualsAndHashcode | src/test/java/bose/edu/junit/util/PojoTester.java:203-227 | the whole equality test on the discovered pairs with the mapper as written; the object under test is not changed |
| Harness.Create | src/test/java/bose/edu/junit/util/PojoTester.java:111-131 | a tester exists exactly when Construction succeeds, holding the object it built |
| Harness.Validate | src/test/java/bose/edu/junit/util/PojoTester.java:140-156 | construction then testGettersAndSetters; fails exactly as ValidateRun does |
| Harness.ValidateWithEqualsAndHashcode | src/test/java/bose/edu/junit/util/PojoTester.java:165-198 | construction, testGettersAndSetters, then testEqualsAndHashcode with the mapper as written; fails exactly as ValidateWithEqualsRun does |
| Harness.ValidateWithEqualsAndHashcodeIgnoring | src/test/java/bose/edu/junit/util/PojoTester.java:177-179 | default suppliers; the given names are the equality fields to skip |
| HarnessProperties.DefaultSynthesis | src/test/java/bose/edu/junit/util/PojoTester.java:294-297 | a default key without a custom supplier is synthesized by its default supplier |
| HarnessProperties.StandardPropertyPasses | src/test/java/bose/edu/junit/util/PojoTester.java:378-391 | a conventional get/set pair over a field passes, and the field holds the supplied value afterwards |
| HarnessProperties.GetterOnlyPropertyPasses | src/test/java/bose/edu/junit/util/PojoTester.java:392-401 | a conventional getter without setter passes by a direct field write |
| HarnessProperties.ConventionalLoopPasses | src/test/java/bose/edu/junit/util/PojoTester.java:372-402 | a class whose every property is conventional passes the loop |
| HarnessProperties.ConventionalClassValidates | src/test/java/bose/edu/junit/util/PojoTester.java:140-156 | validate succeeds on a constructible class whose properties are conventional |
| HarnessProperties.StaleGetterDetected | src/test/java/bose/edu/junit/util/PojoTester.java:391 | a getter returning a fixed value while the setter writes the field is reported as different |
| HarnessProperties.SubclassSupplierPropertyPasses | src/test/java/bose/edu/junit/util/PojoTester.java:378-391 | a property typed by an abstract class or interface, whose custom supplier gives an instance of a subclass, passes, and the field holds that instance afterwards |
| HarnessProperties.WideningGetterDetected | src/test/java/bose/edu/junit/util/PojoTester.java:269-273 | a `long` getter over an `int` field fails: the Long it returns is not equal to the Integer the setter was given |
| HarnessProperties.ForeignSetterResultDetected | src/test/java/bose/edu/junit/util/PojoTester.java:387-390 | a setter returning some other non-null object fails the fluent-setter assertion |
| HarnessProperties.EmptyPropertyName | src/test/java/bose/edu/junit/util/PojoTester.java:376 | the property named by bare get/set/is fails with IllegalStateException |
| HarnessProperties.CopyPassesBasicChecks | src/test/java/bose/edu/junit/util/PojoTester.java:204-212 | for field-wise equality over properties, the copy succeeds and passes the five basic assertions |
| HarnessProperties.IdentityEqualityRejected | src/test/java/bose/edu/junit/util/PojoTester.java:208-209 | a class using Object.equals always fails the copy assertion |
| HarnessProperties.NullifyRound | src/test/java/bose/edu/junit/util/PojoTester.java:215-224 | with a mapper whose value Field.set stores as the zero, nullifying a field that differs from its zero passes exactly when the two values hash differently; otherwise the hash assertion fails |
| HarnessProperties.NullifyRoundRejected | src/test/java/bose/edu/junit/util/PojoTester.java:217-219 | a round whose value Field.set refuses for the field stops with IllegalArgumentException |
| HarnessProperties.NullifiedCopyAgrees | src/test/java/bose/edu/junit/util/PojoTester.java:217-219 | after the reset and the write of one field, every other field equals compares agrees with the original |
| HarnessProperties.NullifyLoopPasses | src/test/java/bose/edu/junit/util/PojoTester.java:214-226 | the loop passes when every non-ignored property's value is told apart from its zero by equals and hash and the mapper's value is stored as that zero: for every such class with the corrected mapper, and for those without byte, short or char properties with the mapper as written |
| HarnessProperties.NullifyLoopRejectsNarrow | src/test/java/bose/edu/junit/util/PojoTester.java:214-226 | with the mapper as written, the loop stops with IllegalArgumentException at the first non-ignored byte, short or char property once the earlier ones pass |
| HarnessProperties.BoxedZeroHashCollision | src/test/java/bose/edu/junit/util/PojoTester.java:47-54 | a boxed numeric property holding its supplier's 0 always fails the hash assertion |
| HarnessProperties.SuppliedValueDistinguishable | src/test/java/bose/edu/junit/util/PojoTester.java:33-66 | a default supplier's value is told apart from the type's zero by equals and hash exactly when the type is not a boxed number |
| HarnessProperties.BoxedSupplyHashesLikeNull | src/test/java/bose/edu/junit/util/PojoTester.java:47-54 | boxed numeric suppliers' 0 hashes as null; Boolean.TRUE does not |
| HarnessProperties.CollectionSupplyHashPositive | src/test/java/bose/edu/junit/util/PojoTester.java:62-63 | the List and Set suppliers' values have a positive hash code |
| HarnessProperties.SingletonMapCanHashLikeNull | src/test/java/bose/edu/junit/util/PojoTester.java:64 | when the random value is 1 the Map supplier's map is non-null yet hashes as null |
| HarnessProperties.NullifyAsWrittenFailsNarrowFields | src/test/java/bose/edu/junit/util/PojoTester.java:218-219 | Field.set rejects the written mapper's value for byte, short and char fields and accepts the corrected one |
| Product.New | src/main/java/bose/edu/junit/valueobjects/GenericProductWithHashEquals.java:11-27 | the getters return the very instances passed to the constructor |
| Product.EqualsReflexive | src/main/java/bose/edu/junit/valueobjects/GenericProductWithHashEquals.java:31 | a product equals itself |
| Product.EqualsNullOrForeign | src/main/java/bose/edu/junit/valueobjects/GenericProductWithHashEquals.java:32 | equals(null) and equals of another class are false |
| Product.EqualsIffSameFields | src/main/java/bose/edu/junit/valueobjects/GenericProductWithHashEquals.java:30-36 | two products are equal exactly when name, price and subTypes are pairwise Objects.equals |
| Product.EqualsSymmetric | src/main/java/bose/edu/junit/valueobjects/GenericProductWithHashEquals.java:30-36 | equals is symmetric |
| Product.EqualsTransitive | src/main/java/bose/edu/junit/valueobjects/GenericProductWithHashEquals.java:30-36 | equals is transitive |
| Product.EqualsHashConsistent | src/main/java/bose/edu/junit/valueobjects/GenericProductWithHashEquals.java:30-41 | equal products have equal hash codes |
| Product.ChangedNameUnequal | src/main/java/bose/edu/junit/valueobjects/GenericProductWithHashEquals.java:34-40 | a product with a different name is unequal both ways, and hashes alike exactly when the names do |
| Product.ChangedPriceUnequal | src/main/java/bose/edu/junit/valueobjects/GenericProductWithHashEquals.java:34-40 | a product with a different price is unequal both ways, and hashes alike exactly when the prices do |
| Product.ChangedSubTypesUnequal | src/main/java/bose/edu/junit/valueobjects/GenericProductWithHashEquals.java:34-40 | a product with different subTypes is unequal both ways, and hashes alike exactly when the maps do |
| Product.UnequalButSameHash | src/main/java/bose/edu/junit/valueobjects/GenericProductWithHashEquals.java:34-40 | a product named "" and one with a null name are unequal but have the same hash code |
| Service.Service.constructor | src/main/java/bose/edu/junit/day1/Service.java:8 | no response before the first call |
| Service.Service.GetAllProducts | src/main/java/bose/edu/junit/day1/Service.java:9-21 | region "1" gives status 200 with ipad, iphone and mac book pro; anything else, null included, gives 400 with no list; the field holds the answer |
| Service.AskTwice | src/main/java/bose/edu/junit/day1/Service.java:9-21 | status 200 comes exactly for region "1" with the three product names; two calls with the same region give answers with the same contents; the field keeps the latest answer |

## Left out

- Reflection itself is not modelled: `getDeclaredConstructors`, `getMethods`,
  `Field`/`Method` handles and `setAccessible`. Classes are declarations in a registry,
  and constructor bodies are an oracle parameter.
- Inherited fields are not modelled. Spring's `ReflectionUtils.findField` searches
  superclasses, but the registry gives each class one flat field map.
- Reflection.Convert: the supertypes of library classes are modelled only as far as
  `Object`. Registry classes list every supertype in `ClassDecl.supers`, so a subclass
  instance is accepted for an abstract or interface type. But a box is not an instance of
  `Number` or `Comparable` here, a `String` is not a `CharSequence`, and a supplied `Set`
  or `List` is not a `Collection`. A registry class that implements `java.util.List`,
  `Set` or `Map` is not an instance of those interface types. Array covariance covers
  arrays of registry classes only, so a `String[]` is not an `Object[]`.
- `java.util.Random` and the clock are parameters. `Random` is `entropy`, indexed by
  the tick counter. `Date::new` and `LocalDateTime::now` are fresh objects whose time
  stamp is drawn from `entropy`. Both hash the stamp as `Long.hashCode` does, a
  simplification for `LocalDateTime`. Identity hash codes and enum hash codes are an
  uninterpreted parameter (`Hashing`).
- Floating point is not modelled: `double`/`float` values are integers.
  `Double.hashCode` and `Float.hashCode` are simplified to the 32-bit wrap of the value.
- HarnessProperties.SuppliedValueDistinguishable: does not cover `Date`,
  `LocalDateTime` or `Map`. The first two hash a time stamp that may be 0. The third
  can hash to 0 (see `SingletonMapCanHashLikeNull`).
- The Java stack is a depth bound in `Env`. Exhausting it gives `StackOverflowError`.
  The exact depth at which the JVM overflows is not modelled.
- Assertion messages are kept only as the fixed part of the Hamcrest reason. The
  property name prefixed in `verifyGetter` and the exception messages are dropped.
- Harness.VerifyGetter: reports "is different" without the field-name prefix. It also
  gives boxes of numbers no identity: `sameInstance` compares them by value. In Java a
  number that passes through a primitive parameter or field is boxed again, and the new
  box is the same instance only when `Integer.valueOf` and its kin return a cached box
  (booleans, bytes, integral values from -128 to 127). So a `Double getPrice()` over a
  `double` field, or an `Integer getX()` over an `int` field whose drawn value is above
  127, fails in Java and passes here. Modelling it would give every box an allocation.
- Harness.PojoTester.CheckGetter: inherits the by-value comparison of boxes from
  Harness.VerifyGetter.
- Equality.ShallowEquals, Equality.ShallowHash: a field holding an object of a registry
  class is compared by identity and hashed by the identity hash. That is exact when the
  nested class keeps `Object.equals`. When the nested class has field-wise `equals`,
  Java calls it, and the model does not.
- JavaLang.FieldName: lowers only `A`-`Z`. Java's `toLowerCase()` also lowers non-ASCII
  capitals and follows the default locale, so a Turkish locale turns `Id` into `ıd`.
  Property names are taken to be ASCII, under a locale that lowers ASCII the usual way.
- JavaLang.StringHash: a Dafny `char` is a Unicode scalar value and a Java `char` a
  UTF-16 unit. Hashes and `compareTo` order agree with Java only for strings without
  supplementary characters.
- `getGetterSettersPair` runs once per test in the model. `getAnObjectCopy` and
  `copyProperties` call it again in the source, but the class and the ignored getters
  are the same, so it returns the same map.
- Custom suppliers are constant values, one per class. A Java supplier may compute a
  new value on each call.
- Harness.ValidateWithEqualsAndHashcodeIgnoring: requires no custom suppliers, because
  the Java overload passes `null` for them.
- Equality.EqualsSymmetric, Equality.EqualsTransitive, Equality.EqualsHashConsistent:
  these require that values with the same allocation id are identical (`Coherent`).
  The model's values carry the object's state, so in Java this always holds.
- Day1 `Response` and `Product` are not part of this model as files. Their shape is
  taken from the `valueobjects` classes: two strings and a nullable list, and a name and
  a price.
- `JUnitReflectionUtil`'s other helpers (static fields, method invocation by name,
  annotations) are not used by the tester and are not part of this model. The
  controllers and the JUnit tests are not part of this model either.

## Findings

| source | as written | input that shows it | evidently intended | confidence | as-written member | corrected member |
|---|---|---|---|---|---|---|
| src/test/java/bose/edu/junit/util/PojoTester.java:74-76 | `EQUALS_NULLIFY_MAPPER` stores the `Integer` 0 for `short`, `byte` and `char`; `Field.set` only unboxes and widens, so it throws `IllegalArgumentException` for such a field | any POJO with a `short`, `byte` or `char` property not listed in `ignoredEqualsAndHash`, passed to `validateWithEqualsAndHashcode` | the zero of the field's own type, which `Field.set` stores unchanged, so that the round compares equality and hash (`HarnessProperties.NullifyLoopPasses` with the corrected mapper) | high, not executed | HarnessProperties.NullifyLoopRejectsNarrow | Harness.NullifyFixed |
