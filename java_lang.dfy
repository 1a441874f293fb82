/** The pieces of java.lang behaviour the harness depends on: 32-bit int arithmetic,
    String.hashCode, String.valueOf(int), the order of String.compareTo (the order a
    TreeMap<String, _> keeps its keys in) and the lower-casing of a property name's
    first letter. */
module JavaLang {

  const TwoTo32: int := 0x1_0000_0000

  /** A Java int, given by its 32 bits read as an unsigned number. */
  type Int32Bits = x: int | 0 <= x < TwoTo32

  /** The low 32 bits of x: what Java int arithmetic keeps of an exact result. */
  function Wrap32(x: int): Int32Bits
  {
    x % TwoTo32
  }

  // ---------------------------------------------------------------------------
  // String.hashCode

  /** String.hashCode: h := 31 * h + c for every character c, in int arithmetic. A
      Dafny char is a Unicode scalar value and a Java char a UTF-16 unit, so this agrees
      with Java on strings without supplementary characters. */
  function StringHash(s: string): Int32Bits
  {
    if s == [] then 0 else Wrap32(31 * StringHash(s[..|s| - 1]) + s[|s| - 1] as int)
  }

  /** The largest value the hash recurrence can reach on n characters below 128. */
  function AsciiHashBound(n: nat): nat
  {
    if n == 0 then 0 else 31 * AsciiHashBound(n - 1) + 127
  }

  lemma {:induction false} AsciiHashBoundMonotone(m: nat, n: nat)
    requires m <= n
    ensures AsciiHashBound(m) <= AsciiHashBound(n)
  {
    if m < n {
      AsciiHashBoundMonotone(m, n - 1);
    }
  }

  /** On at most six characters in 1..127 the hash never wraps, so it is the exact
      polynomial value, and it is positive as soon as there is one character: such a
      string never hashes like null (whose Objects.hashCode is 0). */
  lemma {:induction false} ShortAsciiHashPositive(s: string)
    requires |s| <= 6
    requires forall i :: 0 <= i < |s| ==> 0 < s[i] as int < 128
    ensures StringHash(s) <= AsciiHashBound(|s|)
    ensures s != [] ==> StringHash(s) > 0
  {
    if s != [] {
      var p := s[..|s| - 1];
      ShortAsciiHashPositive(p);
      AsciiHashBoundMonotone(|p|, 5);
      assert AsciiHashBound(5) == 121196735;
      var exact := 31 * StringHash(p) + s[|s| - 1] as int;
      assert 0 < exact < TwoTo32;
      assert StringHash(s) == exact;
    }
  }

  // ---------------------------------------------------------------------------
  // String.valueOf(int) for the non-negative values the default suppliers draw

  predicate IsDigit(c: char)
  {
    '0' <= c <= '9'
  }

  predicate AllDigits(s: string)
  {
    forall i :: 0 <= i < |s| ==> IsDigit(s[i])
  }

  function DigitChar(d: nat): (c: char)
    requires d < 10
    ensures IsDigit(c) && (c as int) - ('0' as int) == d
  {
    (('0' as int) + d) as char
  }

  /** String.valueOf(n) for n >= 0: the decimal digits, without leading zeros. */
  function DecimalString(n: nat): (r: string)
    ensures r != [] && AllDigits(r)
    ensures |r| > 1 ==> r[0] != '0'
  {
    if n < 10 then [DigitChar(n)] else DecimalString(n / 10) + [DigitChar(n % 10)]
  }

  /** Integer.parseInt on a string of digits: the inverse of DecimalString. */
  function ParseDecimal(s: string): nat
    requires AllDigits(s)
  {
    if s == [] then 0 else 10 * ParseDecimal(s[..|s| - 1]) + ((s[|s| - 1] as int) - ('0' as int))
  }

  lemma {:induction false} DecimalRoundTrip(n: nat)
    ensures ParseDecimal(DecimalString(n)) == n
  {
    if n >= 10 {
      DecimalRoundTrip(n / 10);
      var s := DecimalString(n);
      assert s[..|s| - 1] == DecimalString(n / 10);
    }
  }

  function Pow10(k: nat): nat
  {
    if k == 0 then 1 else 10 * Pow10(k - 1)
  }

  /** A value below 10^k has at most k digits (and always at least one). */
  lemma {:induction false} DecimalLength(n: nat, k: nat)
    requires 0 < k && n < Pow10(k)
    ensures 1 <= |DecimalString(n)| <= k
  {
    if n >= 10 {
      assert k > 1;
      assert n / 10 < Pow10(k - 1);
      DecimalLength(n / 10, k - 1);
    }
  }

  /** The strings the default String supplier produces hash to a positive value, small
      enough that no further step of a hash recurrence over it wraps either. */
  lemma DecimalStringHashPositive(n: nat)
    requires n < 100000
    ensures 0 < StringHash(DecimalString(n)) <= 121196735
  {
    assert Pow10(5) == 100000;
    DecimalLength(n, 5);
    var s := DecimalString(n);
    assert forall i :: 0 <= i < |s| ==> 0 < s[i] as int < 128 by {
      forall i | 0 <= i < |s| ensures 0 < s[i] as int < 128 {
        assert IsDigit(s[i]);
      }
    }
    ShortAsciiHashPositive(s);
    AsciiHashBoundMonotone(|s|, 5);
    assert AsciiHashBound(5) == 121196735;
  }

  // ---------------------------------------------------------------------------
  // String.compareTo and the TreeMap key order

  /** a.compareTo(b) < 0: the first differing character decides, a proper prefix comes first. */
  predicate StrLess(a: string, b: string)
    decreases |a|
  {
    if a == [] then b != []
    else if b == [] then false
    else if a[0] != b[0] then a[0] < b[0]
    else StrLess(a[1..], b[1..])
  }

  lemma {:induction false} StrLessIrreflexive(a: string)
    ensures !StrLess(a, a)
    decreases |a|
  {
    if a != [] {
      StrLessIrreflexive(a[1..]);
    }
  }

  lemma {:induction false} StrLessTransitive(a: string, b: string, c: string)
    requires StrLess(a, b) && StrLess(b, c)
    ensures StrLess(a, c)
    decreases |a|
  {
    if a != [] && a[0] == b[0] && b[0] == c[0] {
      StrLessTransitive(a[1..], b[1..], c[1..]);
    }
  }

  /** compareTo is a total order: two different strings are always ordered one way. */
  lemma {:induction false} StrLessTotal(a: string, b: string)
    ensures a == b || StrLess(a, b) || StrLess(b, a)
    decreases |a|
  {
    if a != [] && b != [] && a[0] == b[0] {
      StrLessTotal(a[1..], b[1..]);
      if a[1..] == b[1..] {
        assert a == [a[0]] + a[1..] && b == [b[0]] + b[1..];
      }
    }
  }

  lemma {:induction false} StrLessAsymmetric(a: string, b: string)
    requires StrLess(a, b)
    ensures !StrLess(b, a)
    decreases |a|
  {
    if a != [] && a[0] == b[0] {
      StrLessAsymmetric(a[1..], b[1..]);
    }
  }

  /** Strictly ascending in compareTo order: the iteration order of a TreeMap's keys. */
  predicate StrictlySorted(s: seq<string>)
  {
    forall i, j :: 0 <= i < j < |s| ==> StrLess(s[i], s[j])
  }

  /** Where a TreeMap puts a key it does not hold yet. */
  function InsertSorted(s: seq<string>, k: string): (r: seq<string>)
    requires StrictlySorted(s) && k !in s
    ensures StrictlySorted(r)
    ensures forall x :: x in r <==> x in s || x == k
    ensures |r| == |s| + 1
  {
    if s == [] then [k]
    else if StrLess(k, s[0]) then
      assert forall j :: 0 < j < |s| ==> StrLess(k, s[j]) by {
        forall j | 0 < j < |s| ensures StrLess(k, s[j]) {
          StrLessTransitive(k, s[0], s[j]);
        }
      }
      [k] + s
    else
      StrLessTotal(k, s[0]);
      var rest := InsertSorted(s[1..], k);
      assert forall j :: 0 <= j < |rest| ==> StrLess(s[0], rest[j]) by {
        forall j | 0 <= j < |rest| ensures StrLess(s[0], rest[j]) {
          assert rest[j] in s[1..] || rest[j] == k;
        }
      }
      [s[0]] + rest
  }

  /** Sorting determines a key sequence: two strictly sorted sequences with the same
      elements are equal, so the TreeMap order does not depend on insertion order. */
  lemma {:induction false} SortedUnique(s: seq<string>, t: seq<string>)
    requires StrictlySorted(s) && StrictlySorted(t)
    requires forall x :: x in s <==> x in t
    ensures s == t
  {
    if s != [] {
      assert s[0] in t;
    }
    if t != [] {
      assert t[0] in s;
    }
    if s != [] && t != [] {
      assert s[0] == t[0] by {
        assert s[0] in t && t[0] in s;
        if s[0] != t[0] {
          var i :| 0 <= i < |t| && t[i] == s[0];
          var j :| 0 <= j < |s| && s[j] == t[0];
          assert StrLess(t[0], t[i]);
          assert StrLess(s[0], s[j]);
          StrLessAsymmetric(t[0], s[0]);
        }
      }
      forall x ensures x in s[1..] <==> x in t[1..] {
        if x in s[1..] {
          var i :| 1 <= i < |s| && s[i] == x;
          assert StrLess(s[0], x);
          StrLessIrreflexive(x);
          assert x in s;
          assert x in t;
          var j :| 0 <= j < |t| && t[j] == x;
          assert j != 0;
          assert t[1..][j - 1] == x;
        }
        if x in t[1..] {
          var i :| 1 <= i < |t| && t[i] == x;
          assert StrLess(t[0], x);
          StrLessIrreflexive(x);
          assert x in t;
          assert x in s;
          var j :| 0 <= j < |s| && s[j] == x;
          assert j != 0;
          assert s[1..][j - 1] == x;
        }
      }
      SortedUnique(s[1..], t[1..]);
    }
  }

  // ---------------------------------------------------------------------------
  // Property names

  /** String.toLowerCase of a one-character string, for ASCII names under a locale that
      lowers ASCII the usual way (not a Turkish one, which maps 'I' to a dotless i).
      Upper-case letters outside ASCII are kept as they are. */
  function LowerAscii(c: char): char
  {
    if 'A' <= c <= 'Z' then ((c as int) + 32) as char else c
  }

  /** k.substring(0, 1).toLowerCase() + k.substring(1): the backing field of property k.
      Java throws StringIndexOutOfBoundsException on the empty suffix; callers model it. */
  function FieldName(k: string): (r: string)
    requires k != []
    ensures |r| == |k| && r[1..] == k[1..]
    ensures 'A' <= k[0] <= 'Z' ==> 'a' <= r[0] <= 'z' && (r[0] as int) - (k[0] as int) == 32
    ensures !('A' <= k[0] <= 'Z') ==> r[0] == k[0]
  {
    [LowerAscii(k[0])] + k[1..]
  }
}
