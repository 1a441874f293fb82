/** The arithmetic of Objects.hash (Arrays.hashCode): result := 31 * result + h for every
    element hash h, starting from 1, in 32-bit int arithmetic. Because 31 is odd, changing
    exactly one element changes the result exactly when that element's hash changes. */
module HashArith {
  import opened JavaLang

  /** Objects.hash over the given element hashes. */
  function HashFold(hs: seq<int>): Int32Bits
  {
    if hs == [] then 1 else Wrap32(31 * HashFold(hs[..|hs| - 1]) + hs[|hs| - 1])
  }

  /** The same polynomial in 31 over unbounded integers. */
  function Poly(hs: seq<int>): int
  {
    if hs == [] then 1 else 31 * Poly(hs[..|hs| - 1]) + hs[|hs| - 1]
  }

  function Pow31(k: nat): (r: int)
    ensures r % 2 == 1
  {
    if k == 0 then 1 else 31 * Pow31(k - 1)
  }

  function Pow2(k: nat): (r: int)
    ensures r > 0
  {
    if k == 0 then 1 else 2 * Pow2(k - 1)
  }

  /** The 32-bit result is the exact polynomial reduced modulo 2^32. */
  lemma {:induction false} HashFoldIsPolyMod(hs: seq<int>)
    ensures HashFold(hs) == Poly(hs) % TwoTo32
  {
    if hs != [] {
      var pre := hs[..|hs| - 1];
      HashFoldIsPolyMod(pre);
      var p := Poly(pre);
      var q := p / TwoTo32;
      assert p == TwoTo32 * q + HashFold(pre);
      assert 31 * p + hs[|hs| - 1] == TwoTo32 * (31 * q) + (31 * HashFold(pre) + hs[|hs| - 1]);
      ModShift(31 * HashFold(pre) + hs[|hs| - 1], 31 * q);
    }
  }

  lemma ModShift(a: int, q: int)
    ensures (TwoTo32 * q + a) % TwoTo32 == a % TwoTo32
  {
  }

  /** Two element lists that differ only at position i: their polynomials differ by the
      difference at i, scaled by a power of 31. */
  lemma {:induction false} PolyDifference(xs: seq<int>, ys: seq<int>, i: nat)
    requires |xs| == |ys| && i < |xs|
    requires forall j :: 0 <= j < |xs| && j != i ==> xs[j] == ys[j]
    ensures Poly(xs) - Poly(ys) == Pow31(|xs| - 1 - i) * (xs[i] - ys[i])
  {
    var n := |xs|;
    if i == n - 1 {
      assert xs[..n - 1] == ys[..n - 1];
    } else {
      var px, py := xs[..n - 1], ys[..n - 1];
      PolyDifference(px, py, i);
      var d := xs[i] - ys[i];
      calc {
        Poly(xs) - Poly(ys);
        31 * (Poly(px) - Poly(py));
        31 * (Pow31(n - 2 - i) * d);
        { MulAssoc(31, Pow31(n - 2 - i), d); }
        (31 * Pow31(n - 2 - i)) * d;
        Pow31(n - 1 - i) * d;
      }
    }
  }

  lemma MulAssoc(a: int, b: int, c: int)
    ensures a * (b * c) == (a * b) * c
  {
  }

  /** An odd factor does not help a product become divisible by a power of two: if
      o * d is a multiple of 2^k, d is, with quotient r. */
  lemma {:induction false} OddFactor(o: int, d: int, k: nat, t: int) returns (r: int)
    requires o % 2 == 1 && o * d == Pow2(k) * t
    ensures d == Pow2(k) * r
    decreases k
  {
    if k == 0 {
      r := d;
    } else {
      var p := Pow2(k - 1);
      assert o * d == 2 * (p * t) by {
        MulAssoc(2, p, t);
      }
      var a := o / 2;
      assert o == 2 * a + 1;
      assert o * d == 2 * (a * d) + d;
      var e := d / 2;
      assert d == 2 * e;
      assert o * e == p * t by {
        MulAssoc(o, 2, e);
        assert o * d == 2 * (o * e);
      }
      var r' := OddFactor(o, e, k - 1, t);
      r := r';
      MulAssoc(2, p, r');
    }
  }

  lemma TwoTo32IsPow2()
    ensures Pow2(32) == TwoTo32
  {
    assert Pow2(8) == 256;
    assert Pow2(16) == 256 * 256 by {
      assert Pow2(16) == 256 * Pow2(8);
    }
    assert Pow2(32) == Pow2(16) * Pow2(16) by {
      Pow2Add(16, 16);
    }
  }

  lemma {:induction false} Pow2Add(a: nat, b: nat)
    ensures Pow2(a + b) == Pow2(a) * Pow2(b)
  {
    if a > 0 {
      Pow2Add(a - 1, b);
      MulAssoc(2, Pow2(a - 1), Pow2(b));
    }
  }

  /** Objects.hash of two argument lists that differ in one place agrees exactly when the
      hashes at that place agree. */
  lemma HashFoldSingleDifference(xs: seq<Int32Bits>, ys: seq<Int32Bits>, i: nat)
    requires |xs| == |ys| && i < |xs|
    requires forall j :: 0 <= j < |xs| && j != i ==> xs[j] == ys[j]
    ensures HashFold(xs) == HashFold(ys) <==> xs[i] == ys[i]
  {
    if xs[i] == ys[i] {
      assert xs == ys;
    } else if HashFold(xs) == HashFold(ys) {
      SameFoldSameElement(xs, ys, i);
    }
  }

  lemma SameFoldSameElement(xs: seq<int>, ys: seq<int>, i: nat)
    requires |xs| == |ys| && i < |xs|
    requires forall j :: 0 <= j < |xs| && j != i ==> xs[j] == ys[j]
    requires 0 <= xs[i] < TwoTo32 && 0 <= ys[i] < TwoTo32
    requires HashFold(xs) == HashFold(ys)
    ensures xs[i] == ys[i]
  {
    HashFoldIsPolyMod(xs);
    HashFoldIsPolyMod(ys);
    PolyDifference(xs, ys, i);
    var t := SameResidue(Poly(xs), Poly(ys));
    TwoTo32IsPow2();
    var r := OddFactor(Pow31(|xs| - 1 - i), xs[i] - ys[i], 32, t);
    SmallMultiple(xs[i] - ys[i], r);
  }

  /** Equal residues modulo 2^32 differ by a multiple of 2^32. */
  lemma SameResidue(a: int, b: int) returns (t: int)
    requires a % TwoTo32 == b % TwoTo32
    ensures a - b == TwoTo32 * t
  {
    t := a / TwoTo32 - b / TwoTo32;
    assert a == TwoTo32 * (a / TwoTo32) + a % TwoTo32;
    assert b == TwoTo32 * (b / TwoTo32) + b % TwoTo32;
  }

  /** The only multiple of 2^32 strictly between -2^32 and 2^32 is 0. */
  lemma SmallMultiple(d: int, r: int)
    requires d == TwoTo32 * r && -TwoTo32 < d < TwoTo32
    ensures d == 0
  {
  }
}
