/** IEEE 754 binary32 values, kept as their raw 32-bit patterns.

    The importer never does arithmetic on the floats it reads except through
    Blender's math library, which this model leaves uninterpreted.  The few
    discrete questions the importer does ask of a float are answered exactly
    from its bit pattern: `w == 0`, `w > 0`, equality inside a tuple
    comparison, the order used by `sorted`, and `int(w)`. */
module Float32 {
  import opened Base

  const TwoTo23: nat := 0x80_0000
  const TwoTo31: nat := 0x8000_0000

  /** A float as the 32-bit word `struct` unpacks it from.  Only the low 32
      bits are looked at, so every natural number denotes some float. */
  type Word = nat

  function Bits(w: Word): nat { w % 0x1_0000_0000 }

  /** The 9 bits above the fraction: sign and exponent together. */
  function High(w: Word): nat { Bits(w) / TwoTo23 }

  function Sign(w: Word): nat { High(w) / 256 }
  function Exponent(w: Word): nat { High(w) % 256 }
  function Fraction(w: Word): nat { Bits(w) % TwoTo23 }

  predicate IsNaN(w: Word) { Exponent(w) == 255 && Fraction(w) != 0 }
  predicate IsInfinite(w: Word) { Exponent(w) == 255 && Fraction(w) == 0 }

  /** `w == 0` in Python: both +0.0 and -0.0. */
  predicate IsZero(w: Word) { Exponent(w) == 0 && Fraction(w) == 0 }

  /** `w > 0` in Python: a positive finite value or +inf, never a NaN. */
  predicate IsPositive(w: Word) { Sign(w) == 0 && !IsZero(w) && !IsNaN(w) }

  /** `a == b` between two distinct float objects: a NaN equals nothing and
      the two zeros are equal. */
  predicate Equal(a: Word, b: Word) {
    !IsNaN(a) && !IsNaN(b) && (Bits(a) == Bits(b) || (IsZero(a) && IsZero(b)))
  }

  /** An integer that orders non-NaN floats as `<` does: +0.0 and -0.0
      share the key 0, negative values get negative keys. */
  function OrderKey(w: Word): int {
    if Sign(w) == 0 then Bits(w) else -(Bits(w) - TwoTo31)
  }

  /** The three fields make up the word. */
  lemma {:induction false} Fields(w: Word)
    ensures Sign(w) < 2 && Exponent(w) < 256 && Fraction(w) < TwoTo23
    ensures Bits(w) == Sign(w) * TwoTo31 + Exponent(w) * TwoTo23 + Fraction(w)
  {
    var b := Bits(w);
    var q := High(w);
    assert b == q * TwoTo23 + Fraction(w);
    assert q == Sign(w) * 256 + Exponent(w);
    assert q < 512;
  }

  function Pow2(k: nat): (p: nat)
    ensures p >= 1
  {
    if k == 0 then 1 else 2 * Pow2(k - 1)
  }

  /** The 24-bit significand of a normal float, hidden bit included: a
      float with exponent field 1 to 254 has the value
      `Significand(w) * 2^(Exponent(w) - 150)`, negated when the sign is set. */
  function Significand(w: Word): nat { Fraction(w) + TwoTo23 }

  /** `int(w)`: truncation toward zero; a NaN raises ValueError and an
      infinity raises OverflowError.  The sign is kept and the magnitude is
      the integer part of the absolute value. */
  function Truncate(w: Word): (r: Result<int>)
    ensures r.Err? <==> IsNaN(w) || IsInfinite(w)
    ensures r.Err? ==> r.fault == (if IsNaN(w) then NotANumber else Infinite)
    ensures r.Ok? && IsZero(w) ==> r.value == 0
    ensures r.Ok? && Exponent(w) < 127 ==> r.value == 0
    ensures r.Ok? && Sign(w) == 0 ==> r.value == Magnitude(w)
    ensures r.Ok? && Sign(w) != 0 ==> r.value == -(Magnitude(w) as int)
  {
    if IsNaN(w) then Err(NotANumber)
    else if IsInfinite(w) then Err(Infinite)
    else if Sign(w) == 0 then Ok(Magnitude(w) as int)
    else Ok(-(Magnitude(w) as int))
  }

  /** The integer part of a finite float's absolute value.  Below one it is
      0 (subnormals included); with an exponent field below 150 the value
      has a fractional part, and the result is its floor; from 150 on the
      value is a whole number and the result is that number. */
  function Magnitude(w: Word): (m: nat)
    ensures Exponent(w) < 127 ==> m == 0
    ensures 127 <= Exponent(w) < 150 ==>
              m * Pow2(150 - Exponent(w)) <= Significand(w) < (m + 1) * Pow2(150 - Exponent(w))
    ensures 150 <= Exponent(w) ==> m == Significand(w) * Pow2(Exponent(w) - 150)
  {
    var e, n := Exponent(w), Significand(w);
    if e == 0 then 0
    else if e >= 150 then n * Pow2(e - 150)
    else
      QuotientBelowOne(n, 150 - e);
      Floor(n, Pow2(150 - e))
  }

  /** `n // d`, the largest q with q * d <= n. */
  function Floor(n: nat, d: nat): (q: nat)
    requires d > 0
    ensures q * d <= n < (q + 1) * d
    ensures n < d ==> q == 0
  {
    assert n == (n / d) * d + n % d;
    n / d
  }

  /** `float(n)` for a natural number below 2^24, which binary32 holds
      exactly: the word's value `Significand * 2^(Exponent - 150)` is `n`. */
  function FromNat(n: nat): (f: Word)
    requires n < 0x100_0000
    ensures Sign(f) == 0
    ensures n == 0 <==> IsZero(f)
    ensures n > 0 ==> 127 <= Exponent(f) <= 150 && Significand(f) == n * Pow2(150 - Exponent(f))
  {
    if n == 0 then
      Compose(0, 0);
      0
    else
      var k := Log2(n);
      SignificandRange(n, k);
      var frac := n * Pow2(23 - k) - TwoTo23;
      Compose(127 + k, frac);
      (127 + k) * TwoTo23 + frac
  }

  /** The exponent of the highest set bit. */
  function Log2(n: nat): (k: nat)
    requires n >= 1
    ensures Pow2(k) <= n < Pow2(k + 1)
  {
    if n == 1 then 0 else 1 + Log2(n / 2)
  }

  /** A word below 2^31 built from an exponent field and a fraction has
      exactly those fields and a clear sign. */
  lemma {:induction false} Compose(e: nat, frac: nat)
    requires e < 256 && frac < TwoTo23
    ensures Sign(e * TwoTo23 + frac) == 0
    ensures Exponent(e * TwoTo23 + frac) == e && Fraction(e * TwoTo23 + frac) == frac
  {
    var w := e * TwoTo23 + frac;
    assert w < TwoTo31;
    assert Bits(w) == w;
    assert High(w) == e;
  }

  /** `n` shifted left until its highest bit is bit 23 lies in [2^23, 2^24). */
  lemma {:induction false} SignificandRange(n: nat, k: nat)
    requires 1 <= n < 0x100_0000 && Pow2(k) <= n < Pow2(k + 1)
    ensures k <= 23
    ensures TwoTo23 <= n * Pow2(23 - k) < 2 * TwoTo23
  {
    Pow2Unfold24();
    if k >= 24 {
      Pow2Monotone(24, k);
      assert false;
    }
    Pow2Add(k, 23 - k);
    Pow2Add(k + 1, 23 - k);
    MulMonotone(Pow2(k), n, Pow2(23 - k));
    MulStrict(n, Pow2(k + 1), Pow2(23 - k));
  }

  lemma {:induction false} MulMonotone(a: nat, b: nat, c: nat)
    requires a <= b
    ensures a * c <= b * c
  {
    assert b * c == a * c + (b - a) * c;
  }

  lemma {:induction false} MulStrict(a: nat, b: nat, c: nat)
    requires a < b && c > 0
    ensures a * c < b * c
  {
    assert b * c == a * c + (b - a) * c;
  }

  /** `int(float(n)) == n` for every natural number binary32 holds exactly,
      the range a bone index read as a float lies in. */
  lemma {:induction false} TruncateOfNat(n: nat)
    requires n < 0x100_0000
    ensures Truncate(FromNat(n)) == Ok(n)
  {
    var f := FromNat(n);
    if n > 0 {
      var e := Exponent(f);
      assert !IsNaN(f) && !IsInfinite(f);
      if e < 150 {
        var d := Pow2(150 - e);
        assert Significand(f) == n * d && (n + 1) * d == n * d + d;
        FloorUnique(Magnitude(f), n, Significand(f), d);
      } else {
        assert Pow2(e - 150) == 1;
      }
    }
  }

  /** `n // d` has only one value. */
  lemma {:induction false} FloorUnique(m: nat, k: nat, n: nat, d: nat)
    requires d > 0 && m * d <= n < (m + 1) * d && k * d <= n < (k + 1) * d
    ensures m == k
  {
    if m < k {
      MulMonotone(m + 1, k, d);
    } else if m > k {
      MulMonotone(k + 1, m, d);
    }
  }

  /** 1.0, -1.5 and 2^24 as `struct` unpacks them, and 3.0 as `float(3)`
      packs it. */
  lemma {:induction false} TruncateExamples()
    ensures Truncate(0x3F80_0000) == Ok(1)
    ensures Truncate(0xBFC0_0000) == Ok(-1)
    ensures Truncate(0x4B80_0000) == Ok(0x100_0000)
    ensures FromNat(3) == 0x4040_0000
  {
    TruncateOne();
    TruncateMinusOneAndHalf();
    TruncateTwoTo24();
    FromNatThree();
  }

  lemma {:induction false} TruncateOne()
    ensures Truncate(0x3F80_0000) == Ok(1)
  {
    var w := 0x3F80_0000;
    assert Bits(w) == w && High(w) == 127 && Sign(w) == 0 && Exponent(w) == 127 && Fraction(w) == 0;
    Pow2Unfold24();
    FloorUnique(Magnitude(w), 1, Significand(w), Pow2(23));
  }

  lemma {:induction false} TruncateMinusOneAndHalf()
    ensures Truncate(0xBFC0_0000) == Ok(-1)
  {
    var w := 0xBFC0_0000;
    assert Bits(w) == w && High(w) == 383 && Sign(w) == 1 && Exponent(w) == 127 && Fraction(w) == 0x40_0000;
    Pow2Unfold24();
    FloorUnique(Magnitude(w), 1, Significand(w), Pow2(23));
  }

  lemma {:induction false} TruncateTwoTo24()
    ensures Truncate(0x4B80_0000) == Ok(0x100_0000)
  {
    var w := 0x4B80_0000;
    assert Bits(w) == w && High(w) == 151 && Sign(w) == 0 && Exponent(w) == 151 && Fraction(w) == 0;
    assert Pow2(1) == 2;
  }

  lemma {:induction false} FromNatThree()
    ensures FromNat(3) == 0x4040_0000
  {
    assert Log2(3) == 1;
    Pow2Unfold24();
  }

  /** A significand shifted right by 24 bits or more is gone. */
  lemma {:induction false} QuotientBelowOne(n: nat, k: nat)
    requires n < 2 * TwoTo23
    ensures 24 <= k ==> n < Pow2(k)
  {
    if 24 <= k {
      Pow2Monotone(24, k);
      Pow2Unfold24();
    }
  }

  lemma {:induction false} Pow2Monotone(a: nat, b: nat)
    requires a <= b
    ensures Pow2(a) <= Pow2(b)
  {
    if a < b {
      Pow2Monotone(a, b - 1);
    }
  }

  lemma {:induction false} Pow2Unfold24()
    ensures Pow2(22) == 0x40_0000 && Pow2(23) == 0x80_0000 && Pow2(24) == 0x100_0000
  {
    assert Pow2(8) == 256 && Pow2(6) == 64;
    Pow2Add(8, 8);
    Pow2Add(16, 6);
    assert Pow2(23) == 2 * Pow2(22);
    assert Pow2(24) == 2 * Pow2(23);
  }

  lemma {:induction false} Pow2Add(a: nat, b: nat)
    ensures Pow2(a + b) == Pow2(a) * Pow2(b)
  {
    if b > 0 {
      Pow2Add(a, b - 1);
    }
  }

  /** Equal floats truncate to the same integer. */
  lemma {:induction false} EqualTruncate(a: Word, b: Word)
    requires Equal(a, b)
    ensures Truncate(a) == Truncate(b)
  {
  }

  /** On non-NaN values the order key decides `<` and `==` the way IEEE 754
      does: equal keys are exactly the Python-equal pairs. */
  lemma {:induction false} OrderKeyEquality(a: Word, b: Word)
    requires !IsNaN(a) && !IsNaN(b)
    ensures OrderKey(a) == OrderKey(b) <==> Equal(a, b)
  {
    Fields(a);
    Fields(b);
  }
}
