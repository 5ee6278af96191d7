/** `uint_to_float`: de-quantization of an unsigned fixed-point code onto a real
    interval, modelled over exact reals (no IEEE rounding). The arithmetic is
    done by `Lerp` on reals only, so the solver never mixes integer and real
    products. */
module Dequant {

  /** `1 << n`. */
  function Pow2(n: nat): (r: nat)
    ensures r >= 1
    ensures n >= 1 ==> r >= 2
  {
    if n == 0 then 1 else 2 * Pow2(n - 1)
  }
  /** The largest code of a `bits`-wide unsigned field, `(1 << bits) - 1`. */
  function MaxCode(bits: nat): (m: nat)
    requires bits >= 1
    ensures m >= 1
  {
    Pow2(bits) - 1
  }

  /** `uint_to_float(x, xMin, xMax, bits)`: code `0` lands on `xMin`, the
      largest code on `xMax`, and codes in range land inside the interval.
      `bits = 0` is excluded because the source divides by `(1 << 0) - 1`. */
  function UintToFloat(x: int, xMin: real, xMax: real, bits: nat): (r: real)
    requires bits >= 1
    ensures x == 0 ==> r == xMin
    ensures x == MaxCode(bits) ==> r == xMax
    ensures xMin <= xMax && 0 <= x <= MaxCode(bits) ==> xMin <= r <= xMax
  {
    LerpFacts(x as real, xMin, xMax, MaxCode(bits) as real);
    Lerp(x as real, xMin, xMax, MaxCode(bits) as real)
  }

  /** The quantizer `uint_to_float` inverts, over reals: the fractional code of
      a value, which lies in `[0, MaxCode(bits)]` for values in the interval. */
  function Quantize(v: real, xMin: real, xMax: real, bits: nat): (q: real)
    requires bits >= 1 && xMin < xMax
    ensures v == xMin ==> q == 0.0
    ensures v == xMax ==> q == MaxCode(bits) as real
    ensures xMin <= v <= xMax ==> 0.0 <= q <= MaxCode(bits) as real
  {
    UnlerpFacts(v, xMin, xMax, MaxCode(bits) as real);
    Unlerp(v, xMin, xMax, MaxCode(bits) as real)
  }

  /** Quantizing a de-quantized code gives the code back. */
  lemma QuantizeDequantize(x: int, xMin: real, xMax: real, bits: nat)
    requires bits >= 1 && xMin < xMax
    ensures Quantize(UintToFloat(x, xMin, xMax, bits), xMin, xMax, bits) == x as real
  {
    UnlerpLerp(x as real, xMin, xMax, MaxCode(bits) as real);
  }

  /** A value whose quantized code is the integer `k` is exactly what `k`
      de-quantizes to: every grid point is reached. */
  lemma DequantizeQuantize(v: real, k: int, xMin: real, xMax: real, bits: nat)
    requires bits >= 1 && xMin < xMax
    requires Quantize(v, xMin, xMax, bits) == k as real
    ensures UintToFloat(k, xMin, xMax, bits) == v
  {
    LerpUnlerp(v, xMin, xMax, MaxCode(bits) as real);
  }

  /** De-quantization is non-decreasing in the code when `xMin <= xMax`. */
  lemma Monotone(a: int, b: int, xMin: real, xMax: real, bits: nat)
    requires bits >= 1 && xMin <= xMax && a <= b
    ensures UintToFloat(a, xMin, xMax, bits) <= UintToFloat(b, xMin, xMax, bits)
  {
    LerpMonotone(a as real, b as real, xMin, xMax, MaxCode(bits) as real);
  }

  /** De-quantization is strictly increasing in the code when `xMin < xMax`. */
  lemma StrictlyMonotone(a: int, b: int, xMin: real, xMax: real, bits: nat)
    requires bits >= 1 && xMin < xMax && a < b
    ensures UintToFloat(a, xMin, xMax, bits) < UintToFloat(b, xMin, xMax, bits)
  {
    LerpStrict(a as real, b as real, xMin, xMax, MaxCode(bits) as real);
  }

  // ---------------------------------------------------------------------------
  // The same maps over reals only, with their facts proved in small steps.
  // ---------------------------------------------------------------------------

  /** `t * (hi - lo) / d + lo`: the point `t / d` of the way from `lo` to `hi`,
      multiplied and divided in the order the source writes it. */
  function Lerp(t: real, lo: real, hi: real, d: real): real
    requires d > 0.0
  {
    t * (hi - lo) / d + lo
  }

  /** `(v - lo) * d / (hi - lo)`: the inverse of `Lerp`. */
  function Unlerp(v: real, lo: real, hi: real, d: real): real
    requires lo < hi
  {
    (v - lo) * d / (hi - lo)
  }

  lemma MulNonNeg(a: real, b: real)
    requires a >= 0.0 && b >= 0.0
    ensures a * b >= 0.0
  {
  }

  lemma LerpFacts(t: real, lo: real, hi: real, d: real)
    requires d > 0.0
    ensures t == 0.0 ==> Lerp(t, lo, hi, d) == lo
    ensures t == d ==> Lerp(t, lo, hi, d) == hi
    ensures lo <= hi && 0.0 <= t <= d ==> lo <= Lerp(t, lo, hi, d) <= hi
  {
    var k := (hi - lo) / d;
    assert Lerp(t, lo, hi, d) == t * k + lo;
    assert d * k == hi - lo;
    if lo <= hi && 0.0 <= t <= d {
      MulNonNeg(t, k);
      MulNonNeg(d - t, k);
    }
  }

  lemma UnlerpFacts(v: real, lo: real, hi: real, d: real)
    requires lo < hi && d > 0.0
    ensures v == lo ==> Unlerp(v, lo, hi, d) == 0.0
    ensures v == hi ==> Unlerp(v, lo, hi, d) == d
    ensures lo <= v <= hi ==> 0.0 <= Unlerp(v, lo, hi, d) <= d
  {
    var k := d / (hi - lo);
    assert Unlerp(v, lo, hi, d) == (v - lo) * k;
    assert (hi - lo) * k == d;
    if lo <= v <= hi {
      MulNonNeg(v - lo, k);
      MulNonNeg(hi - v, k);
    }
  }

  lemma UnlerpLerp(t: real, lo: real, hi: real, d: real)
    requires lo < hi && d > 0.0
    ensures Unlerp(Lerp(t, lo, hi, d), lo, hi, d) == t
  {
    var s := hi - lo;
    assert Lerp(t, lo, hi, d) - lo == t * s / d;
    assert (t * s / d) * d == t * s;
  }

  lemma LerpUnlerp(v: real, lo: real, hi: real, d: real)
    requires lo < hi && d > 0.0
    ensures Lerp(Unlerp(v, lo, hi, d), lo, hi, d) == v
  {
    var s := hi - lo;
    var q := Unlerp(v, lo, hi, d);
    assert q * s == (v - lo) * d;
    assert q * s / d == v - lo;
  }

  lemma LerpMonotone(a: real, b: real, lo: real, hi: real, d: real)
    requires d > 0.0 && a <= b && lo <= hi
    ensures Lerp(a, lo, hi, d) <= Lerp(b, lo, hi, d)
  {
    var k := (hi - lo) / d;
    assert Lerp(a, lo, hi, d) == a * k + lo;
    assert Lerp(b, lo, hi, d) == b * k + lo;
    MulNonNeg(b - a, k);
  }

  lemma LerpStrict(a: real, b: real, lo: real, hi: real, d: real)
    requires d > 0.0 && a < b && lo < hi
    ensures Lerp(a, lo, hi, d) < Lerp(b, lo, hi, d)
  {
    var k := (hi - lo) / d;
    assert Lerp(a, lo, hi, d) == a * k + lo;
    assert Lerp(b, lo, hi, d) == b * k + lo;
    assert (b - a) * k > 0.0;
  }
}
