/** Doubles as 64-bit patterns, and quantization to millionths of a degree. */
module WkbFloats {
  import opened Bytes
  import opened Results

  const SCALE := 1_000_000.0
  const UNIT_ROUNDOFF := 1.0 / 9_007_199_254_740_992.0
  const FAITHFUL_LIMIT := 1_125_899_906_842_624

  function Abs(x: real): real {
    if x < 0.0 then -x else x
  }

  /** Round to the nearest integer, halves to even. */
  function RoundHalfEven(x: real): int {
    var f := x.Floor;
    var d := x - f as real;
    if d < 0.5 then f else if d > 0.5 then f + 1 else if f % 2 == 0 then f else f + 1
  }

  /** Double-precision arithmetic: which patterns are finite, what they denote, and rounding to nearest. */
  datatype Floats = Floats(finite: u64 -> bool, value: u64 -> real, nearest: real -> u64)
  {
    /** `round(x * 1_000_000)`; an infinite product cannot be rounded. */
    function Quantize(bits: u64): Option<int> {
      var product := nearest(value(bits) * SCALE);
      if finite(product) then Some(RoundHalfEven(value(product))) else None
    }

    /** `n / 1_000_000`. */
    function Dequantize(n: int): u64 {
      nearest(n as real / SCALE)
    }

    /** Writing `n` and reading it back gives `n`. */
    predicate Faithful(n: int) {
      finite(Dequantize(n)) && Quantize(Dequantize(n)) == Some(n)
    }

    /** Between a billionth and 2^63, rounding to nearest is within the unit roundoff of IEEE 754 binary64. */
    ghost predicate RoundsToNearest() {
      forall r: real :: Representable(r) ==> finite(nearest(r)) && Abs(value(nearest(r)) - r) <= Abs(r) * UNIT_ROUNDOFF
    }
  }

  predicate Representable(r: real) {
    r == 0.0 || 0.000_000_001 <= Abs(r) <= 9_223_372_036_854_775_808.0
  }

  lemma RoundNear(x: real, n: int)
    requires Abs(x - n as real) < 0.5
    ensures RoundHalfEven(x) == n
  {
  }

  lemma ErrorBound(m: real, x: real, p: real)
    requires m >= 0.0 && m <= FAITHFUL_LIMIT as real
    requires Abs(x) <= m + m * UNIT_ROUNDOFF
    requires Abs(p) <= m * UNIT_ROUNDOFF + Abs(x) * UNIT_ROUNDOFF
    ensures Abs(p) < 0.5
  {
  }

  lemma ScaledDown(n: int)
    requires -FAITHFUL_LIMIT <= n <= FAITHFUL_LIMIT
    ensures Abs(n as real / SCALE) * SCALE == Abs(n as real)
    ensures Representable(n as real / SCALE)
  {
    var exact := n as real / SCALE;
    assert exact * SCALE == n as real;
    assert n != 0 ==> Abs(n as real) >= 1.0;
  }

  lemma ScaledUp(n: int, exact: real, x: real)
    requires -FAITHFUL_LIMIT <= n <= FAITHFUL_LIMIT && exact * SCALE == n as real
    requires Abs(x - exact) <= Abs(exact) * UNIT_ROUNDOFF
    ensures Abs(x * SCALE - n as real) <= Abs(n as real) * UNIT_ROUNDOFF
    ensures Representable(x * SCALE)
  {
    assert x * SCALE - n as real == (x - exact) * SCALE;
    assert n != 0 ==> Abs(n as real) >= 1.0;
  }

  /** Every integer up to 2^50 in absolute value survives the round trip; coordinates in degrees stay below
      1.8 * 10^8. */
  lemma FaithfulWithinLimit(fl: Floats, n: int)
    requires fl.RoundsToNearest() && -FAITHFUL_LIMIT <= n <= FAITHFUL_LIMIT
    ensures fl.Faithful(n)
  {
    hide Abs, Representable, RoundHalfEven;
    var exact := n as real / SCALE;
    ScaledDown(n);
    assert exact * SCALE == n as real;
    var x := fl.value(fl.nearest(exact));
    assert Abs(x - exact) <= Abs(exact) * UNIT_ROUNDOFF;
    ScaledUp(n, exact, x);
    var p := fl.value(fl.nearest(x * SCALE));
    assert Abs(p - x * SCALE) <= Abs(x * SCALE) * UNIT_ROUNDOFF;
    ProductNear(n, x * SCALE, p);
    RoundNear(p, n);
  }

  lemma ProductNear(n: int, scaled: real, p: real)
    requires -FAITHFUL_LIMIT <= n <= FAITHFUL_LIMIT
    requires Abs(scaled - n as real) <= Abs(n as real) * UNIT_ROUNDOFF
    requires Abs(p - scaled) <= Abs(scaled) * UNIT_ROUNDOFF
    ensures Abs(p - n as real) < 0.5
  {
    ErrorBound(Abs(n as real), scaled, p - n as real);
  }
}
