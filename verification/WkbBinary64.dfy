/** Why quantized coordinates survive being written and read: the spacing of IEEE 754 binary64, at every magnitude. */
module WkbBinary64 {
  import opened Bytes
  import opened Results
  import opened WkbFloats

  const MIN_SIGNIFICAND := 4_503_599_627_370_496
  const MAX_SIGNIFICAND := 9_007_199_254_740_992

  /** Powers of two: `Unit(BASE)` is one. */
  const BASE := 80

  function Unit(k: nat): (u: real)
    ensures u > 0.0
  {
    if k == 0 then 1.0 / 1_208_925_819_614_629_174_706_176.0 else 2.0 * Unit(k - 1)
  }

  /** The unit of the largest binade: 2^971. */
  const TOP := 1051

  function Times(c: int, k: nat): real {
    c as real * Unit(k)
  }

  /** Rounding overflows from half a unit above the largest finite value on. */
  function Threshold(): real {
    Times(MAX_SIGNIFICAND, TOP) - Unit(TOP) / 2.0
  }

  /** Between 2^52 and 2^53 units. */
  predicate InBinade(k: nat, v: real) {
    Times(MIN_SIGNIFICAND, k) <= Abs(v) <= Times(MAX_SIGNIFICAND, k)
  }

  ghost predicate Multiple(v: real, k: nat) {
    exists c: int :: v == Times(c, k)
  }

  predicate Significand(c: int) {
    MIN_SIGNIFICAND <= c <= MAX_SIGNIFICAND || -MAX_SIGNIFICAND <= c <= -MIN_SIGNIFICAND
  }

  ghost predicate Representable64(fl: Floats, v: real) {
    exists b: u64 :: fl.finite(b) && fl.value(b) == v
  }

  /** The finite values of a binade are multiples of its unit ... */
  ghost predicate ValuesAreMultiples(fl: Floats) {
    forall b: u64, k: nat :: fl.finite(b) && InBinade(k, fl.value(b)) ==> Multiple(fl.value(b), k)
  }

  /** ... and below the overflow threshold all of them. */
  ghost predicate MultiplesAreValues(fl: Floats) {
    forall c: int, k: nat :: Significand(c) && Abs(Times(c, k)) < Threshold() ==> Representable64(fl, Times(c, k))
  }

  /** Rounding overflows exactly from the threshold on ... */
  ghost predicate FiniteBelowThreshold(fl: Floats) {
    && (forall b: u64 :: fl.finite(b) ==> Abs(fl.value(b)) < Threshold())
    && (forall r: real :: fl.finite(fl.nearest(r)) <==> Abs(r) < Threshold())
  }

  predicate NoNearer(fl: Floats, r: real, b: u64) {
    Abs(r) < Threshold() && fl.finite(b) ==> Abs(fl.value(fl.nearest(r)) - r) <= Abs(fl.value(b) - r)
  }

  /** ... and otherwise goes to a nearest finite value. */
  ghost predicate NearestValue(fl: Floats) {
    forall r: real, b: u64 :: NoNearer(fl, r, b)
  }

  /** IEEE 754 binary64 from 2^-28 up to overflow, and zero. */
  ghost predicate Binary64(fl: Floats) {
    && fl.finite(0) && fl.value(0) == 0.0
    && ValuesAreMultiples(fl) && MultiplesAreValues(fl) && FiniteBelowThreshold(fl) && NearestValue(fl)
  }

  /** The parts of the model, one by one. */
  lemma MultipleIsValue(fl: Floats, c: int, k: nat)
    requires Binary64(fl) && Significand(c) && Abs(Times(c, k)) < Threshold()
    ensures Representable64(fl, Times(c, k))
  {
    hide Times, Threshold, Representable64, ValuesAreMultiples, FiniteBelowThreshold, NearestValue;
  }

  lemma ValueIsMultiple(fl: Floats, b: u64, k: nat) returns (c: int)
    requires Binary64(fl) && fl.finite(b) && InBinade(k, fl.value(b))
    ensures fl.value(b) == Times(c, k)
  {
    hide Times, Threshold, InBinade, MultiplesAreValues, FiniteBelowThreshold, NearestValue;
    c :| fl.value(b) == Times(c, k);
  }

  lemma RoundsFinite(fl: Floats, r: real)
    requires Binary64(fl)
    ensures fl.finite(fl.nearest(r)) <==> Abs(r) < Threshold()
    ensures fl.finite(fl.nearest(r)) ==> Abs(fl.value(fl.nearest(r))) < Threshold()
  {
    hide Times, Threshold, ValuesAreMultiples, MultiplesAreValues, NearestValue;
  }

  lemma RoundsNearest(fl: Floats, r: real, v: real)
    requires Binary64(fl) && Abs(r) < Threshold() && Representable64(fl, v)
    ensures Abs(fl.value(fl.nearest(r)) - r) <= Abs(v - r)
  {
    hide Times, Threshold, ValuesAreMultiples, MultiplesAreValues, FiniteBelowThreshold;
    var b: u64 :| fl.finite(b) && fl.value(b) == v;
    assert NoNearer(fl, r, b);
  }

  // ---- Units ------------------------------------------------------------------------------

  lemma {:induction false} UnitMono(j: nat, k: nat)
    requires j <= k
    ensures Unit(j) <= Unit(k)
    ensures j < k ==> 2.0 * Unit(j) <= Unit(k)
  {
    if j < k {
      UnitMono(j, k - 1);
    }
  }

  lemma {:induction false} UnitIsInteger(k: nat) returns (n: nat)
    requires k >= BASE
    ensures Unit(k) == n as real && n >= 1
  {
    if k == BASE {
      UnitOne();
      n := 1;
    } else {
      var half := UnitIsInteger(k - 1);
      n := 2 * half;
    }
  }

  lemma {:induction false} UnitShift(k: nat)
    ensures Unit(k + 10) == 1024.0 * Unit(k)
  {
    assert Unit(k + 1) == 2.0 * Unit(k);
    assert Unit(k + 2) == 4.0 * Unit(k);
    assert Unit(k + 3) == 8.0 * Unit(k);
    assert Unit(k + 4) == 16.0 * Unit(k);
    assert Unit(k + 5) == 32.0 * Unit(k);
    assert Unit(k + 6) == 64.0 * Unit(k);
    assert Unit(k + 7) == 128.0 * Unit(k);
    assert Unit(k + 8) == 256.0 * Unit(k);
    assert Unit(k + 9) == 512.0 * Unit(k);
  }

  lemma UnitOne()
    ensures Unit(80) == 1.0 && Unit(79) == 0.5 && Unit(78) == 0.25
  {
    UnitShift(0);
    UnitShift(10);
    UnitShift(20);
    UnitShift(30);
    UnitShift(40);
    UnitShift(50);
    UnitShift(60);
    UnitShift(70);
    assert Unit(80) == 2.0 * Unit(79) && Unit(79) == 2.0 * Unit(78);
  }

  lemma UnitNineteen(k: nat)
    ensures Unit(k + 19) == 524_288.0 * Unit(k)
    ensures Unit(k + 20) == 1_048_576.0 * Unit(k)
  {
    UnitShift(k);
    UnitShift(k + 10);
    assert Unit(k + 20) == 2.0 * Unit(k + 19);
  }

  lemma MulOrder(a: real, b: real, u: real)
    requires u > 0.0
    ensures a <= b <==> a * u <= b * u
    ensures a < b <==> a * u < b * u
  {
    if a < b {
      assert (b - a) * u > 0.0;
    } else {
      assert (a - b) * u >= 0.0;
    }
  }

  lemma TimesOrder(c: int, d: int, k: nat)
    ensures c <= d <==> Times(c, k) <= Times(d, k)
    ensures c < d ==> Times(c, k) + Unit(k) <= Times(d, k)
    ensures Times(0, k) == 0.0
  {
    hide Unit;
    MulOrder(c as real, d as real, Unit(k));
    assert Times(0, k) == 0.0 * Unit(k);
    if c < d {
      MulOrder((c + 1) as real, d as real, Unit(k));
      TimesNext(c, k);
    }
  }

  lemma TimesNext(c: int, k: nat)
    ensures Times(c + 1, k) == Times(c, k) + Unit(k)
  {
  }

  lemma TimesDouble(c: int, k: nat)
    ensures Times(2 * c, k) == Times(c, k + 1)
    ensures Unit(k + 1) == 2.0 * Unit(k)
  {
  }

  lemma TimesMono(c: nat, j: nat, k: nat)
    requires j <= k
    ensures Times(c, j) <= Times(c, k)
  {
    UnitMono(j, k);
    MulOrder(Unit(j), Unit(k), 1.0);
    MulLe(c as real, Unit(j), Unit(k));
  }

  lemma MulLe(a: real, x: real, y: real)
    requires a >= 0.0 && x <= y
    ensures a * x <= a * y
  {
  }

  /** Every positive number above the least binade has a binade. */
  lemma {:induction false} Binade(t: real, k: nat, above: nat) returns (j: nat)
    requires Times(MIN_SIGNIFICAND, k) <= t && t < Unit(k + above)
    ensures j >= k && Times(MIN_SIGNIFICAND, j) <= t < Times(MAX_SIGNIFICAND, j)
    decreases above
  {
    if t < Times(MAX_SIGNIFICAND, k) {
      j := k;
    } else {
      TimesDouble(MIN_SIGNIFICAND, k);
      TimesOrder(1, MAX_SIGNIFICAND, k);
      assert Times(1, k) == Unit(k);
      hide Times;
      j := Binade(t, k + 1, above - 1);
    }
  }

  lemma {:induction false} UnitGrows(n: nat)
    ensures n as real < Unit(BASE + n)
  {
    if n == 0 {
      UnitOne();
    } else {
      UnitGrows(n - 1);
      UnitMono(BASE, BASE + n - 1);
      UnitOne();
      assert Unit(BASE + n) == 2.0 * Unit(BASE + n - 1);
    }
  }

  /** Below the threshold a binade is one of the finite ones. */
  lemma BelowTop(k: nat, r: real)
    requires r < Threshold() && Times(MIN_SIGNIFICAND, k) <= r
    ensures k <= TOP
  {
    hide Times, Unit;
    if k > TOP {
      TimesMono(MIN_SIGNIFICAND, TOP + 1, k);
      TimesDouble(MIN_SIGNIFICAND, TOP);
    }
  }

  /** Up to half a unit below the end of a finite binade nothing overflows. */
  lemma InsideTop(k: nat, r: real)
    requires k <= TOP && r < Times(MAX_SIGNIFICAND, k) - Unit(k) / 2.0
    ensures r < Threshold()
  {
    hide Times, Unit;
    if k < TOP {
      TimesDouble(MIN_SIGNIFICAND, k);
      TimesMono(MIN_SIGNIFICAND, k + 1, TOP);
      TimesOrder(MIN_SIGNIFICAND, MAX_SIGNIFICAND, TOP);
    }
  }

  // ---- Rounding within a binade -----------------------------------------------------------

  lemma Quotient(r: real, u: real) returns (t: real)
    requires u > 0.0
    ensures t * u == r
  {
    t := r / u;
  }

  lemma ProductBelow(t: real, high: real, u: real, r: real)
    requires u > 0.0 && t < high && t * u == r
    ensures r < high * u
  {
    MulOrder(t, high, u);
  }

  lemma Floor(r: real, u: real) returns (c: int)
    requires u > 0.0
    ensures c as real * u <= r < (c + 1) as real * u
  {
    var t := Quotient(r, u);
    c := t.Floor;
    assert c as real <= t < (c + 1) as real;
    MulOrder(c as real, t, u);
    ProductBelow(t, (c + 1) as real, u, r);
  }

  /** The multiples of a unit around a number of its binade. */
  lemma Bracket(k: nat, r: real) returns (c: int)
    requires Times(MIN_SIGNIFICAND, k) <= r <= Times(MAX_SIGNIFICAND, k)
    ensures MIN_SIGNIFICAND <= c <= MAX_SIGNIFICAND && Times(c, k) <= r < Times(c, k) + Unit(k)
    ensures c == MAX_SIGNIFICAND ==> r == Times(c, k)
  {
    c := Floor(r, Unit(k));
    assert Times(c, k) <= r < Times(c + 1, k);
    hide Times, Unit;
    TimesNext(c, k);
    TimesOrder(c + 1, MIN_SIGNIFICAND, k);
    TimesOrder(c, MAX_SIGNIFICAND, k);
  }

  /** The multiple above is a value too, unless it overflows; then the number is less than half a unit away. */
  lemma NextUp(fl: Floats, k: nat, c: int, r: real)
    requires Binary64(fl) && MIN_SIGNIFICAND <= c < MAX_SIGNIFICAND
    requires Times(c, k) <= r < Times(c, k) + Unit(k) && r < Threshold()
    ensures Representable64(fl, Times(c + 1, k)) || r < Times(c, k) + Unit(k) / 2.0
    ensures Times(c + 1, k) == Times(c, k) + Unit(k)
  {
    hide Times, Unit, Binary64, Representable64;
    TimesNext(c, k);
    TimesOrder(0, c + 1, k);
    if Times(c + 1, k) < Threshold() {
      MultipleIsValue(fl, c + 1, k);
    } else {
      TimesOrder(MIN_SIGNIFICAND, c, k);
      BelowTop(k, r);
      TimesOrder(c + 1, MAX_SIGNIFICAND, k);
      if k < TOP {
        TimesDouble(MIN_SIGNIFICAND, k);
        TimesMono(MIN_SIGNIFICAND, k + 1, TOP);
        TimesOrder(MIN_SIGNIFICAND, MAX_SIGNIFICAND, TOP);
      } else if c + 1 < MAX_SIGNIFICAND {
        TimesOrder(c + 1, MAX_SIGNIFICAND, k);
      }
    }
  }

  /** A number of a binade is rounded to a multiple of its unit at most half a unit away. */
  lemma NearestMultiple(fl: Floats, k: nat, r: real) returns (c: int)
    requires Binary64(fl) && r < Threshold()
    requires Times(MIN_SIGNIFICAND, k) <= r <= Times(MAX_SIGNIFICAND, k)
    ensures fl.finite(fl.nearest(r)) && fl.value(fl.nearest(r)) == Times(c, k)
    ensures Abs(Times(c, k) - r) <= Unit(k) / 2.0
    ensures MIN_SIGNIFICAND <= c <= MAX_SIGNIFICAND
  {
    hide Times, Unit, Threshold, Binary64, Representable64;
    TimesOrder(0, MIN_SIGNIFICAND, k);
    var low := Bracket(k, r);
    TimesOrder(0, low, k);
    RoundsFinite(fl, r);
    MultipleIsValue(fl, low, k);
    var v := fl.value(fl.nearest(r));
    RoundsNearest(fl, r, Times(low, k));
    TimesOrder(MIN_SIGNIFICAND, low, k);
    if low == MAX_SIGNIFICAND {
      c := low;
    } else {
      NextUp(fl, k, low, r);
      TimesOrder(low + 1, MAX_SIGNIFICAND, k);
      NoFurther(fl, k, low, r);
      c := ValueIsMultiple(fl, fl.nearest(r), k);
      TimesOrder(MIN_SIGNIFICAND, c, k);
      TimesOrder(c, MAX_SIGNIFICAND, k);
    }
  }

  /** The rounded value stays between the multiples around the number. */
  lemma NoFurther(fl: Floats, k: nat, low: int, r: real)
    requires Binary64(fl) && 0.0 <= r < Threshold() && MIN_SIGNIFICAND <= low < MAX_SIGNIFICAND
    requires Times(low, k) <= r < Times(low, k) + Unit(k) && Representable64(fl, Times(low, k))
    requires Representable64(fl, Times(low, k) + Unit(k)) || r < Times(low, k) + Unit(k) / 2.0
    ensures var v := fl.value(fl.nearest(r));
            Times(low, k) <= v <= Times(low, k) + Unit(k) && Abs(v - r) <= Unit(k) / 2.0
  {
    hide Times, Unit, Threshold, Binary64, Representable64;
    RoundsNearest(fl, r, Times(low, k));
    if Representable64(fl, Times(low, k) + Unit(k)) {
      RoundsNearest(fl, r, Times(low, k) + Unit(k));
    }
  }

  // ---- Rounding back to a given value -----------------------------------------------------

  /** Multiples less than a unit apart are equal. */
  lemma SameMultiple(c: int, d: int, k: nat)
    requires Abs(Times(c, k) - Times(d, k)) < Unit(k)
    ensures c == d
  {
    hide Times, Unit;
    TimesOrder(c, d, k);
    TimesOrder(d, c, k);
  }

  /** A number less than half a unit from a value of a binade is rounded to that value; below the least value of
      the binade, where values are twice as dense, less than a quarter. */
  lemma RoundsBack(fl: Floats, k: nat, c: int, r: real)
    requires Binary64(fl) && k > 0 && MIN_SIGNIFICAND <= c < MAX_SIGNIFICAND && r < Threshold()
    requires Abs(r - Times(c, k)) < Unit(k) / 2.0
    requires c == MIN_SIGNIFICAND ==> r - Times(c, k) > -Unit(k) / 4.0
    ensures fl.finite(fl.nearest(r)) && fl.value(fl.nearest(r)) == Times(c, k)
  {
    hide Times, Unit, Threshold, Binary64;
    TimesOrder(MIN_SIGNIFICAND, c, k);
    TimesOrder(c, MAX_SIGNIFICAND, k);
    TimesDouble(MIN_SIGNIFICAND, k - 1);
    if r >= Times(MIN_SIGNIFICAND, k) {
      var d := NearestMultiple(fl, k, r);
      SameMultiple(d, c, k);
    } else {
      assert c == MIN_SIGNIFICAND by {
        if c > MIN_SIGNIFICAND {
          TimesOrder(MIN_SIGNIFICAND, c, k);
        }
      }
      TimesOrder(MIN_SIGNIFICAND, MAX_SIGNIFICAND - 1, k - 1);
      TimesNext(MAX_SIGNIFICAND - 1, k - 1);
      var d := NearestMultiple(fl, k - 1, r);
      SameMultiple(d, MAX_SIGNIFICAND, k - 1);
    }
  }

  /** If a rounded value lies inside a binade, the number it came from is at most half a unit away. */
  lemma RoundedFrom(fl: Floats, k: nat, c: int, r: real)
    requires Binary64(fl) && MIN_SIGNIFICAND < c < MAX_SIGNIFICAND
    requires fl.finite(fl.nearest(r)) && fl.value(fl.nearest(r)) == Times(c, k)
    ensures Abs(Times(c, k) - r) <= Unit(k) / 2.0
  {
    hide Times, Unit, Binary64, Representable64;
    RoundsFinite(fl, r);
    TimesOrder(0, c - 1, k);
    TimesNext(c - 1, k);
    TimesNext(c, k);
    MultipleIsValue(fl, c - 1, k);
    RoundsNearest(fl, r, Times(c - 1, k));
    if Times(c + 1, k) < Threshold() {
      MultipleIsValue(fl, c + 1, k);
      RoundsNearest(fl, r, Times(c + 1, k));
    } else {
      TimesOrder(MIN_SIGNIFICAND, c, k);
      BelowTop(k, Times(c, k));
      TimesOrder(c + 1, MAX_SIGNIFICAND, k);
      if k < TOP {
        TimesDouble(MIN_SIGNIFICAND, k);
        TimesMono(MIN_SIGNIFICAND, k + 1, TOP);
        TimesOrder(MIN_SIGNIFICAND, MAX_SIGNIFICAND, TOP);
      }
    }
  }

  // ---- Dividing and multiplying by a million ----------------------------------------------

  /** 2^33 millions: a million units of a binade, counted in the units 19 and 20 binades further up. */
  const MID := 8_589_934_592_000_000

  lemma MillionUnits(j: nat)
    ensures Unit(j + 19) == 524_288.0 * Unit(j) && Unit(j + 20) == 1_048_576.0 * Unit(j)
    ensures Times(MID, j + 19) == SCALE * Times(MIN_SIGNIFICAND, j)
    ensures Times(MID, j + 20) == SCALE * Times(MAX_SIGNIFICAND, j)
    ensures Times(MIN_SIGNIFICAND, j + 20) == Times(MAX_SIGNIFICAND, j + 19)
  {
    hide Unit;
    UnitNineteen(j);
  }

  /** A millionth of a positive number, its binade, and its rounding. */
  lemma Millionth(fl: Floats, n: int) returns (j: nat, c: int)
    requires Binary64(fl) && n >= 1 && n as real / SCALE < Threshold()
    ensures fl.finite(fl.Dequantize(n)) && fl.value(fl.Dequantize(n)) == Times(c, j)
    ensures MIN_SIGNIFICAND <= c <= MAX_SIGNIFICAND && Abs(Times(c, j) - n as real / SCALE) <= Unit(j) / 2.0
    ensures Times(MIN_SIGNIFICAND, j) <= n as real / SCALE < Times(MAX_SIGNIFICAND, j) && j > 0
  {
    hide Times, Unit, Threshold, Binary64, Representable64;
    var t := n as real / SCALE;
    UnitGrows(n);
    LeastBinade();
    AtLeastMillionth(n);
    j := Binade(t, 0, BASE + n);
    c := NearestMultiple(fl, j, t);
  }

  lemma LeastBinade()
    ensures Times(MIN_SIGNIFICAND, 0) <= Times(MAX_SIGNIFICAND, 0) <= 0.000_001
  {
  }

  lemma AtLeastMillionth(n: int)
    requires n >= 1
    ensures 0.000_001 <= n as real / SCALE <= n as real
  {
  }

  /** The millionth's binade puts the number itself 19 or 20 binades higher; multiplied back it is off by less than
      500000 of the lower units. */
  lemma BackAgain(j: nat, c: int, n: int)
    requires Abs(Times(c, j) - n as real / SCALE) <= Unit(j) / 2.0
    requires Times(MIN_SIGNIFICAND, j) <= n as real / SCALE < Times(MAX_SIGNIFICAND, j)
    ensures Abs(Times(c, j) * SCALE - n as real) <= 500_000.0 * Unit(j)
    ensures || Times(MIN_SIGNIFICAND, j + 20) <= n as real < Times(MID, j + 20)
            || Times(MID, j + 19) <= n as real < Times(MAX_SIGNIFICAND, j + 19)
  {
    MillionUnits(j);
    hide Times, Unit;
    var t := n as real / SCALE;
    assert t * SCALE == n as real;
  }

  // ---- Integers and binades ---------------------------------------------------------------

  lemma {:induction false} OneIsMultiple(k: nat) returns (m: nat)
    requires k <= BASE
    ensures Times(m, k) == 1.0
    decreases BASE - k
  {
    if k == BASE {
      UnitOne();
      m := 1;
    } else {
      var half := OneIsMultiple(k + 1);
      TimesDouble(half, k);
      m := 2 * half;
    }
  }

  lemma IntegerIsMultiple(n: int, k: nat) returns (c: int)
    requires k <= BASE
    ensures n as real == Times(c, k)
  {
    var m := OneIsMultiple(k);
    c := n * m;
    ProductTimes(n, m, k);
  }

  lemma ProductTimes(n: int, m: int, k: nat)
    ensures Times(n * m, k) == n as real * Times(m, k)
  {
    hide Unit;
    var u := Unit(k);
    assert (n * m) as real == n as real * m as real;
    assert n as real * m as real * u == n as real * (m as real * u);
  }

  lemma TimesIsInteger(c: int, k: nat) returns (n: int)
    requires k >= BASE
    ensures Times(c, k) == n as real
  {
    var u := UnitIsInteger(k);
    n := c * u;
    assert (c * u) as real == c as real * u as real;
  }

  lemma RoundsWithin(x: real)
    ensures Abs(RoundHalfEven(x) as real - x) <= 0.5
  {
  }

  lemma RoundsIntegers(n: int)
    ensures RoundHalfEven(n as real) == n
  {
  }

  /** Where the unit is at least one, a rounded value is the value itself. */
  lemma RoundedIsValue(fl: Floats, b: u64, k: nat) returns (c: int)
    requires Binary64(fl) && fl.finite(b) && k >= BASE
    requires var n := RoundHalfEven(fl.value(b)) as real; Times(MIN_SIGNIFICAND, k) < n < Times(MAX_SIGNIFICAND, k)
    ensures fl.value(b) == RoundHalfEven(fl.value(b)) as real == Times(c, k)
    ensures MIN_SIGNIFICAND < c < MAX_SIGNIFICAND
  {
    hide Times, Unit, Binary64, RoundHalfEven, Threshold;
    var v := fl.value(b);
    RoundsWithin(v);
    var low := TimesIsInteger(MIN_SIGNIFICAND, k);
    var high := TimesIsInteger(MAX_SIGNIFICAND, k);
    TimesOrder(0, MIN_SIGNIFICAND, k);
    BetweenIntegers(low, RoundHalfEven(v), high, v);
    c := ValueIsMultiple(fl, b, k);
    var whole := TimesIsInteger(c, k);
    RoundsIntegers(whole);
    TimesOrder(c, MIN_SIGNIFICAND, k);
    TimesOrder(MAX_SIGNIFICAND, c, k);
  }

  lemma BetweenIntegers(low: int, n: int, high: int, v: real)
    requires 0 <= low < n < high && Abs(n as real - v) <= 0.5
    ensures low as real <= Abs(v) <= high as real
  {
  }

  // ---- Twenty binades up ------------------------------------------------------------------

  /** The millionth of a power of two. */
  lemma PowerOfTwo(j: nat, c: int, n: int)
    requires n as real == Times(MIN_SIGNIFICAND, j + 20)
    requires Abs(Times(c, j) - n as real / SCALE) <= Unit(j) / 2.0
    ensures Times(c, j) * SCALE - n as real > -Unit(j + 20) / 4.0
  {
    MillionUnits(j);
    var near := 4_722_366_482_869_645;
    assert n as real / SCALE == Times(near, j) + 0.213_696 * Unit(j);
    assert Times(near, j) * SCALE == n as real - 213_696.0 * Unit(j);
    SameMultiple(c, near, j);
  }

  /** A number whose least part is a power of two far up cannot come from a finite value. */
  lemma PowerBelowTop(fl: Floats, b: u64, k: nat)
    requires Binary64(fl) && fl.finite(b) && Times(MIN_SIGNIFICAND, k) - fl.value(b) <= 0.5
    ensures k <= TOP
  {
    hide Times, Unit, Binary64;
    FiniteValue(fl, b);
    if k > TOP {
      TimesMono(MIN_SIGNIFICAND, TOP + 1, k);
      TimesDouble(MIN_SIGNIFICAND, TOP);
      UnitMono(BASE, TOP);
      UnitOne();
    }
  }

  lemma FiniteValue(fl: Floats, b: u64)
    requires Binary64(fl) && fl.finite(b)
    ensures Abs(fl.value(b)) < Threshold()
  {
    hide Times, Unit, Threshold, ValuesAreMultiples, MultiplesAreValues, NearestValue;
  }

  /** A rounded value 20 binades above its millionth is a value. */
  lemma HighMultiple(fl: Floats, b: u64, n: int, k: nat) returns (d: int)
    requires Binary64(fl) && fl.finite(b) && n == RoundHalfEven(fl.value(b))
    requires Times(MIN_SIGNIFICAND, k) <= n as real < Times(MID, k)
    ensures n as real == Times(d, k) && MIN_SIGNIFICAND <= d < MID && k <= TOP
  {
    hide Times, Unit, Binary64, RoundHalfEven, Threshold;
    RoundsWithin(fl.value(b));
    TimesOrder(MID, MAX_SIGNIFICAND, k);
    if k <= BASE {
      d := IntegerIsMultiple(n, k);
    } else if n as real == Times(MIN_SIGNIFICAND, k) {
      d := MIN_SIGNIFICAND;
      PowerBelowTop(fl, b, k);
    } else {
      d := RoundedIsValue(fl, b, k);
      FiniteValue(fl, b);
      BelowTop(k, n as real);
    }
    TimesOrder(MIN_SIGNIFICAND, d, k);
    TimesOrder(MID, d, k);
  }

  lemma HigherBack(fl: Floats, n: int, j: nat, c: int, d: int)
    requires Binary64(fl) && n as real == Times(d, j + 20) && MIN_SIGNIFICAND <= d < MID && j + 20 <= TOP
    requires Abs(Times(c, j) - n as real / SCALE) <= Unit(j) / 2.0
    requires Abs(Times(c, j) * SCALE - n as real) <= 500_000.0 * Unit(j)
    ensures var w := Times(c, j) * SCALE; fl.finite(fl.nearest(w)) && fl.value(fl.nearest(w)) == n as real
  {
    hide Times, Unit, Binary64, Threshold;
    var k := j + 20;
    MillionUnits(j);
    TimesOrder(d, MAX_SIGNIFICAND, k);
    InsideTop(k, Times(c, j) * SCALE);
    if d == MIN_SIGNIFICAND {
      PowerOfTwo(j, c, n);
    }
    RoundsBack(fl, k, d, Times(c, j) * SCALE);
  }

  lemma HigherCase(fl: Floats, b: u64, n: int, j: nat, c: int)
    requires Binary64(fl) && fl.finite(b) && n == RoundHalfEven(fl.value(b))
    requires Abs(Times(c, j) - n as real / SCALE) <= Unit(j) / 2.0
    requires Abs(Times(c, j) * SCALE - n as real) <= 500_000.0 * Unit(j)
    requires Times(MIN_SIGNIFICAND, j + 20) <= n as real < Times(MID, j + 20)
    ensures var w := Times(c, j) * SCALE; fl.finite(fl.nearest(w)) && fl.value(fl.nearest(w)) == n as real
  {
    hide Times, Unit, Binary64, RoundHalfEven, Threshold;
    var d := HighMultiple(fl, b, n, j + 20);
    HigherBack(fl, n, j, c, d);
  }

  // ---- Nineteen binades up ----------------------------------------------------------------

  /** If the rounded value is a value, its millionth rounds to the coordinate it came from. */
  lemma ComesBack(fl: Floats, x: u64, n: int, j: nat, c: int, d: int)
    requires Binary64(fl) && fl.finite(x) && j > 0
    requires var p := fl.nearest(fl.value(x) * SCALE); fl.finite(p) && fl.value(p) == n as real == Times(d, j + 19)
    requires MIN_SIGNIFICAND < d < MAX_SIGNIFICAND
    requires Abs(Times(c, j) - n as real / SCALE) <= Unit(j) / 2.0
    requires Times(MIN_SIGNIFICAND, j) <= n as real / SCALE && n as real < Times(MAX_SIGNIFICAND, j + 19)
    ensures Times(c, j) == fl.value(x)
  {
    hide Times, Unit, Binary64, Threshold;
    MillionUnits(j);
    RoundedFrom(fl, j + 19, d, fl.value(x) * SCALE);
    CoordinateNear(fl, x, n, j);
    var e := ValueIsMultiple(fl, x, j);
    SameMultiple(c, e, j);
  }

  lemma CoordinateNear(fl: Floats, x: u64, n: int, j: nat)
    requires Binary64(fl) && fl.finite(x) && j > 0
    requires Abs(n as real - fl.value(x) * SCALE) <= 262_144.0 * Unit(j)
    requires Times(MIN_SIGNIFICAND, j) <= n as real / SCALE && n as real < Times(MIN_SIGNIFICAND, j + 20)
    ensures Abs(n as real / SCALE - fl.value(x)) < 0.3 * Unit(j)
    ensures InBinade(j, fl.value(x))
  {
    hide Binary64, Threshold;
    MillionUnits(j);
    var v := fl.value(x);
    TimesDouble(MIN_SIGNIFICAND, j - 1);
    if v < Times(MIN_SIGNIFICAND, j) {
      hide Times, Unit;
      TimesOrder(MIN_SIGNIFICAND, MAX_SIGNIFICAND - 1, j - 1);
      TimesNext(MAX_SIGNIFICAND - 1, j - 1);
      var e := ValueIsMultiple(fl, x, j - 1);
      TimesOrder(e, MAX_SIGNIFICAND, j - 1);
    }
  }

  /** With halves between the integers, an odd rounded value is the value itself. */
  lemma OddIsValue(fl: Floats, b: u64) returns (d: int)
    requires Binary64(fl) && fl.finite(b) && RoundHalfEven(fl.value(b)) % 2 != 0
    requires Times(MID, 79) <= RoundHalfEven(fl.value(b)) as real < Times(MAX_SIGNIFICAND, 79)
    ensures fl.value(b) == RoundHalfEven(fl.value(b)) as real == Times(d, 79) && MIN_SIGNIFICAND < d < MAX_SIGNIFICAND
  {
    UnitOne();
    hide Unit, Binary64;
    d := ValueIsMultiple(fl, b, 79);
    HalfOdd(d);
  }

  /** Halves round to even. */
  lemma HalfOdd(d: int)
    requires RoundHalfEven(d as real * 0.5) % 2 != 0
    ensures d as real * 0.5 == RoundHalfEven(d as real * 0.5) as real
  {
    var m := d / 2;
    HalfValue(d);
    if d % 2 == 0 {
      RoundsIntegers(m);
    } else {
      HalfToEven(m);
    }
  }

  lemma HalfValue(d: int)
    ensures d as real * 0.5 == (d / 2) as real + if d % 2 == 0 then 0.0 else 0.5
  {
  }

  lemma HalfToEven(m: int)
    ensures RoundHalfEven(m as real + 0.5) == if m % 2 == 0 then m else m + 1
  {
    assert (m as real + 0.5).Floor == m;
  }

  lemma HalfTimes(d: int)
    ensures Times(d, 79) == d as real * 0.5
  {
    UnitOne();
  }

  /** With halves between the integers, an even number comes back from less than half away. */
  lemma EvenComesBack(fl: Floats, n: int, w: real)
    requires Binary64(fl) && n % 2 == 0 && Abs(w - n as real) < 0.48
    requires Times(MID, 79) <= n as real < Times(MAX_SIGNIFICAND, 79)
    ensures fl.finite(fl.nearest(w)) && RoundHalfEven(fl.value(fl.nearest(w))) == n
  {
    hide Unit, Binary64, Threshold, Times, RoundHalfEven;
    UnitOne();
    HalfTimes(MIN_SIGNIFICAND);
    HalfTimes(MID);
    HalfTimes(MAX_SIGNIFICAND);
    SmallBelowThreshold(w);
    var d := NearestMultiple(fl, 79, w);
    HalfTimes(d);
    NearHalf(n, d, w);
    EvenHalves(n, d);
  }

  lemma NearHalf(n: int, d: int, w: real)
    requires Abs(w - n as real) < 0.48 && Abs(d as real * 0.5 - w) <= 0.25
    ensures 2 * n - 1 <= d <= 2 * n + 1
  {
    assert Abs(d as real * 0.5 - n as real) < 0.73;
    assert -2.0 < (d - 2 * n) as real < 2.0;
  }

  lemma EvenHalves(n: int, d: int)
    requires n % 2 == 0 && 2 * n - 1 <= d <= 2 * n + 1
    ensures RoundHalfEven(d as real * 0.5) == n
  {
    HalfValue(d);
    RoundsIntegers(n);
    HalfToEven(n);
    HalfToEven(n - 1);
  }

  lemma SmallBelowThreshold(w: real)
    requires w < MAX_SIGNIFICAND as real - 1.0
    ensures w < Threshold()
  {
    UnitOne();
    assert Times(MAX_SIGNIFICAND, BASE) == MAX_SIGNIFICAND as real;
    hide Times, Unit, Threshold;
    InsideTop(BASE, w);
  }

  lemma SmallUnits(k: nat)
    requires k <= 78
    ensures Unit(k) <= 0.25 && Times(MAX_SIGNIFICAND, k) <= MIN_SIGNIFICAND as real / 2.0
  {
    UnitMono(k, 78);
    UnitOne();
    TimesMono(MAX_SIGNIFICAND, k, 78);
    assert Times(MAX_SIGNIFICAND, 78) == MIN_SIGNIFICAND as real / 2.0;
  }

  /** Up to the end of the next binade rounding is off by at most a unit. */
  lemma RoundsWithinUnit(fl: Floats, k: nat, w: real)
    requires Binary64(fl) && w < Threshold() && Times(MIN_SIGNIFICAND, k) <= w <= Times(MAX_SIGNIFICAND, k) + Unit(k)
    ensures fl.finite(fl.nearest(w)) && Abs(fl.value(fl.nearest(w)) - w) <= Unit(k)
  {
    hide Times, Unit, Binary64, Threshold;
    if w <= Times(MAX_SIGNIFICAND, k) {
      var d := NearestMultiple(fl, k, w);
    } else {
      TimesDouble(MIN_SIGNIFICAND, k);
      TimesOrder(MIN_SIGNIFICAND, MAX_SIGNIFICAND, k + 1);
      var d := NearestMultiple(fl, k + 1, w);
    }
  }

  /** Further down the errors of the division and of the product add up to less than half. */
  lemma SmallComesBack(fl: Floats, n: int, k: nat, w: real)
    requires Binary64(fl) && k <= 78 && Abs(w - n as real) <= 0.96 * Unit(k)
    requires Times(MID, k) <= n as real < Times(MAX_SIGNIFICAND, k)
    ensures fl.finite(fl.nearest(w)) && RoundHalfEven(fl.value(fl.nearest(w))) == n
  {
    hide Times, Unit, Binary64, Threshold, RoundHalfEven;
    SmallUnits(k);
    SmallBelowThreshold(w);
    TimesOrder(MIN_SIGNIFICAND, MID, k);
    RoundsWithinUnit(fl, k, w);
    RoundNear(fl.value(fl.nearest(w)), n);
  }

  lemma LowerCase(fl: Floats, x: u64, n: int, j: nat, c: int)
    requires Binary64(fl) && fl.finite(x) && j > 0
    requires var p := fl.nearest(fl.value(x) * SCALE); fl.finite(p) && n == RoundHalfEven(fl.value(p))
    requires Abs(Times(c, j) - n as real / SCALE) <= Unit(j) / 2.0
    requires Abs(Times(c, j) * SCALE - n as real) <= 500_000.0 * Unit(j)
    requires Times(MIN_SIGNIFICAND, j) <= n as real / SCALE
    requires Times(MID, j + 19) <= n as real < Times(MAX_SIGNIFICAND, j + 19)
    ensures var w := Times(c, j) * SCALE; fl.finite(fl.nearest(w)) && RoundHalfEven(fl.value(fl.nearest(w))) == n
  {
    MillionUnits(j);
    UnitOne();
    hide Times, Unit, Binary64, RoundHalfEven, Threshold;
    var k := j + 19;
    var p := fl.nearest(fl.value(x) * SCALE);
    TimesOrder(MIN_SIGNIFICAND, MID, k);
    if k >= BASE {
      var d := RoundedIsValue(fl, p, k);
      ComesBack(fl, x, n, j, c, d);
    } else if k == 79 && n % 2 != 0 {
      var d := OddIsValue(fl, p);
      ComesBack(fl, x, n, j, c, d);
    } else if k == 79 {
      EvenComesBack(fl, n, Times(c, j) * SCALE);
    } else {
      SmallComesBack(fl, n, k, Times(c, j) * SCALE);
    }
  }

  // ---- Every quantized coordinate survives ------------------------------------------------

  lemma QuantizedBound(fl: Floats, b: u64)
    requires Binary64(fl) && fl.finite(b) && RoundHalfEven(fl.value(b)) >= 1
    ensures RoundHalfEven(fl.value(b)) as real / SCALE < Threshold()
  {
    hide Binary64, Threshold, RoundHalfEven;
    RoundsWithin(fl.value(b));
    FiniteValue(fl, b);
  }

  lemma PositiveFaithful(fl: Floats, x: u64, n: int)
    requires Binary64(fl) && fl.finite(x) && fl.Quantize(x) == Some(n) && n >= 1
    ensures fl.Faithful(n)
  {
    hide Times, Unit, Binary64, RoundHalfEven, Threshold;
    var p := fl.nearest(fl.value(x) * SCALE);
    QuantizedBound(fl, p);
    var j, c := Millionth(fl, n);
    BackAgain(j, c, n);
    if Times(MIN_SIGNIFICAND, j + 20) <= n as real < Times(MID, j + 20) {
      HigherCase(fl, p, n, j, c);
      RoundsIntegers(n);
    } else {
      LowerCase(fl, x, n, j, c);
    }
  }

  /** The same doubles with all signs changed. */
  function Mirrored(fl: Floats): Floats {
    Floats(fl.finite, (b: u64) => -fl.value(b), (r: real) => fl.nearest(-r))
  }

  lemma RoundsMirrored(x: real)
    ensures RoundHalfEven(-x) == -RoundHalfEven(x)
  {
  }

  lemma MirroredValues(fl: Floats)
    requires ValuesAreMultiples(fl)
    ensures ValuesAreMultiples(Mirrored(fl))
  {
    hide Times;
    var mirror := Mirrored(fl);
    forall b: u64, k: nat | mirror.finite(b) && InBinade(k, mirror.value(b))
      ensures Multiple(mirror.value(b), k)
    {
      assert InBinade(k, fl.value(b)) && Multiple(fl.value(b), k);
      var c: int :| fl.value(b) == Times(c, k);
      TimesNegated(c, k);
      assert mirror.value(b) == Times(-c, k);
    }
  }

  lemma TimesNegated(c: int, k: nat)
    ensures Times(-c, k) == -Times(c, k)
  {
    hide Unit;
  }

  lemma MirroredMultiples(fl: Floats)
    requires MultiplesAreValues(fl)
    ensures MultiplesAreValues(Mirrored(fl))
  {
    hide Times, Threshold;
    var mirror := Mirrored(fl);
    forall c: int, k: nat | Significand(c) && Abs(Times(c, k)) < Threshold()
      ensures Representable64(mirror, Times(c, k))
    {
      TimesNegated(c, k);
      assert Significand(-c) && Representable64(fl, Times(-c, k));
      var b: u64 :| fl.finite(b) && fl.value(b) == Times(-c, k);
      assert mirror.finite(b) && mirror.value(b) == Times(c, k);
    }
  }

  lemma MirroredNoNearer(fl: Floats, r: real, b: u64)
    requires NoNearer(fl, -r, b)
    ensures NoNearer(Mirrored(fl), r, b)
  {
    hide Threshold;
    assert Abs(-r) == Abs(r);
    assert Mirrored(fl).nearest(r) == fl.nearest(-r);
  }

  lemma MirroredNearest(fl: Floats)
    requires NearestValue(fl)
    ensures NearestValue(Mirrored(fl))
  {
    hide NoNearer;
    forall r: real, b: u64
      ensures NoNearer(Mirrored(fl), r, b)
    {
      assert NoNearer(fl, -r, b);
      MirroredNoNearer(fl, r, b);
    }
  }

  lemma MirroredFinite(fl: Floats)
    requires FiniteBelowThreshold(fl)
    ensures FiniteBelowThreshold(Mirrored(fl))
  {
    hide Threshold;
    var mirror := Mirrored(fl);
    forall r: real
      ensures mirror.finite(mirror.nearest(r)) <==> Abs(r) < Threshold()
    {
      assert mirror.nearest(r) == fl.nearest(-r);
    }
  }

  lemma MirroredBinary64(fl: Floats)
    requires Binary64(fl)
    ensures Binary64(Mirrored(fl))
  {
    hide ValuesAreMultiples, MultiplesAreValues, FiniteBelowThreshold, NearestValue;
    MirroredValues(fl);
    MirroredMultiples(fl);
    MirroredFinite(fl);
    MirroredNearest(fl);
  }

  lemma MirroredQuantize(fl: Floats, x: u64, n: int)
    ensures fl.Quantize(x) == Some(n) <==> Mirrored(fl).Quantize(x) == Some(-n)
  {
    hide RoundHalfEven;
    var mirror := Mirrored(fl);
    assert mirror.value(x) * SCALE == -(fl.value(x) * SCALE);
    assert -(-(fl.value(x) * SCALE)) == fl.value(x) * SCALE;
    assert mirror.nearest(mirror.value(x) * SCALE) == fl.nearest(fl.value(x) * SCALE);
    RoundsMirrored(fl.value(fl.nearest(fl.value(x) * SCALE)));
  }

  lemma MirroredFaithful(fl: Floats, n: int)
    requires Mirrored(fl).Faithful(-n)
    ensures fl.Faithful(n)
  {
    var mirror := Mirrored(fl);
    assert -((-n) as real / SCALE) == n as real / SCALE;
    assert mirror.Dequantize(-n) == fl.Dequantize(n);
    MirroredQuantize(fl, fl.Dequantize(n), n);
  }

  lemma ZeroFaithful(fl: Floats)
    requires Binary64(fl)
    ensures fl.Faithful(0)
  {
    hide ValuesAreMultiples, MultiplesAreValues, Threshold, RoundHalfEven;
    ThresholdPositive();
    var z := fl.nearest(0.0);
    assert NoNearer(fl, 0.0, 0);
    assert fl.value(z) == 0.0;
    assert 0 as real / SCALE == 0.0 && 0.0 * SCALE == 0.0;
    RoundsIntegers(0);
  }

  lemma ThresholdPositive()
    ensures Threshold() > 0.0
  {
    SmallBelowThreshold(0.0);
  }

  /** The binades a small integer can be in. */
  lemma SmallBinades(n: int, k: nat)
    requires 1 <= n < MIN_SIGNIFICAND / 2
    ensures Times(MIN_SIGNIFICAND, k) <= n as real ==> k <= BASE
    ensures Times(MID, k) <= n as real ==> k <= 78
  {
    UnitOne();
    HalfTimes(MID);
    assert Times(MIN_SIGNIFICAND, BASE) == MIN_SIGNIFICAND as real;
    hide Times, Unit;
    if k > BASE {
      TimesMono(MIN_SIGNIFICAND, BASE, k);
    }
    if k > 78 {
      TimesMono(MID, 79, k);
    }
  }

  lemma SmallHigher(fl: Floats, n: int, j: nat, c: int)
    requires Binary64(fl) && 1 <= n < MIN_SIGNIFICAND / 2
    requires Abs(Times(c, j) - n as real / SCALE) <= Unit(j) / 2.0
    requires Abs(Times(c, j) * SCALE - n as real) <= 500_000.0 * Unit(j)
    requires Times(MIN_SIGNIFICAND, j + 20) <= n as real < Times(MID, j + 20)
    ensures var w := Times(c, j) * SCALE; fl.finite(fl.nearest(w)) && fl.value(fl.nearest(w)) == n as real
  {
    hide Times, Unit, Binary64, Threshold;
    SmallBinades(n, j + 20);
    var d := IntegerIsMultiple(n, j + 20);
    TimesOrder(MIN_SIGNIFICAND, d, j + 20);
    TimesOrder(MID, d, j + 20);
    HigherBack(fl, n, j, c, d);
  }

  lemma SmallLower(fl: Floats, n: int, j: nat, c: int)
    requires Binary64(fl) && 1 <= n < MIN_SIGNIFICAND / 2
    requires Abs(Times(c, j) * SCALE - n as real) <= 500_000.0 * Unit(j)
    requires Times(MID, j + 19) <= n as real < Times(MAX_SIGNIFICAND, j + 19)
    ensures var w := Times(c, j) * SCALE; fl.finite(fl.nearest(w)) && RoundHalfEven(fl.value(fl.nearest(w))) == n
  {
    hide Times, Unit, Binary64, Threshold, RoundHalfEven;
    MillionUnits(j);
    SmallBinades(n, j + 19);
    SmallComesBack(fl, n, j + 19, Times(c, j) * SCALE);
  }

  /** Small integers survive wherever they came from. */
  lemma SmallFaithful(fl: Floats, n: int)
    requires Binary64(fl) && 1 <= n < MIN_SIGNIFICAND / 2
    ensures fl.Faithful(n)
  {
    hide Times, Unit, Binary64, RoundHalfEven, Threshold;
    SmallBelowThreshold(n as real / SCALE);
    var j, c := Millionth(fl, n);
    BackAgain(j, c, n);
    if Times(MIN_SIGNIFICAND, j + 20) <= n as real < Times(MID, j + 20) {
      SmallHigher(fl, n, j, c);
      RoundsIntegers(n);
    } else {
      SmallLower(fl, n, j, c);
    }
  }

  /** Whatever finite double a quantized coordinate came from, writing the quotient by a million and quantizing
      again gives the same integer. */
  lemma QuantizedFaithful(fl: Floats, x: u64, n: int)
    requires Binary64(fl) && fl.finite(x) && fl.Quantize(x) == Some(n)
    ensures fl.Faithful(n)
  {
    hide Binary64, RoundHalfEven;
    if n >= 1 {
      PositiveFaithful(fl, x, n);
    } else if n == 0 {
      ZeroFaithful(fl);
    } else {
      MirroredBinary64(fl);
      MirroredQuantize(fl, x, n);
      assert Mirrored(fl).finite(x);
      PositiveFaithful(Mirrored(fl), x, -n);
      MirroredFaithful(fl, n);
    }
  }
}
