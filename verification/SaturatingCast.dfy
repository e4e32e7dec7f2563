/**
 The lowering of the saturating float-to-integer intrinsics into compares and selects, against
 the saturating conversion itself, for every binary float format and every integer width.
 */
module SaturatingCast {
  import opened Wrappers

  // ----- formats and values -----

  function Pow(e: nat): (r: int)
    ensures r >= 1
  {
    if e == 0 then 1 else 2 * Pow(e - 1)
  }

  /** Significands of `precision` bits, units in the last place from `2^lowest` to `2^highest`. */
  datatype Format = Format(precision: nat, lowest: int, highest: nat) {
    predicate Valid() { precision >= 1 && lowest <= 0 }
  }

  /** A float; the two zeros compare and convert alike and are one value here. */
  datatype Fp = NaN | PosInf | NegInf | Finite(r: real)

  ghost predicate Scaled(r: real, m: int, e: int) {
    if e >= 0 then r == (m * Pow(e)) as real else r * Pow(-e) as real == m as real
  }

  ghost predicate HasForm(f: Format, r: real, m: int, e: int) {
    -Pow(f.precision) < m < Pow(f.precision) && f.lowest <= e <= f.highest && Scaled(r, m, e)
  }

  ghost predicate Representable(f: Format, r: real) { exists m, e :: HasForm(f, r, m, e) }

  ghost predicate InFormat(f: Format, x: Fp) { x.Finite? ==> Representable(f, x.r) }

  datatype IntType = IntType(signed: bool, bits: nat) {
    predicate Valid() { bits >= 1 }
    /** Binary digits of the magnitude. */
    function Digits(): nat requires Valid() { if signed then bits - 1 else bits }
    function Max(): int requires Valid() { Pow(Digits()) - 1 }
    function Min(): int requires Valid() { if signed then -Pow(Digits()) else 0 }
  }

  // ----- what is asked for: NaN to zero, truncate, clamp -----

  function Truncate(r: real): int { if r >= 0.0 then r.Floor else -(-r).Floor }

  function Saturated(t: IntType, x: Fp): int
    requires t.Valid()
  {
    match x
    case NaN => 0
    case PosInf => t.Max()
    case NegInf => t.Min()
    case Finite(r) =>
      if Truncate(r) > t.Max() then t.Max() else if Truncate(r) < t.Min() then t.Min() else Truncate(r)
  }

  // ----- what is emitted -----

  /** The largest float not above the integer: conversion with rounding toward zero. */
  function RoundDown(f: Format, n: nat, e: nat): int
    requires e <= f.highest
    decreases f.highest - e
  {
    if n / Pow(e) < Pow(f.precision) then n / Pow(e) * Pow(e)
    else if e == f.highest then (Pow(f.precision) - 1) * Pow(e)
    else RoundDown(f, n, e + 1)
  }

  function FromInt(f: Format, n: int): int {
    if n >= 0 then RoundDown(f, n, 0) else -RoundDown(f, -n, 0)
  }

  /** `fptosi` and `fptoui`; `None` is poison. */
  function Convert(t: IntType, x: Fp): Option<int>
    requires t.Valid()
  {
    if x.Finite? && t.Min() <= Truncate(x.r) <= t.Max() then Some(Truncate(x.r)) else None
  }

  predicate OrderedGe(x: Fp, c: int) { x.PosInf? || (x.Finite? && x.r >= c as real) }
  predicate OrderedLe(x: Fp, c: int) { x.NegInf? || (x.Finite? && x.r <= c as real) }

  function Select<T>(c: bool, a: T, b: T): T { if c then a else b }

  function Lowered(f: Format, t: IntType, x: Fp): Option<int>
    requires t.Valid()
  {
    var converted := Convert(t, x);
    var atMost := Select(OrderedGe(x, FromInt(f, t.Max())), Some(t.Max()), converted);
    var atLeast := Select(OrderedLe(x, FromInt(f, t.Min())), Some(t.Min()), atMost);
    Select(x.NaN?, Some(0), atLeast)
  }

  // ----- rounding -----

  lemma {:induction false} PowSum(a: nat, b: nat)
    ensures Pow(a + b) == Pow(a) * Pow(b)
  {
    if a > 0 { PowSum(a - 1, b); }
  }

  lemma PowMonotone(a: nat, b: nat)
    requires a <= b
    ensures Pow(a) <= Pow(b)
  {
    PowSum(a, b - a);
  }

  lemma PowDoubles(e: nat)
    requires e > 0
    ensures Pow(e) == 2 * Pow(e - 1)
  {
  }

  /** Every representable value at most `n` is at most `v`. */
  ghost predicate Dominates(f: Format, n: nat, v: int) {
    forall r :: Representable(f, r) && 0.0 <= r <= n as real ==> r <= v as real
  }

  /** A representable value is below every power of two its significand and scale do not reach. */
  lemma BelowPow(f: Format, r: real, m: int, e: int, top: nat)
    requires HasForm(f, r, m, e) && f.precision + e <= top
    ensures -(Pow(top) as real) < r < Pow(top) as real
  {
    hide Pow;
    if e >= 0 {
      PowSum(f.precision, e);
      PowMonotone(f.precision + e, top);
      MulBounds(m, Pow(f.precision), Pow(e));
    } else {
      PowMonotone(f.precision, top - e);
      PowSum(top, -e);
      Unscale(r, m, Pow(-e), Pow(top));
    }
  }

  lemma MulBounds(m: int, p: int, q: int)
    requires -p < m < p && q >= 1
    ensures -(p * q) < m * q < p * q
  {
    assert (p - m) * q > 0 && (p + m) * q > 0;
  }

  lemma Unscale(r: real, m: int, q: int, t: int)
    requires q >= 1 && r * q as real == m as real && -(t * q) < m < t * q
    ensures -(t as real) < r < t as real
  {
    assert (t * q) as real == t as real * q as real;
  }

  /** Scaled by at least `2^e`, a representable value at most `n` is a multiple of `2^e` at most `n`. */
  lemma CoarseBelow(r: real, m: int, e': nat, e: nat, n: nat)
    requires e' >= e && r == (m * Pow(e')) as real && r <= n as real
    ensures r <= (n / Pow(e) * Pow(e)) as real
  {
    PowSum(e' - e, e);
    var k := m * Pow(e' - e);
    assert m * Pow(e') == k * Pow(e) by { MulAssoc(m, Pow(e' - e), Pow(e)); }
    MultipleBelow(k, Pow(e), n);
  }

  lemma MulAssoc(a: int, b: int, c: int)
    ensures a * (b * c) == (a * b) * c
  {
  }

  lemma MultipleBelow(k: int, p: int, n: int)
    requires p >= 1 && k * p <= n
    ensures k * p <= n / p * p <= n
  {
    assert n == n / p * p + n % p;
    var d := k - n / p - 1;
    assert d >= 0 ==> d * p >= 0;
    assert k <= n / p;
    MulMonotone(k, n / p, p);
  }

  /** `RoundDown` returns the largest representable value at most `n`. */
  lemma {:induction false} RoundDownGreatest(f: Format, n: nat, e: nat)
    requires f.Valid() && e <= f.highest
    requires e > 0 ==> Pow(f.precision + e - 1) <= n
    ensures 0 <= RoundDown(f, n, e) <= n && Representable(f, RoundDown(f, n, e) as real)
    ensures Dominates(f, n, RoundDown(f, n, e))
    decreases f.highest - e
  {
    hide Pow, Representable, Dominates;
    if n / Pow(e) < Pow(f.precision) {
      WithinRange(f, n, e);
    } else {
      PowSum(f.precision, e);
      MulMonotone(Pow(f.precision), n / Pow(e), Pow(e));
      MultipleBelow(0, Pow(e), n);
      if e == f.highest {
        BeyondRange(f, n);
      } else {
        RoundDownGreatest(f, n, e + 1);
      }
    }
  }

  lemma MulMonotone(a: int, b: int, c: int)
    requires a <= b && c >= 0
    ensures a * c <= b * c
  {
    assert (b - a) * c >= 0;
  }

  lemma WithinRange(f: Format, n: nat, e: nat)
    requires f.Valid() && e <= f.highest && n / Pow(e) < Pow(f.precision)
    requires e > 0 ==> Pow(f.precision + e - 1) <= n
    ensures var v := n / Pow(e) * Pow(e); 0 <= v <= n && Representable(f, v as real) && Dominates(f, n, v)
  {
    var v := n / Pow(e) * Pow(e);
    hide Pow;
    MultipleBelow(0, Pow(e), n);
    assert HasForm(f, v as real, n / Pow(e), e);
    forall r | Representable(f, r) && 0.0 <= r <= n as real ensures r <= v as real {
      var m, e' :| HasForm(f, r, m, e');
      FineOrCoarse(f, n, e, r, m, e');
    }
  }

  lemma FineOrCoarse(f: Format, n: nat, e: nat, r: real, m: int, e': int)
    requires f.Valid() && HasForm(f, r, m, e') && r <= n as real
    requires e > 0 ==> Pow(f.precision + e - 1) <= n
    ensures r <= (n / Pow(e) * Pow(e)) as real
  {
    if e' >= e {
      CoarseBelow(r, m, e', e, n);
    } else if e > 0 {
      hide Pow;
      BelowPow(f, r, m, e', f.precision + e - 1);
      PowSum(f.precision - 1, e);
      MultipleBelow(Pow(f.precision - 1), Pow(e), n);
    } else {
      assert Pow(e) == 1;
    }
  }

  lemma BeyondRange(f: Format, n: nat)
    requires f.Valid() && Pow(f.precision) * Pow(f.highest) <= n
    ensures var v := (Pow(f.precision) - 1) * Pow(f.highest); 0 <= v <= n && Representable(f, v as real) && Dominates(f, n, v)
  {
    var v := (Pow(f.precision) - 1) * Pow(f.highest);
    var top := f.precision + f.highest - 1;
    assert 2 * Pow(top) == Pow(top + 1);
    hide Pow;
    PowSum(f.precision, f.highest);
    PowMonotone(f.highest, top);
    assert v == 2 * Pow(top) - Pow(f.highest);
    IntegerForm(f, v, Pow(f.precision) - 1, f.highest);
    forall r | Representable(f, r) && 0.0 <= r <= n as real ensures r <= v as real {
      var m, e :| HasForm(f, r, m, e);
      if e == f.highest {
        MulMonotone(m, Pow(f.precision) - 1, Pow(f.highest));
      } else {
        BelowPow(f, r, m, e, top);
      }
    }
  }

  // ----- the lowering is the saturating conversion, but for at most two inputs -----

  /** The float next to the integer bound, on the side of zero. */
  lemma FromIntNearest(f: Format, n: int)
    requires f.Valid()
    ensures Representable(f, FromInt(f, n) as real)
    ensures n >= 0 ==> 0 <= FromInt(f, n) <= n
    ensures n <= 0 ==> n <= FromInt(f, n) <= 0
    ensures forall r :: Representable(f, r) && n >= 0 && 0.0 <= r <= n as real ==> r <= FromInt(f, n) as real
    ensures forall r :: Representable(f, r) && n <= 0 && n as real <= r <= 0.0 ==> FromInt(f, n) as real <= r
  {
    hide RoundDown;
    var size: nat := if n >= 0 then n else -n;
    RoundDownGreatest(f, size, 0);
    if n < 0 { Mirror(f, RoundDown(f, size, 0) as real); }
    forall r | Representable(f, r) && n <= 0 && n as real <= r <= 0.0 ensures FromInt(f, n) as real <= r {
      Mirror(f, r);
    }
  }

  lemma Mirror(f: Format, r: real)
    requires Representable(f, r)
    ensures Representable(f, -r)
  {
    var m, e :| HasForm(f, r, m, e);
    if e >= 0 {
      assert (-m) * Pow(e) == -(m * Pow(e));
    }
    assert HasForm(f, -r, -m, e);
  }

  /** An input at a bound that the format cannot hold: the compare already takes it for the bound. */
  predicate AtRoundedBound(f: Format, t: IntType, x: Fp)
    requires t.Valid()
  {
    && x.Finite?
    && (|| (x.r == FromInt(f, t.Max()) as real && FromInt(f, t.Max()) != t.Max())
        || (x.r == FromInt(f, t.Min()) as real && FromInt(f, t.Min()) != t.Min()))
  }

  lemma TruncateBetween(r: real)
    ensures r >= 0.0 ==> 0.0 <= Truncate(r) as real <= r
    ensures r <= 0.0 ==> r <= Truncate(r) as real <= 0.0
    ensures r >= 0.0 ==> r < Truncate(r) as real + 1.0
    ensures r <= 0.0 ==> Truncate(r) as real - 1.0 < r
  {
  }

  /** The bounds keep their signs: a bound other than zero stays at least one away from it. */
  lemma BoundSigns(f: Format, t: IntType)
    requires f.Valid() && t.Valid()
    ensures t.Min() <= FromInt(f, t.Min()) <= 0 <= FromInt(f, t.Max()) <= t.Max() && t.Min() < t.Max()
    ensures t.Max() >= 1 ==> FromInt(f, t.Max()) >= 1
    ensures t.Min() <= -1 ==> FromInt(f, t.Min()) <= -1
  {
    assert HasForm(f, 1.0, 1, 0) && HasForm(f, -1.0, -1, 0);
    assert Representable(f, 1.0) && Representable(f, -1.0);
    FromIntNearest(f, t.Max());
    FromIntNearest(f, t.Min());
  }

  lemma NonNegativeSaturates(f: Format, t: IntType, x: Fp)
    requires f.Valid() && t.Valid() && InFormat(f, x) && x.Finite? && x.r >= 0.0
    ensures Lowered(f, t, x) == Some(Saturated(t, x)) <==> !AtRoundedBound(f, t, x)
  {
    BoundSigns(f, t);
    FromIntNearest(f, t.Max());
    TruncateBetween(x.r);
    hide FromInt, Representable, Truncate, IntType.Min, IntType.Max;
    assert x.r <= t.Max() as real ==> x.r <= FromInt(f, t.Max()) as real;
    assert Truncate(x.r) >= t.Max() <==> x.r >= t.Max() as real;
  }

  lemma NegativeSaturates(f: Format, t: IntType, x: Fp)
    requires f.Valid() && t.Valid() && InFormat(f, x) && x.Finite? && x.r < 0.0
    ensures Lowered(f, t, x) == Some(Saturated(t, x)) <==> !AtRoundedBound(f, t, x)
  {
    BoundSigns(f, t);
    FromIntNearest(f, t.Min());
    TruncateBetween(x.r);
    hide FromInt, Representable, Truncate, IntType.Min, IntType.Max;
    assert x.r >= t.Min() as real ==> x.r >= FromInt(f, t.Min()) as real;
    assert Truncate(x.r) <= t.Min() <==> x.r <= t.Min() as real;
  }

  /** Every float, infinite or not a number included, in every format, for every integer type. */
  lemma LoweringSaturates(f: Format, t: IntType, x: Fp)
    requires f.Valid() && t.Valid() && InFormat(f, x)
    ensures Lowered(f, t, x) == Some(Saturated(t, x)) <==> !AtRoundedBound(f, t, x)
  {
    if x.Finite? {
      if x.r >= 0.0 { NonNegativeSaturates(f, t, x); } else { NegativeSaturates(f, t, x); }
    }
  }

  // ----- which bounds a format holds -----

  lemma ExactIff(f: Format, n: int)
    requires f.Valid()
    ensures FromInt(f, n) == n <==> Representable(f, n as real)
  {
    FromIntNearest(f, n);
  }

  /** An integer that is not even is its own significand, or a fraction of it. */
  lemma OddForm(f: Format, n: int, m: int, e: int)
    requires n >= 0 && HasForm(f, n as real, m, e)
    ensures n % 2 == 0 || n < Pow(f.precision)
  {
    if e > 0 {
      MulAssoc(m, Pow(e - 1), 2);
      assert n == 2 * (m * Pow(e - 1));
    } else if e < 0 {
      hide Pow;
      assert (n as real) * (Pow(-e) as real) == (n * Pow(-e)) as real;
      MulMonotone(1, Pow(-e), n);
    }
  }

  /** The largest integer is odd, so its digits must fit into the significand. */
  lemma MaxExactIff(f: Format, t: IntType)
    requires f.Valid() && t.Valid()
    ensures FromInt(f, t.Max()) == t.Max() <==> t.Digits() <= f.precision
  {
    var d, n := t.Digits(), t.Max();
    ExactIff(f, n);
    if d <= f.precision {
      PowMonotone(d, f.precision);
      hide FromInt;
      assert HasForm(f, n as real, n, 0);
    } else {
      PowMonotone(f.precision + 1, d);
      assert Pow(f.precision + 1) == 2 * Pow(f.precision) && Pow(d) == 2 * Pow(d - 1);
      hide FromInt, Pow;
      if Representable(f, n as real) {
        var m, e :| HasForm(f, n as real, m, e);
        OddForm(f, n, m, e);
      }
    }
  }

  lemma IntegerForm(f: Format, n: int, m: int, e: nat)
    requires f.Valid() && -Pow(f.precision) < m < Pow(f.precision) && e <= f.highest && n == m * Pow(e)
    ensures Representable(f, n as real)
  {
    hide Pow;
    assert HasForm(f, n as real, m, e);
  }

  lemma PowerRepresentable(f: Format, d: nat)
    requires f.Valid() && d < f.precision + f.highest
    ensures Representable(f, Pow(d) as real)
  {
    hide Pow, Representable;
    PowDoubles(f.precision);
    if d <= f.highest {
      IntegerForm(f, Pow(d), 1, d);
    } else {
      PowMonotone(d - f.highest, f.precision - 1);
      PowSum(d - f.highest, f.highest);
      IntegerForm(f, Pow(d), Pow(d - f.highest), f.highest);
    }
  }

  /** The smallest signed integer is a power of two: it must not be beyond the largest float. */
  lemma MinExactIff(f: Format, t: IntType)
    requires f.Valid() && t.Valid()
    ensures FromInt(f, t.Min()) == t.Min() <==> (!t.signed || t.Digits() < f.precision + f.highest)
  {
    var d, n := t.Digits(), t.Min();
    ExactIff(f, n);
    hide FromInt;
    if !t.signed {
      assert HasForm(f, 0.0, 0, 0);
    } else if d < f.precision + f.highest {
      PowerRepresentable(f, d);
      Mirror(f, Pow(d) as real);
    } else {
      hide Pow;
      if Representable(f, n as real) {
        var m, e :| HasForm(f, n as real, m, e);
        BelowPow(f, n as real, m, e, d);
      }
    }
  }

  /** The lowering is the conversion on every input exactly when the format holds both bounds. */
  lemma LoweringExactIff(f: Format, t: IntType)
    requires f.Valid() && t.Valid()
    ensures (forall x :: InFormat(f, x) ==> Lowered(f, t, x) == Some(Saturated(t, x)))
            <==> (t.Digits() <= f.precision && (!t.signed || t.Digits() < f.precision + f.highest))
  {
    MaxExactIff(f, t);
    MinExactIff(f, t);
    FromIntNearest(f, t.Max());
    FromIntNearest(f, t.Min());
    var top, bottom := Finite(FromInt(f, t.Max()) as real), Finite(FromInt(f, t.Min()) as real);
    assert InFormat(f, top) && InFormat(f, bottom);
    hide FromInt, Representable, Lowered, Saturated;
    forall x | InFormat(f, x) ensures Lowered(f, t, x) == Some(Saturated(t, x)) <==> !AtRoundedBound(f, t, x) {
      LoweringSaturates(f, t, x);
    }
  }

  const HALF := Format(11, -24, 5)
  const SINGLE := Format(24, -149, 104)
  const DOUBLE := Format(53, -1074, 971)

  lemma PowValues()
    ensures Pow(0) == 1 && Pow(1) == 2 && Pow(2) == 4 && Pow(3) == 8 && Pow(4) == 16 && Pow(5) == 32 && Pow(6) == 64 && Pow(7) == 128
    ensures Pow(11) == 2048 && Pow(24) == 16777216 && Pow(31) == 2147483648
  {
    PowSum(4, 7);
    PowSum(12, 12);
    PowSum(5, 7);
    PowSum(24, 7);
  }

  lemma Int32Bounds()
    ensures IntType(true, 32).Max() == 2147483647 && IntType(true, 32).Min() == -2147483648
  {
    PowValues();
  }

  predicate Fits(t: IntType, n: int) requires t.Valid() { t.Min() <= n <= t.Max() }

  /** What is asked for, of a number: toward zero, the last integer of the type that does not pass it; of the others, zero and the bounds. */
  lemma SaturatedIs(t: IntType, r: real)
    requires t.Valid()
    ensures var v := Saturated(t, Finite(r));
            && Fits(t, v)
            && (r >= 0.0 ==> v as real <= r && forall n :: Fits(t, n) && n as real <= r ==> n <= v)
            && (r <= 0.0 ==> r <= v as real && forall n :: Fits(t, n) && r <= n as real ==> v <= n)
    ensures Saturated(t, NaN) == 0 && Saturated(t, PosInf) == t.Max() && Saturated(t, NegInf) == t.Min()
  {
    TruncateBetween(r);
    assert t.Min() <= 0 <= t.Max();
    hide IntType.Min, IntType.Max, Truncate;
  }

  /** What `as i32` is to yield. */
  function AsInt32(x: Fp): int {
    match x
    case NaN => 0
    case PosInf => 2147483647
    case NegInf => -2147483648
    case Finite(r) =>
      if r >= 2147483647.0 then 2147483647 else if r <= -2147483648.0 then -2147483648
      else if r >= 0.0 then r.Floor else -(-r).Floor
  }

  lemma SaturatedInt32(x: Fp)
    ensures Saturated(IntType(true, 32), x) == AsInt32(x)
  {
    Int32Bounds();
    hide IntType.Min, IntType.Max;
  }

  /** The cast rustc emits for `f64 as i32` is exact. */
  lemma DoubleToInt32(x: Fp)
    requires InFormat(DOUBLE, x)
    ensures Lowered(DOUBLE, IntType(true, 32), x) == Some(AsInt32(x))
  {
    hide Lowered, Saturated, InFormat, AsInt32;
    LoweringExactIff(DOUBLE, IntType(true, 32));
    SaturatedInt32(x);
  }

  /** The largest single-precision float below 2^31, and what becomes of it in `f32 as i32`. */
  lemma SingleToInt32Fails()
    ensures InFormat(SINGLE, Finite(2147483520.0))
    ensures Saturated(IntType(true, 32), Finite(2147483520.0)) == 2147483520
    ensures Lowered(SINGLE, IntType(true, 32), Finite(2147483520.0)) == Some(2147483647)
  {
    PowValues();
    Int32Bounds();
    SingleBound();
    FromIntNearest(SINGLE, 2147483647);
    hide FromInt, IntType.Min, IntType.Max, Pow;
    FromIntNearest(SINGLE, -2147483648);
  }

  lemma SingleBound()
    ensures FromInt(SINGLE, 2147483647) == 2147483520
  {
    PowValues();
    hide Pow;
    var n := 2147483647;
    assert RoundDown(SINGLE, n, 7) == 2147483520;
    assert RoundDown(SINGLE, n, 4) == RoundDown(SINGLE, n, 5) == RoundDown(SINGLE, n, 6) == RoundDown(SINGLE, n, 7);
    assert RoundDown(SINGLE, n, 0) == RoundDown(SINGLE, n, 1) == RoundDown(SINGLE, n, 2) == RoundDown(SINGLE, n, 3) == RoundDown(SINGLE, n, 4);
  }

  /** Double precision holds no bound of `i64`: at the largest double below 2^63 the cast is wrong. */
  lemma DoubleToInt64Fails()
    ensures InFormat(DOUBLE, Finite(9223372036854774784.0))
    ensures Saturated(IntType(true, 64), Finite(9223372036854774784.0)) == 9223372036854774784
    ensures Lowered(DOUBLE, IntType(true, 64), Finite(9223372036854774784.0)) == Some(9223372036854775807)
  {
    MorePowValues();
    assert IntType(true, 64).Max() == 9223372036854775807 && IntType(true, 64).Min() == -9223372036854775808;
    DoubleBound();
    FromIntNearest(DOUBLE, 9223372036854775807);
    hide FromInt, IntType.Min, IntType.Max, Pow;
    FromIntNearest(DOUBLE, -9223372036854775808);
  }

  lemma MorePowValues()
    ensures Pow(8) == 256 && Pow(9) == 512 && Pow(10) == 1024 && Pow(53) == 9007199254740992 && Pow(63) == 9223372036854775808
  {
    PowValues();
    PowSum(24, 24);
    PowSum(5, 48);
    PowSum(53, 10);
  }

  lemma DoubleBound()
    ensures FromInt(DOUBLE, 9223372036854775807) == 9223372036854774784
  {
    PowValues();
    MorePowValues();
    hide Pow;
    var n := 9223372036854775807;
    assert RoundDown(DOUBLE, n, 10) == 9223372036854774784;
    assert RoundDown(DOUBLE, n, 7) == RoundDown(DOUBLE, n, 8) == RoundDown(DOUBLE, n, 9) == RoundDown(DOUBLE, n, 10);
    assert RoundDown(DOUBLE, n, 4) == RoundDown(DOUBLE, n, 5) == RoundDown(DOUBLE, n, 6) == RoundDown(DOUBLE, n, 7);
    assert RoundDown(DOUBLE, n, 0) == RoundDown(DOUBLE, n, 1) == RoundDown(DOUBLE, n, 2) == RoundDown(DOUBLE, n, 3) == RoundDown(DOUBLE, n, 4);
  }

  /** Which powers of two a format holds. */
  lemma PowersHeld(f: Format, d: nat)
    requires f.Valid()
    ensures Representable(f, Pow(d) as real) <==> d < f.precision + f.highest
  {
    hide Pow;
    if d < f.precision + f.highest {
      PowerRepresentable(f, d);
    } else if Representable(f, Pow(d) as real) {
      var m, e :| HasForm(f, Pow(d) as real, m, e);
      BelowPow(f, Pow(d) as real, m, e, d);
    }
  }

  /** The three formats range as far as the standard's. */
  lemma StandardFormats(d: nat)
    ensures Representable(HALF, Pow(d) as real) <==> d <= 15
    ensures Representable(SINGLE, Pow(d) as real) <==> d <= 127
    ensures Representable(DOUBLE, Pow(d) as real) <==> d <= 1023
  {
    hide Pow, Representable;
    PowersHeld(HALF, d);
    PowersHeld(SINGLE, d);
    PowersHeld(DOUBLE, d);
  }

  /** Half precision ends far inside the range of `i32`: its smallest number becomes the smallest integer. */
  lemma HalfToInt32Fails()
    ensures InFormat(HALF, Finite(-65504.0))
    ensures Saturated(IntType(true, 32), Finite(-65504.0)) == -65504
    ensures Lowered(HALF, IntType(true, 32), Finite(-65504.0)) == Some(-2147483648)
  {
    Int32Bounds();
    HalfBound();
    FromIntNearest(HALF, -2147483648);
    hide FromInt, IntType.Min, IntType.Max, Pow;
  }

  lemma HalfBound()
    ensures FromInt(HALF, -2147483648) == -65504
  {
    PowValues();
    hide Pow;
    var n := 2147483648;
    assert RoundDown(HALF, n, 5) == 65504;
    assert RoundDown(HALF, n, 3) == RoundDown(HALF, n, 4) == RoundDown(HALF, n, 5);
    assert RoundDown(HALF, n, 0) == RoundDown(HALF, n, 1) == RoundDown(HALF, n, 2) == RoundDown(HALF, n, 3);
  }
}
