/** Decimal fixed-point numbers: raw / 10^scale, with checked i64 and i128 arithmetic. */
module FixedPoints {
  import opened Machine

  datatype FixedPoint = FixedPoint(raw: i64, scale: u32)

  datatype CoreError =
    | ArithmeticOverflow
    | DivisionByZero
    | InvalidFixedPointScale(expected: u32, got: u32)

  type CoreResult = Result<FixedPoint, CoreError>

  // ---------------------------------------------------------------- checked primitives

  function CheckedPow64(n: nat): Option<i64> {
    if n <= 18 then Pow10Values(); Pow10Monotone(n, 18); Pow10Positive(n); Some(Pow10(n)) else None
  }

  function CheckedPow128(n: nat): Option<int> {
    if n <= 38 then Some(Pow10(n)) else None
  }

  function Checked64(x: int): Option<i64> {
    if FitsI64(x) then Some(x) else None
  }

  function Checked128(x: int): Option<int> {
    if FitsI128(x) then Some(x) else None
  }

  /** The cut-offs written into the two functions above are exactly where the powers stop fitting. */
  lemma PowerCutoffs(n: nat)
    ensures CheckedPow64(n).Some? <==> FitsI64(Pow10(n))
    ensures CheckedPow128(n).Some? <==> FitsI128(Pow10(n))
  {
    Pow10Values();
    Pow10Positive(n);
    if n <= 18 { Pow10Monotone(n, 18); } else { Pow10Monotone(19, n); }
    if n <= 38 { Pow10Monotone(n, 38); } else { Pow10Monotone(39, n); }
  }

  // ---------------------------------------------------------------- rescaling

  function Lift(r: Option<i64>, scale: u32): CoreResult {
    match r
    case Some(raw) => Ok(FixedPoint(raw, scale))
    case None => Err(ArithmeticOverflow)
  }

  function RescaleDownRaw(raw: i64, factor: i64): Option<i64>
    requires factor > 0
  {
    var quotient := TruncDiv(raw, factor);
    var remainder := Abs(TruncRem(raw, factor));
    var needsRound := remainder * 2 > factor || (remainder * 2 == factor && TruncRem(quotient, 2) != 0);
    if needsRound then Checked64(if raw >= 0 then quotient + 1 else quotient - 1)
    else Checked64(quotient)
  }

  function Rescale(a: FixedPoint, newScale: u32): CoreResult {
    if newScale == a.scale then
      Ok(a)
    else if newScale > a.scale then
      match CheckedPow64(newScale - a.scale)
      case None => Err(ArithmeticOverflow)
      case Some(factor) => Lift(Checked64(a.raw * factor), newScale)
    else
      match CheckedPow64(a.scale - newScale)
      case None => Err(ArithmeticOverflow)
      case Some(factor) =>
        Pow10Positive(a.scale - newScale);
        Lift(RescaleDownRaw(a.raw, factor), newScale)
  }

  /** q is raw / factor rounded to the nearest integer, a tie going to the even neighbour. */
  predicate IsHalfEven(raw: int, factor: int, q: int) {
    NearestMultiple(raw, factor, q * factor, q)
  }

  /** The same, for a product q * factor that has a name of its own. */
  predicate NearestMultiple(raw: int, factor: int, product: int, q: int) {
    2 * Abs(raw - product) < factor || (2 * Abs(raw - product) == factor && q % 2 == 0)
  }

  lemma MultiplesApart(p: int, q: int, factor: int)
    requires factor > 0
    ensures p >= q + 2 ==> p * factor >= q * factor + 2 * factor
    ensures p == q + 1 ==> p * factor == q * factor + factor
  {
    Distribute(q, 2, factor);
    Distribute(q, 1, factor);
    if p >= q + 2 { MulOrder(q + 2, p, factor); }
  }

  lemma NearestMonotone(x: int, y: int, factor: int, p: int, pf: int, q: int, qf: int)
    requires factor > 0 && x <= y
    requires NearestMultiple(x, factor, pf, p) && NearestMultiple(y, factor, qf, q)
    requires p >= q + 2 ==> pf >= qf + 2 * factor
    requires p == q + 1 ==> pf == qf + factor
    ensures p <= q
  {
  }

  lemma HalfEvenMonotone(x: int, y: int, factor: int, p: int, q: int)
    requires factor > 0 && x <= y && IsHalfEven(x, factor, p) && IsHalfEven(y, factor, q)
    ensures p <= q
  {
    MultiplesApart(p, q, factor);
    NearestMonotone(x, y, factor, p, p * factor, q, q * factor);
  }

  lemma HalfEvenUnique(raw: int, factor: int, p: int, q: int)
    requires factor > 0 && IsHalfEven(raw, factor, p) && IsHalfEven(raw, factor, q)
    ensures p == q
  {
    HalfEvenMonotone(raw, raw, factor, p, q);
    HalfEvenMonotone(raw, raw, factor, q, p);
  }

  lemma RescaleDownRawIsHalfEven(raw: i64, factor: i64)
    requires factor > 1
    ensures RescaleDownRaw(raw, factor).Some?
    ensures IsHalfEven(raw, factor, RescaleDownRaw(raw, factor).value)
  {
    var q, r := TruncDiv(raw, factor), TruncRem(raw, factor);
    TruncDivBounds(raw, factor);
    QuotientAtMostHalf(raw, factor);
    MultiplesApart(q + 1, q, factor);
    MultiplesApart(q, q - 1, factor);
    RoundingStep(raw, factor, q, factor * q, r);
  }

  lemma RoundingStep(raw: i64, factor: i64, q: int, qf: int, r: int)
    requires factor > 1 && raw == qf + r && Abs(r) < factor
    requires raw >= 0 ==> r >= 0
    requires raw <= 0 ==> r <= 0
    ensures 2 * Abs(r) > factor || (2 * Abs(r) == factor && TruncRem(q, 2) != 0) ==>
      if raw >= 0 then NearestMultiple(raw, factor, qf + factor, q + 1)
      else NearestMultiple(raw, factor, qf - factor, q - 1)
    ensures !(2 * Abs(r) > factor || (2 * Abs(r) == factor && TruncRem(q, 2) != 0)) ==>
      NearestMultiple(raw, factor, qf, q)
  {
    assert TruncRem(q, 2) == 0 <==> q % 2 == 0;
  }

  lemma QuotientAtMostHalf(a: int, b: int)
    requires b > 1
    ensures 2 * Abs(TruncDiv(a, b)) <= Abs(a)
  {
    var q := Abs(a) / b;
    MulOrder(2, b, q);
    assert Abs(TruncDiv(a, b)) == q;
  }

  /** Downward rescaling is half-even rounding, and fails on exactly the gaps whose power overflows. */
  lemma RescaleDownCorrect(a: FixedPoint, newScale: u32)
    requires newScale < a.scale
    ensures Rescale(a, newScale).Ok? <==> a.scale - newScale <= 18
    ensures forall b :: Rescale(a, newScale) == Ok(b) ==>
      b.scale == newScale && IsHalfEven(a.raw, Pow10(a.scale - newScale), b.raw)
  {
    if a.scale - newScale <= 18 {
      Pow10Monotone(1, a.scale - newScale);
      assert Pow10(1) == 10;
      RescaleDownRawIsHalfEven(a.raw, CheckedPow64(a.scale - newScale).value);
    }
  }

  /** Widening the scale keeps the value exactly. A gap above 18 fails even where the product would fit. */
  lemma RescaleUpCorrect(a: FixedPoint, newScale: u32)
    requires newScale >= a.scale
    ensures Rescale(a, newScale).Ok? <==>
      newScale == a.scale || (newScale - a.scale <= 18 && FitsI64(a.raw * Pow10(newScale - a.scale)))
    ensures forall b :: Rescale(a, newScale) == Ok(b) ==> b.scale == newScale && Eq(a, b)
  {
    if newScale > a.scale && Rescale(a, newScale).Ok? {
      var b := Rescale(a, newScale).value;
      Pow10Sum(newScale - a.scale, a.scale);
      MulAssoc(a.raw, Pow10(newScale - a.scale), Pow10(a.scale));
      EqIsValueEquality(a, b);
    }
  }

  /** Rescaling keeps the order of two numbers of one scale, in both directions. */
  lemma RescaleMonotone(a: FixedPoint, b: FixedPoint, newScale: u32)
    requires a.scale == b.scale && a.raw <= b.raw
    requires Rescale(a, newScale).Ok? && Rescale(b, newScale).Ok?
    ensures Rescale(a, newScale).value.raw <= Rescale(b, newScale).value.raw
  {
    if newScale > a.scale {
      Pow10Positive(newScale - a.scale);
      MulOrder(a.raw, b.raw, Pow10(newScale - a.scale));
    } else if newScale < a.scale {
      RescaleDownMonotone(a, b, newScale);
    }
  }

  lemma RescaleDownMonotone(a: FixedPoint, b: FixedPoint, newScale: u32)
    requires a.scale == b.scale && a.raw <= b.raw && newScale < a.scale
    requires Rescale(a, newScale).Ok? && Rescale(b, newScale).Ok?
    ensures Rescale(a, newScale).value.raw <= Rescale(b, newScale).value.raw
  {
    var f := Pow10(a.scale - newScale);
    Pow10Positive(a.scale - newScale);
    var p, q := Rescale(a, newScale).value.raw, Rescale(b, newScale).value.raw;
    RescaleDownCorrect(a, newScale);
    RescaleDownCorrect(b, newScale);
    hide Rescale, IsHalfEven, Pow10;
    HalfEvenMonotone(a.raw, b.raw, f, p, q);
  }

  /** Widening the scale loses nothing: going back down returns the number that was widened. */
  lemma RescaleRoundTrip(a: FixedPoint, newScale: u32)
    requires newScale >= a.scale && Rescale(a, newScale).Ok?
    ensures Rescale(Rescale(a, newScale).value, a.scale) == Ok(a)
  {
    if newScale > a.scale {
      var b := Rescale(a, newScale).value;
      var f := Pow10(newScale - a.scale);
      RescaleDownCorrect(b, a.scale);
      Pow10Positive(newScale - a.scale);
      assert b.raw - a.raw * f == 0;
      HalfEvenUnique(b.raw, f, a.raw, Rescale(b, a.scale).value.raw);
    }
  }

  // ---------------------------------------------------------------- comparison

  function CmpNormalized(a: FixedPoint, b: FixedPoint): Option<Ordering> {
    if a.scale == b.scale then
      Some(CompareInt(a.raw, b.raw))
    else if a.scale < b.scale then
      match CheckedPow128(b.scale - a.scale)
      case Some(pow) =>
        (match Checked128(a.raw * pow)
         case Some(scaled) => Some(CompareInt(scaled, b.raw))
         case None => None)
      case None =>
        Some(if a.raw > 0 then Greater else if a.raw < 0 then Less else CompareInt(0, b.raw))
    else
      match CheckedPow128(a.scale - b.scale)
      case Some(pow) =>
        (match Checked128(b.raw * pow)
         case Some(scaled) => Some(CompareInt(a.raw, scaled))
         case None => None)
      case None =>
        Some(if b.raw > 0 then Less else if b.raw < 0 then Greater else CompareInt(a.raw, 0))
  }

  predicate Eq(a: FixedPoint, b: FixedPoint) {
    CmpNormalized(a, b) == Some(Equal)
  }

  function Cmp(a: FixedPoint, b: FixedPoint): Ordering {
    match CmpNormalized(a, b)
    case Some(o) => o
    case None => Equal
  }

  /** The order of the rationals raw / 10^scale, by cross-multiplication. */
  function ValueOrder(a: FixedPoint, b: FixedPoint): Ordering {
    CompareInt(a.raw * Pow10(b.scale), b.raw * Pow10(a.scale))
  }

  /** The i128 product that aligns the operand of smaller scale does not fit. */
  predicate AlignmentOverflows(a: FixedPoint, b: FixedPoint) {
    var lo := if a.scale < b.scale then a else b;
    var gap := Abs(a.scale - b.scale);
    gap <= 38 && !FitsI128(lo.raw * Pow10(gap))
  }

  function Flip(o: Ordering): Ordering {
    match o
    case Less => Greater
    case Equal => Equal
    case Greater => Less
  }

  lemma CmpAntisymmetric(a: FixedPoint, b: FixedPoint)
    ensures Cmp(b, a) == Flip(Cmp(a, b))
    ensures ValueOrder(b, a) == Flip(ValueOrder(a, b))
    ensures Eq(a, b) <==> Eq(b, a)
    ensures AlignmentOverflows(a, b) <==> AlignmentOverflows(b, a)
  {
  }

  /** With a's scale the smaller, the rational order is the order of a's aligned raw value and b's. */
  lemma ValueOrderAligned(a: FixedPoint, b: FixedPoint)
    requires a.scale <= b.scale
    ensures ValueOrder(a, b) == CompareInt(a.raw * Pow10(b.scale - a.scale), b.raw)
  {
    var c, g := Pow10(a.scale), Pow10(b.scale - a.scale);
    Pow10Sum(b.scale - a.scale, a.scale);
    Pow10Positive(a.scale);
    MulAssoc(a.raw, g, c);
    MulCancel(a.raw * g, b.raw, c);
    MulCancel(b.raw, a.raw * g, c);
  }

  /** A factor of at least 2^64 pushes any nonzero i64 beyond every other i64. */
  lemma LargeFactorDominates(a: i64, b: i64, factor: int)
    requires factor > U64_MAX
    ensures a > 0 ==> a * factor > b
    ensures a < 0 ==> a * factor < b
  {
    if a > 0 {
      MulOrder(1, a, factor);
    } else if a < 0 {
      MulOrder(a, -1, factor);
    }
  }

  lemma CmpNormalizedAligned(a: FixedPoint, b: FixedPoint)
    requires a.scale <= b.scale
    ensures CmpNormalized(a, b) ==
      if AlignmentOverflows(a, b) then None else Some(ValueOrder(a, b))
    ensures AlignmentOverflows(a, b) ==> ValueOrder(a, b) != Equal
  {
    ValueOrderAligned(a, b);
    var gap := b.scale - a.scale;
    if gap > 38 {
      Pow10Values();
      Pow10Monotone(39, gap);
      LargeFactorDominates(a.raw, b.raw, Pow10(gap));
    }
  }

  /** cmp_normalized is the rational order, except that it gives up on an alignment overflow. */
  lemma CmpNormalizedIsValueOrder(a: FixedPoint, b: FixedPoint)
    ensures CmpNormalized(a, b) ==
      if AlignmentOverflows(a, b) then None else Some(ValueOrder(a, b))
    ensures AlignmentOverflows(a, b) ==> ValueOrder(a, b) != Equal
  {
    if a.scale <= b.scale {
      CmpNormalizedAligned(a, b);
    } else {
      CmpNormalizedAligned(b, a);
      CmpAntisymmetric(a, b);
    }
  }

  /** Equality is equality of the rational values, for every raw and every scale. */
  lemma EqIsValueEquality(a: FixedPoint, b: FixedPoint)
    ensures Eq(a, b) <==> a.raw * Pow10(b.scale) == b.raw * Pow10(a.scale)
  {
    CmpNormalizedIsValueOrder(a, b);
  }

  /** Ord agrees with the rational order exactly when the alignment does not overflow. */
  lemma CmpIsValueOrderIff(a: FixedPoint, b: FixedPoint)
    ensures Cmp(a, b) == ValueOrder(a, b) <==> !AlignmentOverflows(a, b)
  {
    CmpNormalizedIsValueOrder(a, b);
  }

  /** Ord and PartialEq contradict one another exactly on an alignment overflow. */
  lemma CmpAgreesWithEqIff(a: FixedPoint, b: FixedPoint)
    ensures (Cmp(a, b) == Equal <==> Eq(a, b)) <==> !AlignmentOverflows(a, b)
  {
    CmpNormalizedIsValueOrder(a, b);
  }

  /** Only scale gaps from 20 to 38 can overflow. */
  lemma OverflowNeedsWideGap(a: FixedPoint, b: FixedPoint)
    ensures AlignmentOverflows(a, b) ==> 20 <= Abs(a.scale - b.scale) <= 38
  {
    var lo := if a.scale < b.scale then a else b;
    var gap := Abs(a.scale - b.scale);
    if gap <= 19 {
      Pow10Values();
      Pow10Monotone(gap, 19);
      Pow10Positive(gap);
      ProductBound(lo.raw, Pow10(gap), I64_MAX + 1, Pow10(19));
    }
  }

  lemma ProductBound(x: int, p: int, bound: int, q: int)
    requires Abs(x) <= bound && 0 <= p <= q
    ensures -(bound * q) <= x * p <= bound * q
  {
    MulOrder(-bound, x, p);
    MulOrder(x, bound, p);
    MulOrder(p, q, bound);
  }

  /** A pair that Ord calls equal although one value is 10^20 times the other. */
  lemma CmpOverflowWitness()
    ensures var a, b := FixedPoint(I64_MAX, 0), FixedPoint(1, 38);
      Cmp(a, b) == Equal && !Eq(a, b) && ValueOrder(a, b) == Greater
  {
    var a, b := FixedPoint(I64_MAX, 0), FixedPoint(1, 38);
    Pow10Values();
    assert !FitsI128(I64_MAX * Pow10(38));
    CmpNormalizedIsValueOrder(a, b);
    assert a.raw * Pow10(38) > 1;
  }

  lemma ValueOrderTransitive(a: FixedPoint, b: FixedPoint, c: FixedPoint)
    requires ValueOrder(a, b) != Greater && ValueOrder(b, c) != Greater
    ensures ValueOrder(a, c) != Greater
    ensures ValueOrder(a, c) == Equal ==> ValueOrder(a, b) == Equal && ValueOrder(b, c) == Equal
  {
    Pow10Positive(a.scale);
    Pow10Positive(b.scale);
    Pow10Positive(c.scale);
    FractionsTransitive(a.raw, Pow10(a.scale), b.raw, Pow10(b.scale), c.raw, Pow10(c.scale));
  }

  lemma FractionsTransitive(x: int, p: int, y: int, q: int, z: int, r: int)
    requires p > 0 && q > 0 && r > 0
    requires x * q <= y * p && y * r <= z * q
    ensures x * r <= z * p
    ensures x * r == z * p ==> x * q == y * p && y * r == z * q
  {
    MulOrder(x * q, y * p, r);
    MulOrder(y * r, z * q, p);
    MulSwap(x, q, r);
    MulSwap(y, p, r);
    MulSwap(z, q, p);
    MulCancel(z * p, x * r, q);
    MulCancel(x * q, y * p, r);
    MulCancel(y * r, z * q, p);
  }

  /** On scales 0 to 19 the order is total: total, antisymmetric up to eq, and transitive. */
  lemma CmpTotalOrder(a: FixedPoint, b: FixedPoint, c: FixedPoint)
    requires a.scale <= 19 && b.scale <= 19 && c.scale <= 19
    ensures Cmp(b, a) == Flip(Cmp(a, b))
    ensures Cmp(a, b) == Equal <==> Eq(a, b)
    ensures Cmp(a, b) != Greater && Cmp(b, c) != Greater ==>
      Cmp(a, c) != Greater && (Cmp(a, c) == Equal ==> Eq(a, b) && Eq(b, c))
  {
    OverflowNeedsWideGap(a, b);
    OverflowNeedsWideGap(b, c);
    OverflowNeedsWideGap(a, c);
    CmpNormalizedIsValueOrder(a, b);
    CmpNormalizedIsValueOrder(b, c);
    CmpNormalizedIsValueOrder(a, c);
    CmpAntisymmetric(a, b);
    if Cmp(a, b) != Greater && Cmp(b, c) != Greater {
      ValueOrderTransitive(a, b, c);
    }
  }

  // ---------------------------------------------------------------- hashing

  /** The (raw, scale) pair that is hashed. */
  function Canonical(raw: int, scale: nat): (int, nat)
    decreases scale
  {
    if raw != 0 && raw % 10 == 0 && scale > 0 then Canonical(raw / 10, scale - 1) else (raw, scale)
  }

  method CanonicalForm(a: FixedPoint) returns (raw: i64, scale: u32)
    ensures (raw, scale) == Canonical(a.raw, a.scale)
    ensures a.raw * Pow10(scale) == raw * Pow10(a.scale)
    ensures raw % 10 != 0 || raw == 0 || scale == 0
  {
    raw, scale := a.raw, a.scale;
    while raw != 0 && TruncRem(raw, 10) == 0 && scale > 0
      invariant Canonical(raw, scale) == Canonical(a.raw, a.scale)
      invariant 0 <= scale <= a.scale
      decreases scale
    {
      assert TruncDiv(raw, 10) == raw / 10 && raw % 10 == 0;
      raw := TruncDiv(raw, 10);
      scale := scale - 1;
    }
    assert TruncRem(raw, 10) == 0 <==> raw % 10 == 0;
    CanonicalValue(a);
    CanonicalMeaning(a.raw, a.scale);
  }

  lemma {:induction false} CanonicalMeaning(raw: int, scale: nat)
    ensures var (r, s) := Canonical(raw, scale);
      s <= scale && r * Pow10(scale - s) == raw && (r % 10 != 0 || r == 0 || s == 0)
    decreases scale
  {
    if raw != 0 && raw % 10 == 0 && scale > 0 {
      CanonicalMeaning(raw / 10, scale - 1);
      var (r, s) := Canonical(raw, scale);
      MulSwap(r, 10, Pow10(scale - 1 - s));
      MulAssoc(r, 10, Pow10(scale - 1 - s));
    }
  }

  lemma CanonicalValue(a: FixedPoint)
    ensures var (r, s) := Canonical(a.raw, a.scale); r * Pow10(a.scale) == a.raw * Pow10(s)
    ensures var (r, s) := Canonical(a.raw, a.scale); r == 0 <==> a.raw == 0
  {
    CanonicalMeaning(a.raw, a.scale);
    var (r, s) := Canonical(a.raw, a.scale);
    Pow10Sum(a.scale - s, s);
    MulAssoc(r, Pow10(a.scale - s), Pow10(s));
    Pow10Positive(a.scale - s);
    MulCancel(r, 0, Pow10(a.scale - s));
  }

  /** Two nonzero minimal pairs with one value are the same pair. */
  lemma MinimalPairUnique(r: int, s: nat, r': int, s': nat)
    requires s <= s' && r * Pow10(s') == r' * Pow10(s) && r' != 0
    requires r' % 10 != 0 || s' == 0
    ensures r == r' && s == s'
  {
    var g := Pow10(s' - s);
    Pow10Sum(s' - s, s);
    Pow10Positive(s);
    MulAssoc(r, g, Pow10(s));
    assert r * g == r' by { MulCancel(r * g, r', Pow10(s)); }
    if s < s' {
      MultipleOfTen(r, Pow10(s' - s - 1));
    }
  }

  lemma MultipleOfTen(r: int, h: int)
    ensures (r * (10 * h)) % 10 == 0
  {
    MulSwap(r, 10, h);
    MulAssoc(r, 10, h);
    assert r * (10 * h) == (r * h) * 10;
  }

  /** Hash agrees with Eq except between zeros of different scales. */
  lemma HashAgreesWithEqIff(a: FixedPoint, b: FixedPoint)
    ensures Canonical(a.raw, a.scale) == Canonical(b.raw, b.scale) ==> Eq(a, b)
    ensures (Eq(a, b) ==> Canonical(a.raw, a.scale) == Canonical(b.raw, b.scale)) <==>
      !(a.raw == 0 && b.raw == 0 && a.scale != b.scale)
  {
    var (r, s) := Canonical(a.raw, a.scale);
    var (r', s') := Canonical(b.raw, b.scale);
    assert Eq(a, b) <==> r * Pow10(s') == r' * Pow10(s) by { EqThroughCanonical(a, b); }
    if a.raw == 0 || b.raw == 0 {
      ZeroHashes(a, b);
    } else if Eq(a, b) {
      CanonicalValue(a);
      CanonicalValue(b);
      assert r' % 10 != 0 || s' == 0 by { CanonicalMeaning(b.raw, b.scale); }
      assert r % 10 != 0 || s == 0 by { CanonicalMeaning(a.raw, a.scale); }
      if s <= s' { MinimalPairUnique(r, s, r', s'); } else { MinimalPairUnique(r', s', r, s); }
    }
  }

  lemma ZeroHashes(a: FixedPoint, b: FixedPoint)
    requires a.raw == 0 || b.raw == 0
    ensures Eq(a, b) <==> a.raw == b.raw
    ensures Canonical(a.raw, a.scale) == Canonical(b.raw, b.scale) ==> a.raw == b.raw
  {
    EqIsValueEquality(a, b);
    CanonicalValue(a);
    CanonicalValue(b);
    Pow10Positive(a.scale);
    Pow10Positive(b.scale);
    MulCancel(a.raw, 0, Pow10(b.scale));
    MulCancel(b.raw, 0, Pow10(a.scale));
  }

  lemma EqThroughCanonical(a: FixedPoint, b: FixedPoint)
    ensures var (r, s) := Canonical(a.raw, a.scale); var (r', s') := Canonical(b.raw, b.scale);
      Eq(a, b) <==> r * Pow10(s') == r' * Pow10(s)
  {
    var (r, s) := Canonical(a.raw, a.scale);
    var (r', s') := Canonical(b.raw, b.scale);
    CanonicalValue(a);
    CanonicalValue(b);
    Pow10Positive(a.scale);
    Pow10Positive(b.scale);
    Pow10Positive(s);
    Pow10Positive(s');
    EqIsValueEquality(a, b);
    EqualFractions(a.raw, Pow10(a.scale), r, Pow10(s), b.raw, Pow10(b.scale), r', Pow10(s'));
  }

  /** Whether two fractions are equal does not change when each is replaced by an equal fraction. */
  lemma EqualFractions(x: int, p: int, r: int, q: int, x': int, p': int, r': int, q': int)
    requires p > 0 && q > 0 && p' > 0 && q' > 0
    requires r * p == x * q && r' * p' == x' * q'
    ensures x * p' == x' * p <==> r * q' == r' * q
  {
    if x * p' <= x' * p { FractionsTransitive(r, q, x, p, x', p'); FractionsTransitive(r, q, x', p', r', q'); }
    if x * p' >= x' * p { FractionsTransitive(x', p', x, p, r, q); FractionsTransitive(r', q', x', p', r, q); }
    if r * q' <= r' * q { FractionsTransitive(x, p, r, q, r', q'); FractionsTransitive(x, p, r', q', x', p'); }
    if r * q' >= r' * q { FractionsTransitive(r', q', r, q, x, p); FractionsTransitive(x', p', r', q', x, p); }
  }

  // ---------------------------------------------------------------- operators

  function Add(a: FixedPoint, b: FixedPoint): CoreResult {
    if a.scale != b.scale then Err(InvalidFixedPointScale(a.scale, b.scale))
    else Lift(Checked64(a.raw + b.raw), a.scale)
  }

  function Sub(a: FixedPoint, b: FixedPoint): CoreResult {
    if a.scale != b.scale then Err(InvalidFixedPointScale(a.scale, b.scale))
    else Lift(Checked64(a.raw - b.raw), a.scale)
  }

  function Mul(a: FixedPoint, b: FixedPoint): CoreResult {
    if a.scale != b.scale then Err(InvalidFixedPointScale(a.scale, b.scale))
    else
      match Checked64(a.raw * b.raw)
      case None => Err(ArithmeticOverflow)
      case Some(product) =>
        match CheckedPow64(a.scale)
        case None => Err(ArithmeticOverflow)
        case Some(factor) => Pow10Positive(a.scale); Lift(Checked64(TruncDiv(product, factor)), a.scale)
  }

  function Div(a: FixedPoint, b: FixedPoint): CoreResult {
    if a.scale != b.scale then Err(InvalidFixedPointScale(a.scale, b.scale))
    else if b.raw == 0 then Err(DivisionByZero)
    else
      match CheckedPow64(a.scale)
      case None => Err(ArithmeticOverflow)
      case Some(factor) =>
        match Checked64(a.raw * factor)
        case None => Err(ArithmeticOverflow)
        case Some(scaled) => Lift(Checked64(TruncDiv(scaled, b.raw)), a.scale)
  }
}
