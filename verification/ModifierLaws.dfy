/** Aggregation on whole numbers, and what the order of multipliers can change. */
module ModifierLaws {
  import opened Machine
  import opened FixedPoints
  import opened Modifiers

  // ---------------------------------------------------------------- aggregation at scale zero

  function Product(xs: seq<int>): int {
    if xs == [] then 1 else xs[0] * Product(xs[1..])
  }

  lemma MulAtScaleZero(acc: FixedPoint, v: FixedPoint)
    requires acc.scale == 0 && Mul(acc, v).Ok?
    ensures Mul(acc, v).value.scale == 0 && Mul(acc, v).value.raw == acc.raw * v.raw
  {
    assert CheckedPow64(0) == Some(1) by { assert Pow10(0) == 1; }
  }

  /** A Mul phase on a whole number multiplies by the rounded multipliers with no rounding of its own. */
  lemma {:induction false} MulPhaseAtScaleZero(mods: seq<Modifier>, acc: FixedPoint)
    requires acc.scale == 0 && Fold(mods, acc).Ok?
    requires forall m :: m in mods ==> m.op == OpMul
    ensures forall m :: m in mods ==> Rescale(m.value, 0).Ok?
    ensures Fold(mods, acc).value.scale == 0 && Fold(mods, acc).value.raw == acc.raw * Product(RescaledRaws(mods, 0))
  {
    FoldKeepsScale(mods, acc);
    hide Rescale, Mul;
    if mods != [] {
      var v := Rescale(mods[0].value, 0).value;
      assert Apply(mods[0], acc) == Mul(acc, v);
      MulAtScaleZero(acc, v);
      MulPhaseAtScaleZero(mods[1..], Apply(mods[0], acc).value);
      MulAssoc(acc.raw, v.raw, Product(RescaledRaws(mods[1..], 0)));
    }
  }

  /** Without an override, aggregation on a whole number is exactly the sum of the base and the rounded additions, times
      the product of the rounded multipliers. */
  lemma WholeNumberAggregate(mods: seq<Modifier>, n: i64)
    requires Aggregate(mods, FixedPoint(n, 0)).Ok? && OfKind(mods, OpOverride) == []
    ensures forall op, m :: m in OfKind(mods, op) ==> Rescale(m.value, 0).Ok?
    ensures
      var sum := n + Sum(RescaledRaws(OfKind(mods, OpAdd), 0));
      var product := Product(RescaledRaws(OfKind(mods, OpMul), 0));
      FitsI64(sum * product) && Aggregate(mods, FixedPoint(n, 0)) == Ok(FixedPoint(sum * product, 0))
  {
    hide ExactProduct, ErrorBound, AbsReal, MulRatios, Rescale, Product, Sum, RescaledRaws;
    var base := FixedPoint(n, 0);
    AggregateError(mods, base);
    OfKindMembers(mods, OpAdd);
    OfKindMembers(mods, OpMul);
    AddPhaseExact(OfKind(mods, OpAdd), base);
    MulPhaseAtScaleZero(OfKind(mods, OpMul), Fold(OfKind(mods, OpAdd), base).value);
    hide Fold, OfKind;
  }

  /** A number is its own rounding exactly if it is whole. */
  lemma RoundsToItselfIff(a: FixedPoint)
    requires Rescale(a, 0).Ok?
    ensures Pow10(a.scale) > 0
    ensures Rescale(a, 0).value.raw * Pow10(a.scale) == a.raw <==> a.raw % Pow10(a.scale) == 0
  {
    var f := Pow10(a.scale);
    Pow10Positive(a.scale);
    if a.scale == 0 {
      assert f == 1;
      return;
    }
    RescaleDownCorrect(a, 0);
    var q := Rescale(a, 0).value.raw;
    hide Rescale, Pow10;
    if a.raw % f == 0 {
      QuotientTimes(a.raw, f);
      assert IsHalfEven(a.raw, f, a.raw / f);
      HalfEvenUnique(a.raw, f, q, a.raw / f);
    } else if q * f == a.raw {
      MultipleDivides(q, f);
    }
  }

  lemma QuotientTimes(x: int, f: int)
    requires f > 0 && x % f == 0
    ensures (x / f) * f == x
  {
  }

  lemma MultipleDivides(q: int, f: int)
    requires f > 0
    ensures (q * f) % f == 0
  {
    var d, r := (q * f) / f, (q * f) % f;
    Distribute(q, -d, f);
    assert (q - d) * f == r by { QuotientAndRemainder(q * f, f); }
    if q - d > 0 {
      MulOrder(1, q - d, f);
    } else if q - d < 0 {
      MulOrder(q - d, -1, f);
    }
  }

  lemma QuotientAndRemainder(x: int, f: int)
    requires f > 0
    ensures x == (x / f) * f + x % f && 0 <= x % f < f
    ensures x - (x / f) * f == x + -(x / f) * f
  {
  }

  /** One multiplier acts on a whole number at its own value exactly if the number is zero or the multiplier is
      whole. */
  lemma MultiplierActsIff(n: i64, m: Modifier)
    requires m.op == OpMul && Aggregate([m], FixedPoint(n, 0)).Ok?
    ensures Pow10(m.value.scale) > 0
    ensures Aggregate([m], FixedPoint(n, 0)).value.raw * Pow10(m.value.scale) == n * m.value.raw <==>
      n == 0 || m.value.raw % Pow10(m.value.scale) == 0
  {
    OneMultiplier(n, m);
    RoundsToItselfIff(m.value);
    var q, f := Rescale(m.value, 0).value.raw, Pow10(m.value.scale);
    hide Rescale, Pow10, Aggregate;
    MulAssoc(n, q, f);
    SameFactor(n, q * f, m.value.raw);
  }

  lemma SameFactor(n: int, x: int, y: int)
    ensures n * x == n * y <==> n == 0 || x == y
  {
    if n > 0 {
      MulCancel(x, y, n);
    } else if n < 0 {
      MulCancel(x, y, -n);
      assert x * -n == -(n * x) && y * -n == -(n * y);
    }
  }

  lemma OneModifier(m: Modifier, base: FixedPoint)
    requires m.op == OpMul
    ensures Aggregate([m], base) == Apply(m, base)
  {
    assert [m][1..] == [] && forall op :: OfKind([], op) == [];
    assert forall op :: OfKind([m], op) == if op == OpMul then [m] else [];
    hide Apply;
    if Apply(m, base).Ok? {
      assert Fold([m][1..], Apply(m, base).value) == Apply(m, base);
    }
    assert Fold([m], base) == Apply(m, base);
  }

  lemma OneMultiplier(n: i64, m: Modifier)
    requires m.op == OpMul && Aggregate([m], FixedPoint(n, 0)).Ok?
    ensures Rescale(m.value, 0).Ok?
    ensures Aggregate([m], FixedPoint(n, 0)).value.raw == n * Rescale(m.value, 0).value.raw
  {
    OneModifier(m, FixedPoint(n, 0));
    hide Aggregate, Rescale, Mul;
    MulAtScaleZero(FixedPoint(n, 0), Rescale(m.value, 0).value);
  }

  /** A multiplier of one and a half doubles a whole number. */
  lemma OneAndAHalfDoubles(n: i64)
    requires FitsI64(2 * n)
    ensures Aggregate([Modifier("t", "c", OpMul, FixedPoint(15, 1))], FixedPoint(n, 0)) == Ok(FixedPoint(2 * n, 0))
  {
    var m := Modifier("t", "c", OpMul, FixedPoint(15, 1));
    OneModifier(m, FixedPoint(n, 0));
    hide Aggregate;
    assert Pow10(1) == 10 && Pow10(0) == 1;
    assert Rescale(FixedPoint(15, 1), 0) == Ok(FixedPoint(2, 0));
    hide Rescale;
    assert Mul(FixedPoint(n, 0), FixedPoint(2, 0)) == Ok(FixedPoint(2 * n, 0));
  }

  // ---------------------------------------------------------------- orders of multipliers

  /** Two multipliers commute if each is exact as the first of the two. */
  lemma ExactMultipliersCommute(x: Modifier, y: Modifier, base: FixedPoint)
    requires x.op == OpMul && y.op == OpMul && Apply(x, base).Ok? && Apply(y, base).Ok?
    requires Pow10(base.scale) > 0
    requires (base.raw * Rescale(x.value, base.scale).value.raw) % Pow10(base.scale) == 0
    requires (base.raw * Rescale(y.value, base.scale).value.raw) % Pow10(base.scale) == 0
    ensures Aggregate([x, y], base) == Aggregate([y, x], base)
  {
    var vx, vy := Rescale(x.value, base.scale).value, Rescale(y.value, base.scale).value;
    var ax, ay := Apply(x, base).value, Apply(y, base).value;
    PairOfMuls(x, y, base);
    PairOfMuls(y, x, base);
    ExactStep(base, vx);
    ExactStep(base, vy);
    var f := Pow10(base.scale);
    assert vx.scale == base.scale && vy.scale == base.scale;
    MulByProduct(ax, vy, ay, vx);
    hide Rescale, Mul, Aggregate, Pow10;
    MulSwap(ax.raw, vy.raw, f);
    MulSwap(ay.raw, vx.raw, f);
    MulSwap(base.raw, vx.raw, vy.raw);
    MulCancel(ax.raw * vy.raw, ay.raw * vx.raw, f);
  }

  lemma ExactStep(base: FixedPoint, v: FixedPoint)
    requires Mul(base, v).Ok? && Pow10(base.scale) > 0 && (base.raw * v.raw) % Pow10(base.scale) == 0
    ensures Mul(base, v).value.raw * Pow10(base.scale) == base.raw * v.raw && Mul(base, v).value.scale == base.scale
  {
    MulRaw(base, v);
    ExactQuotient(base.raw * v.raw, Pow10(base.scale));
    hide Pow10, TruncDiv;
  }

  lemma ExactQuotient(x: int, f: int)
    requires f > 0 && x % f == 0
    ensures TruncDiv(x, f) * f == x
  {
    QuotientTimes(x, f);
    if x < 0 {
      NegatedMultiple(x, f);
      QuotientTimes(-x, f);
    }
  }

  lemma NegatedMultiple(x: int, f: int)
    requires f > 0 && x % f == 0
    ensures -x % f == 0
  {
    QuotientTimes(x, f);
    MultipleDivides(-(x / f), f);
    assert -(x / f) * f == -x;
  }

  /** A product depends on its factors only through their integer product. */
  lemma MulByProduct(a: FixedPoint, v: FixedPoint, b: FixedPoint, w: FixedPoint)
    requires a.scale == v.scale == b.scale == w.scale
    ensures a.raw * v.raw == b.raw * w.raw ==> Mul(a, v) == Mul(b, w)
  {
    hide Pow10, TruncDiv;
  }

  lemma TimesSwap(x: real, a: real, b: real)
    ensures Times(Times(x, a), b) == Times(Times(x, b), a)
  {
  }

  /** A factor may move to the front of an exact product. */
  lemma {:induction false} FactorMovesFirst(acc: real, before: seq<real>, x: real, after: seq<real>)
    ensures ExactProduct(acc, before + [x] + after) == ExactProduct(Times(acc, x), before + after)
    decreases |before|
  {
    if before == [] {
      assert before + [x] + after == [x] + after && before + after == after;
    } else {
      var b, rest := before[0], before[1..];
      assert (before + [x] + after)[1..] == rest + [x] + after && (before + after)[1..] == rest + after;
      TimesSwap(acc, b, x);
      hide Times;
      FactorMovesFirst(Times(acc, b), rest, x, after);
    }
  }

  lemma {:induction false} RawsConcat(xs: seq<Modifier>, ys: seq<Modifier>, scale: u32)
    requires Pow10(scale) > 0 && forall m :: m in xs + ys ==> Rescale(m.value, scale).Ok?
    ensures (forall m :: m in xs ==> Rescale(m.value, scale).Ok?) &&
      (forall m :: m in ys ==> Rescale(m.value, scale).Ok?)
    ensures MulRatios(xs + ys, scale) == MulRatios(xs, scale) + MulRatios(ys, scale)
  {
    hide Rescale, Pow10;
    assert forall m :: m in xs ==> m in xs + ys;
    assert forall m :: m in ys ==> m in xs + ys;
    if xs == [] {
      assert xs + ys == ys;
    } else {
      hide MulRatios;
      assert (xs + ys)[1..] == xs[1..] + ys && xs[0] == (xs + ys)[0];
      RawsConcat(xs[1..], ys, scale);
      MulRatiosHead(xs + ys, scale);
      MulRatiosHead(xs, scale);
    }
  }

  lemma FirstElsewhere(xs: seq<Modifier>, ys: seq<Modifier>) returns (i: nat)
    requires multiset(xs) == multiset(ys) && xs != []
    ensures i < |ys| && ys == ys[..i] + [xs[0]] + ys[i + 1..]
    ensures multiset(xs[1..]) == multiset(ys[..i] + ys[i + 1..])
  {
    WithoutOne(xs, 0);
    assert xs[..0] + xs[1..] == xs[1..];
    assert xs[0] in multiset(ys);
    i :| 0 <= i < |ys| && ys[i] == xs[0];
    WithoutOne(ys, i);
  }

  /** The exact product does not see the order of the multipliers. */
  lemma {:induction false} ExactProductIgnoresOrder(acc: real, xs: seq<Modifier>, ys: seq<Modifier>, scale: u32)
    requires multiset(xs) == multiset(ys) && Pow10(scale) > 0
    requires (forall m :: m in xs ==> Rescale(m.value, scale).Ok?) &&
      (forall m :: m in ys ==> Rescale(m.value, scale).Ok?)
    ensures ExactProduct(acc, MulRatios(xs, scale)) == ExactProduct(acc, MulRatios(ys, scale))
    decreases |xs|
  {
    hide Rescale, Pow10, Times, ExactProduct, MulRatios;
    if xs == [] {
      assert |multiset(ys)| == 0;
      return;
    }
    var i := FirstElsewhere(xs, ys);
    var before, after := ys[..i], ys[i + 1..];
    assert forall m :: m in before + after ==> m in ys;
    RawsConcat(before + [xs[0]], after, scale);
    RawsConcat(before, [xs[0]], scale);
    RawsConcat(before, after, scale);
    MulRatiosHead(xs, scale);
    OneRatio(xs[0], scale);
    var r := Rescale(xs[0].value, scale).value.raw as real / Pow10(scale) as real;
    FactorMovesFirst(acc, MulRatios(before, scale), r, MulRatios(after, scale));
    FactorMovesFirst(acc, [], r, MulRatios(xs[1..], scale));
    assert [] + [r] + MulRatios(xs[1..], scale) == [r] + MulRatios(xs[1..], scale);
    assert [] + MulRatios(xs[1..], scale) == MulRatios(xs[1..], scale);
    ExactProductIgnoresOrder(Times(acc, r), xs[1..], before + after, scale);
  }

  lemma OneRatio(m: Modifier, scale: u32)
    requires Pow10(scale) > 0 && Rescale(m.value, scale).Ok?
    ensures MulRatios([m], scale) == [Rescale(m.value, scale).value.raw as real / Pow10(scale) as real]
  {
    hide Rescale, Pow10;
    assert [m][1..] == [];
    assert MulRatios([], scale) == [];
    MulRatiosHead([m], scale);
  }

  /** Two orders of the same multipliers end at most the sum of their error bounds apart. */
  lemma OrdersDifferBy(xs: seq<Modifier>, ys: seq<Modifier>, acc: FixedPoint)
    requires multiset(xs) == multiset(ys) && forall m :: m in xs + ys ==> m.op == OpMul
    requires Fold(xs, acc).Ok? && Fold(ys, acc).Ok?
    ensures Pow10(acc.scale) > 0
    ensures (forall m :: m in xs + ys ==> Rescale(m.value, acc.scale).Ok?) && (forall m :: m in xs ==> m in xs + ys)
    ensures forall m :: m in ys ==> m in xs + ys
    ensures AbsReal(Fold(xs, acc).value.raw as real - Fold(ys, acc).value.raw as real) <=
      ErrorBound(MulRatios(xs, acc.scale)) + ErrorBound(MulRatios(ys, acc.scale))
  {
    assert forall m :: m in xs ==> m in xs + ys;
    assert forall m :: m in ys ==> m in xs + ys;
    Pow10Positive(acc.scale);
    FoldKeepsScale(xs, acc);
    FoldKeepsScale(ys, acc);
    MulPhaseError(xs, acc);
    MulPhaseError(ys, acc);
    ExactProductIgnoresOrder(acc.raw as real, xs, ys, acc.scale);
    var exact := ExactProduct(acc.raw as real, MulRatios(xs, acc.scale));
    hide Fold, Rescale, Pow10, ExactProduct, ErrorBound, MulRatios;
    Triangle(Fold(xs, acc).value.raw as real, exact, Fold(ys, acc).value.raw as real);
  }
}
