/** Modifier registration and aggregation over fixed-point base values. */
module Modifiers {
  import opened Machine
  import opened FixedPoints

  datatype ModifierOp = OpAdd | OpMul | OpOverride

  datatype Modifier = Modifier(table: string, column: string, op: ModifierOp, value: FixedPoint)

  function Apply(m: Modifier, base: FixedPoint): CoreResult {
    match m.op
    case OpOverride => Ok(m.value)
    case OpAdd =>
      (match Rescale(m.value, base.scale)
       case Err(e) => Err(e)
       case Ok(v) => Add(base, v))
    case OpMul =>
      (match Rescale(m.value, base.scale)
       case Err(e) => Err(e)
       case Ok(v) => Mul(base, v))
  }

  /** Apply a list of modifiers from left to right, stopping at the first error. */
  function Fold(mods: seq<Modifier>, acc: FixedPoint): CoreResult {
    if mods == [] then Ok(acc)
    else
      match Apply(mods[0], acc)
      case Err(e) => Err(e)
      case Ok(next) => Fold(mods[1..], next)
  }

  /** The modifiers of one kind, in registration order. */
  function OfKind(mods: seq<Modifier>, op: ModifierOp): seq<Modifier> {
    if mods == [] then []
    else if mods[0].op == op then [mods[0]] + OfKind(mods[1..], op)
    else OfKind(mods[1..], op)
  }

  lemma {:induction false} OfKindMembers(mods: seq<Modifier>, op: ModifierOp)
    ensures forall m :: m in OfKind(mods, op) <==> m in mods && m.op == op
  {
    if mods != [] {
      OfKindMembers(mods[1..], op);
      assert mods == [mods[0]] + mods[1..];
    }
  }

  /** All additions, then all multiplications; the last override replaces the outcome. */
  function Aggregate(mods: seq<Modifier>, base: FixedPoint): CoreResult {
    match Fold(OfKind(mods, OpAdd), base)
    case Err(e) => Err(e)
    case Ok(afterAdd) =>
      match Fold(OfKind(mods, OpMul), afterAdd)
      case Err(e) => Err(e)
      case Ok(afterMul) =>
        var overrides := OfKind(mods, OpOverride);
        if overrides == [] then Ok(afterMul) else Apply(overrides[|overrides| - 1], afterMul)
  }

  // ---------------------------------------------------------------- the registry

  class ModifierRegistry {
    var entries: map<(string, string), seq<Modifier>>

    constructor ()
      ensures entries == map[]
    {
      entries := map[];
    }

    function ModifiersFor(table: string, column: string): seq<Modifier>
      reads this
    {
      if (table, column) in entries then entries[(table, column)] else []
    }

    method Register(m: Modifier)
      modifies this
      ensures forall t, c :: ModifiersFor(t, c) ==
                             (if (t, c) == (m.table, m.column) then old(ModifiersFor(t, c)) + [m]
                              else old(ModifiersFor(t, c)))
    {
      entries := entries[(m.table, m.column) := ModifiersFor(m.table, m.column) + [m]];
    }

    method ClearField(table: string, column: string)
      modifies this
      ensures forall t, c :: ModifiersFor(t, c) ==
                             (if (t, c) == (table, column) then [] else old(ModifiersFor(t, c)))
    {
      entries := entries - {(table, column)};
    }
  }

  // ---------------------------------------------------------------- the Add phase is exact

  /** The raw values the modifiers take at the base's scale. */
  function RescaledRaws(mods: seq<Modifier>, scale: u32): (raws: seq<int>)
    requires forall m :: m in mods ==> Rescale(m.value, scale).Ok?
    ensures |raws| == |mods|
  {
    if mods == [] then []
    else [Rescale(mods[0].value, scale).value.raw] + RescaledRaws(mods[1..], scale)
  }

  lemma {:induction false} FoldKeepsScale(mods: seq<Modifier>, acc: FixedPoint)
    requires forall m :: m in mods ==> m.op != OpOverride
    requires Fold(mods, acc).Ok?
    ensures Fold(mods, acc).value.scale == acc.scale
    ensures forall m :: m in mods ==> Rescale(m.value, acc.scale).Ok?
  {
    if mods != [] {
      FoldKeepsScale(mods[1..], Apply(mods[0], acc).value);
    }
  }

  /** A successful Add phase adds the rescaled values with no rounding of its own. */
  lemma {:induction false} AddPhaseExact(mods: seq<Modifier>, acc: FixedPoint)
    requires forall m :: m in mods ==> m.op == OpAdd
    requires Fold(mods, acc).Ok?
    ensures forall m :: m in mods ==> Rescale(m.value, acc.scale).Ok?
    ensures Fold(mods, acc).value.scale == acc.scale
    ensures Fold(mods, acc).value.raw == acc.raw + Sum(RescaledRaws(mods, acc.scale))
  {
    FoldKeepsScale(mods, acc);
    if mods != [] {
      AddPhaseExact(mods[1..], Apply(mods[0], acc).value);
    }
  }

  // ---------------------------------------------------------------- the Mul phase and its error

  /** The multipliers as rationals raw / factor. */
  function Ratios(raws: seq<int>, factor: int): (ratios: seq<real>)
    requires factor > 0
    ensures |ratios| == |raws|
  {
    if raws == [] then [] else [raws[0] as real / factor as real] + Ratios(raws[1..], factor)
  }

  function AbsReal(x: real): real {
    if x < 0.0 then -x else x
  }

  function Times(x: real, y: real): real {
    x * y
  }

  /** acc * r0 * r1 * ... as an exact rational. */
  function ExactProduct(acc: real, ratios: seq<real>): real
    decreases |ratios|
  {
    if ratios == [] then acc else ExactProduct(Times(acc, ratios[0]), ratios[1..])
  }

  /** |r0| * |r1| * ... */
  function MagnitudeProduct(ratios: seq<real>): real {
    if ratios == [] then 1.0 else Times(AbsReal(ratios[0]), MagnitudeProduct(ratios[1..]))
  }

  /** The sum over steps of the product of the later multipliers' magnitudes. */
  function ErrorBound(ratios: seq<real>): real {
    if ratios == [] then 0.0 else MagnitudeProduct(ratios[1..]) + ErrorBound(ratios[1..])
  }

  lemma {:induction false} MagnitudeNonNegative(ratios: seq<real>)
    ensures MagnitudeProduct(ratios) >= 0.0
  {
    if ratios != [] {
      MagnitudeNonNegative(ratios[1..]);
    }
  }

  lemma AbsOfProduct(x: real, y: real, c: real, rest: real)
    ensures Times(AbsReal(Times(x, c) - Times(y, c)), rest) == Times(AbsReal(x - y), Times(AbsReal(c), rest))
  {
    assert x * c - y * c == (x - y) * c;
    assert AbsReal((x - y) * c) == AbsReal(x - y) * AbsReal(c);
    RealAssoc(AbsReal(x - y), AbsReal(c), rest);
  }

  lemma RealAssoc(x: real, y: real, z: real)
    ensures (x * y) * z == x * (y * z)
  {
  }

  /** When the starting values differ by d, the exact products differ by d times the magnitudes. */
  lemma {:induction false} ExactProductSpread(x: real, y: real, ratios: seq<real>)
    ensures AbsReal(ExactProduct(x, ratios) - ExactProduct(y, ratios))
         == Times(AbsReal(x - y), MagnitudeProduct(ratios))
    decreases |ratios|
  {
    if ratios != [] {
      ExactProductSpread(Times(x, ratios[0]), Times(y, ratios[0]), ratios[1..]);
      AbsOfProduct(x, y, ratios[0], MagnitudeProduct(ratios[1..]));
    }
  }

  /** One checked multiplication is within less than one unit of the exact one. */
  lemma MulStepError(acc: FixedPoint, v: FixedPoint)
    requires Mul(acc, v).Ok? && Pow10(acc.scale) > 0
    ensures AbsReal(Mul(acc, v).value.raw as real
                  - Times(acc.raw as real, v.raw as real / Pow10(acc.scale) as real)) < 1.0
  {
    MulRaw(acc, v);
    var raw := Mul(acc, v).value.raw;
    var f := Pow10(acc.scale);
    hide *;
    TruncDivError(acc.raw, v.raw, f);
  }

  lemma MulRaw(acc: FixedPoint, v: FixedPoint)
    requires Mul(acc, v).Ok? && Pow10(acc.scale) > 0
    ensures Mul(acc, v).value.raw == ScaledProduct(acc.raw, v.raw, Pow10(acc.scale))
  {
    hide TruncDiv, Pow10;
  }

  function ScaledProduct(x: int, y: int, f: int): int
    requires f > 0
  {
    TruncDiv(x * y, f)
  }

  lemma TruncDivError(x: int, y: int, f: int)
    requires f > 0
    ensures AbsReal(ScaledProduct(x, y, f) as real - Times(x as real, y as real / f as real)) < 1.0
  {
    TruncDivBounds(x * y, f);
    TruncationError(x * y, f, TruncDiv(x * y, f), TruncRem(x * y, f));
    QuotientOfProduct(x, y, f);
  }

  lemma QuotientOfProduct(x: int, y: int, f: int)
    requires f > 0
    ensures (x * y) as real / f as real == x as real * (y as real / f as real)
  {
    assert (x * y) as real == x as real * y as real;
  }

  lemma TruncationError(x: int, f: int, q: int, r: int)
    requires f > 0 && x == f * q + r && Abs(r) < f
    ensures AbsReal(q as real - x as real / f as real) < 1.0
  {
    var rest := r as real / f as real;
    assert x as real == f as real * q as real + r as real;
    assert x as real / f as real == q as real + rest;
    assert -1.0 < rest < 1.0;
  }

  lemma Triangle(x: real, y: real, z: real)
    ensures AbsReal(x - z) <= AbsReal(x - y) + AbsReal(y - z)
  {
  }

  lemma ScaledBelow(e: real, m: real)
    requires 0.0 <= e < 1.0 && m >= 0.0
    ensures Times(e, m) <= m
    ensures m <= 1.0 ==> Times(e, m) < 1.0
  {
    RealOrder(e, 1.0, m);
    if m <= 1.0 { RealOrder(m, 1.0, e); }
  }

  lemma RealOrder(x: real, y: real, c: real)
    requires x <= y && c >= 0.0
    ensures x * c <= y * c
  {
  }

  /** The multipliers a Mul phase uses, as rationals at the base's scale. */
  function MulRatios(mods: seq<Modifier>, scale: u32): (ratios: seq<real>)
    requires forall m :: m in mods ==> Rescale(m.value, scale).Ok?
    requires Pow10(scale) > 0
    ensures |ratios| == |mods|
  {
    Ratios(RescaledRaws(mods, scale), Pow10(scale))
  }

  /** How far a Mul phase ends from the exact product. */
  function MulPhaseDrift(mods: seq<Modifier>, acc: FixedPoint): real
    requires forall m :: m in mods ==> Rescale(m.value, acc.scale).Ok?
    requires Fold(mods, acc).Ok? && Pow10(acc.scale) > 0
  {
    AbsReal(Fold(mods, acc).value.raw as real - ExactProduct(acc.raw as real, MulRatios(mods, acc.scale)))
  }

  /** The first step adds a truncation below one unit, magnified by the multipliers still to come. */
  lemma DriftStep(mods: seq<Modifier>, acc: FixedPoint) returns (next: FixedPoint, e: real)
    requires forall m :: m in mods ==> m.op == OpMul && Rescale(m.value, acc.scale).Ok?
    requires mods != [] && Fold(mods, acc).Ok? && Pow10(acc.scale) > 0
    ensures next.scale == acc.scale && Fold(mods[1..], next) == Fold(mods, acc)
    ensures 0.0 <= e < 1.0
    ensures MulPhaseDrift(mods, acc)
         <= MulPhaseDrift(mods[1..], next) + Times(e, MagnitudeProduct(MulRatios(mods[1..], acc.scale)))
  {
    next := Apply(mods[0], acc).value;
    var v := Rescale(mods[0].value, acc.scale).value;
    MulStepError(acc, v);
    var rest := MulRatios(mods[1..], acc.scale);
    var ratio := v.raw as real / Pow10(acc.scale) as real;
    MulRatiosHead(mods, acc.scale);
    var start := Times(acc.raw as real, ratio);
    e := AbsReal(next.raw as real - start);
    var end := Fold(mods, acc).value.raw as real;
    assert Fold(mods, acc) == Fold(mods[1..], next);
    hide Apply, Rescale, Mul, Pow10, MagnitudeProduct, Fold, Times, MulRatios;
    assert ExactProduct(acc.raw as real, [ratio] + rest) == ExactProduct(start, rest);
    ExactProductSpread(next.raw as real, start, rest);
    Triangle(end, ExactProduct(next.raw as real, rest), ExactProduct(start, rest));
  }

  lemma MulRatiosHead(mods: seq<Modifier>, scale: u32)
    requires mods != [] && Pow10(scale) > 0
    requires forall m :: m in mods ==> Rescale(m.value, scale).Ok?
    ensures MulRatios(mods, scale) ==
      [Rescale(mods[0].value, scale).value.raw as real / Pow10(scale) as real] + MulRatios(mods[1..], scale)
    ensures MulRatios(mods, scale)[1..] == MulRatios(mods[1..], scale)
  {
    hide Rescale, Pow10;
  }

  /** After any number of multiplications the result is within ErrorBound of the exact product. */
  lemma {:induction false} MulPhaseError(mods: seq<Modifier>, acc: FixedPoint)
    requires forall m :: m in mods ==> m.op == OpMul && Rescale(m.value, acc.scale).Ok?
    requires Fold(mods, acc).Ok? && Pow10(acc.scale) > 0
    ensures MulPhaseDrift(mods, acc) <= ErrorBound(MulRatios(mods, acc.scale))
    decreases |mods|
  {
    hide Apply, Rescale, Pow10;
    if mods != [] {
      var next, e := DriftStep(mods, acc);
      MulPhaseError(mods[1..], next);
      var rest := MulRatios(mods[1..], acc.scale);
      MulRatiosHead(mods, acc.scale);
      MagnitudeNonNegative(rest);
      ScaledBelow(e, MagnitudeProduct(rest));
      hide Fold, Times, MulPhaseDrift, MagnitudeProduct, MulRatios;
    }
  }

  /** With every multiplier at most one in magnitude, k multiplications stay within less than k units. */
  lemma {:induction false} MulPhaseErrorBelowCount(mods: seq<Modifier>, acc: FixedPoint)
    requires forall m :: m in mods ==>
      m.op == OpMul && Rescale(m.value, acc.scale).Ok? &&
      Abs(Rescale(m.value, acc.scale).value.raw) <= Pow10(acc.scale)
    requires mods != [] && Fold(mods, acc).Ok? && Pow10(acc.scale) > 0
    ensures MulPhaseDrift(mods, acc) < |mods| as real
    decreases |mods|
  {
    hide Apply, Rescale, Pow10;
    var next, e := DriftStep(mods, acc);
    var rest := MulRatios(mods[1..], acc.scale);
    SmallMagnitudes(mods[1..], acc.scale);
    MagnitudeNonNegative(rest);
    ScaledBelow(e, MagnitudeProduct(rest));
    if |mods| > 1 {
      MulPhaseErrorBelowCount(mods[1..], next);
    } else {
      NoDrift(mods[1..], next);
    }
    hide Fold, Times, MulPhaseDrift, MagnitudeProduct, MulRatios;
  }

  lemma NoDrift(mods: seq<Modifier>, acc: FixedPoint)
    requires mods == [] && Pow10(acc.scale) > 0
    ensures MulPhaseDrift(mods, acc) == 0.0
  {
  }

  lemma {:induction false} SmallMagnitudes(mods: seq<Modifier>, scale: u32)
    requires Pow10(scale) > 0
    requires forall m :: m in mods ==>
      Rescale(m.value, scale).Ok? && Abs(Rescale(m.value, scale).value.raw) <= Pow10(scale)
    ensures MagnitudeProduct(MulRatios(mods, scale)) <= 1.0
  {
    hide Rescale, Pow10;
    if mods != [] {
      SmallMagnitudes(mods[1..], scale);
      MulRatiosHead(mods, scale);
      var rest := MulRatios(mods[1..], scale);
      MagnitudeNonNegative(rest);
      AtMostOne(Rescale(mods[0].value, scale).value.raw, Pow10(scale), MagnitudeProduct(rest));
    }
  }

  lemma AtMostOne(v: int, factor: int, rest: real)
    requires factor > 0 && Abs(v) <= factor && 0.0 <= rest <= 1.0
    ensures Times(AbsReal(v as real / factor as real), rest) <= 1.0
  {
    var ratio := AbsReal(v as real / factor as real);
    RatioAtMostOne(v, factor);
    hide AbsReal;
    RealOrder(ratio, 1.0, rest);
    assert Times(ratio, rest) <= 1.0 * rest;
  }

  lemma RatioAtMostOne(v: int, factor: int)
    requires factor > 0 && Abs(v) <= factor
    ensures AbsReal(v as real / factor as real) <= 1.0
  {
  }

  // ---------------------------------------------------------------- the whole aggregation

  /** Without an override a successful aggregate keeps the base's scale, starts the Mul phase from the exact
      sum, and ends within the Mul phase's error bound of the exact product. */
  lemma AggregateError(mods: seq<Modifier>, base: FixedPoint)
    requires Aggregate(mods, base).Ok? && OfKind(mods, OpOverride) == []
    ensures Pow10(base.scale) > 0
    ensures forall op, m :: m in OfKind(mods, op) ==> Rescale(m.value, base.scale).Ok?
    ensures Aggregate(mods, base).value.scale == base.scale
    ensures var sum := base.raw + Sum(RescaledRaws(OfKind(mods, OpAdd), base.scale));
      var ratios := MulRatios(OfKind(mods, OpMul), base.scale);
      AbsReal(Aggregate(mods, base).value.raw as real - ExactProduct(sum as real, ratios)) <= ErrorBound(ratios)
  {
    hide Apply, Rescale, Pow10, OfKind, ExactProduct, ErrorBound, AbsReal;
    forall op ensures forall m :: m in OfKind(mods, op) <==> m in mods && m.op == op { OfKindMembers(mods, op); }
    Pow10Positive(base.scale);
    AddPhaseExact(OfKind(mods, OpAdd), base);
    var afterAdd := Fold(OfKind(mods, OpAdd), base).value;
    FoldKeepsScale(OfKind(mods, OpMul), afterAdd);
    MulPhaseError(OfKind(mods, OpMul), afterAdd);
    forall op, m | m in OfKind(mods, op) ensures Rescale(m.value, base.scale).Ok? {
      if op == OpOverride { assert false; }
    }
  }

  /** An override that is registered last wins whatever else is registered, scale included,
      but an overflow in the other phases still fails the aggregate. */
  lemma LastOverrideWins(mods: seq<Modifier>, last: Modifier, base: FixedPoint)
    requires last.op == OpOverride
    ensures Aggregate(mods + [last], base).Ok? ==> Aggregate(mods + [last], base) == Ok(last.value)
    ensures Aggregate(mods + [last], base).Ok? <==> Aggregate(mods, base).Ok?
  {
    hide Fold, Rescale;
    OfKindMembers(mods, OpOverride);
    var overrides := OfKind(mods, OpOverride);
    assert overrides == [] || overrides[|overrides| - 1] in overrides;
    OfKindAppend(mods, last, OpAdd);
    OfKindAppend(mods, last, OpMul);
    OfKindAppend(mods, last, OpOverride);
  }

  lemma {:induction false} OfKindAppend(mods: seq<Modifier>, m: Modifier, op: ModifierOp)
    ensures OfKind(mods + [m], op) == if m.op == op then OfKind(mods, op) + [m] else OfKind(mods, op)
  {
    if mods != [] {
      OfKindAppend(mods[1..], m, op);
      assert (mods + [m])[1..] == mods[1..] + [m];
    }
  }

  /** Registration order between an addition and a multiplication does not matter. */
  lemma KindsCommute(before: seq<Modifier>, x: Modifier, y: Modifier, after: seq<Modifier>, base: FixedPoint)
    requires x.op != y.op
    ensures Aggregate(before + [x, y] + after, base) == Aggregate(before + [y, x] + after, base)
  {
    hide Fold, Apply;
    forall op ensures OfKind(before + [x, y] + after, op) == OfKind(before + [y, x] + after, op) {
      OfKindConcat(before + [x, y], after, op);
      OfKindConcat(before + [y, x], after, op);
      OfKindConcat(before, [x, y], op);
      OfKindConcat(before, [y, x], op);
      OfKindConcat([x], [y], op);
      OfKindConcat([y], [x], op);
      assert [x] + [y] == [x, y] && [y] + [x] == [y, x];
    }
  }

  lemma {:induction false} OfKindConcat(xs: seq<Modifier>, ys: seq<Modifier>, op: ModifierOp)
    ensures OfKind(xs + ys, op) == OfKind(xs, op) + OfKind(ys, op)
  {
    if xs == [] {
      assert xs + ys == ys;
    } else {
      OfKindConcat(xs[1..], ys, op);
      assert (xs + ys)[1..] == xs[1..] + ys;
    }
  }

  /** Order between two multiplications does matter: truncation does not commute. */
  lemma MulOrderMatters()
    ensures var half, two := Modifier("t", "c", OpMul, FixedPoint(5, 1)), Modifier("t", "c", OpMul, FixedPoint(20, 1));
      var base := FixedPoint(3, 1);
      Aggregate([half, two], base) == Ok(FixedPoint(2, 1)) && Aggregate([two, half], base) == Ok(FixedPoint(3, 1))
  {
    var half, two := Modifier("t", "c", OpMul, FixedPoint(5, 1)), Modifier("t", "c", OpMul, FixedPoint(20, 1));
    var base := FixedPoint(3, 1);
    assert Pow10(1) == 10;
    assert Apply(half, base) == Ok(FixedPoint(1, 1)) && Apply(two, FixedPoint(1, 1)) == Ok(FixedPoint(2, 1));
    assert Apply(two, base) == Ok(FixedPoint(6, 1)) && Apply(half, FixedPoint(6, 1)) == Ok(FixedPoint(3, 1));
    PairOfMuls(half, two, base);
    PairOfMuls(two, half, base);
  }

  lemma PairOfMuls(x: Modifier, y: Modifier, base: FixedPoint)
    requires x.op == OpMul && y.op == OpMul && Apply(x, base).Ok?
    ensures Aggregate([x, y], base) == Apply(y, Apply(x, base).value)
  {
    hide Apply;
    assert [x, y][1..] == [y] && [y][1..] == [];
    assert forall op :: OfKind([y], op) == if op == OpMul then [y] else [];
    assert forall op :: OfKind([x, y], op) == if op == OpMul then [x] + [y] else [];
    assert [x] + [y] == [x, y];
    assert Fold([x, y], base) == Fold([y], Apply(x, base).value);
    assert Fold([y], Apply(x, base).value) == Apply(y, Apply(x, base).value);
    assert OfKind([x, y], OpMul) == [x, y] && OfKind([x, y], OpAdd) == [] && OfKind([x, y], OpOverride) == [];
    assert Aggregate([x, y], base) == Fold([x, y], base);
  }
}
