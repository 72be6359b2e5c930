/** The operators of rule expressions, each told without its code: when arithmetic succeeds and with what, which numbers
    and texts compare how, and what the phases of an aggregation come to. */
module OperatorLaws {
  import opened Machine
  import opened FixedPoints
  import opened Modifiers
  import opened Expressions

  // ---------------------------------------------------------------- arithmetic

  /** The quotient without its fraction: what is left has less than the divisor's size and the dividend's sign. */
  predicate IsTruncation(x: int, d: int, q: int) {
    IsRemainder(x, d, x - q * d)
  }

  predicate IsRemainder(x: int, d: int, rest: int) {
    Abs(rest) < Abs(d) && (rest == 0 || (rest > 0 <==> x > 0))
  }

  lemma TruncDivIs(x: int, d: int)
    requires d != 0
    ensures IsTruncation(x, d, TruncDiv(x, d))
  {
    if d > 0 {
      TruncDivBounds(x, d);
      assert d * TruncDiv(x, d) == TruncDiv(x, d) * d;
    } else {
      TruncDivBounds(x, -d);
      assert TruncDiv(x, d) == -TruncDiv(x, -d);
      assert -d * TruncDiv(x, -d) == -TruncDiv(x, -d) * d;
    }
  }

  lemma TruncationOnce(x: int, d: int, q: int, p: int)
    requires d != 0 && IsTruncation(x, d, q) && IsTruncation(x, d, p)
    ensures p == q
  {
    Distribute(q, -p, d);
    assert -p * d == -(p * d);
    AbsTimes(q - p, d);
    RemaindersAreClose(x, d, x - q * d, x - p * d);
    if q != p {
      MulOrder(1, Abs(q - p), Abs(d));
    }
  }

  lemma AbsTimes(x: int, d: int)
    ensures Abs(x) * Abs(d) == Abs(x * d)
  {
    if x < 0 && d < 0 {
      assert -x * -d == x * d;
    } else if x < 0 {
      assert -x * d == -(x * d);
    } else if d < 0 {
      assert x * -d == -(x * d);
    }
  }

  lemma RemaindersAreClose(x: int, d: int, r: int, r': int)
    requires IsRemainder(x, d, r) && IsRemainder(x, d, r')
    ensures Abs(r - r') < Abs(d)
  {
  }

  /** A sum exists exactly if the scales are equal and it fits. */
  lemma AddIff(a: FixedPoint, b: FixedPoint, c: FixedPoint)
    ensures Add(a, b) == Ok(c) <==> a.scale == b.scale == c.scale && c.raw == a.raw + b.raw
    ensures Add(a, b) == Err(InvalidFixedPointScale(a.scale, b.scale)) <==> a.scale != b.scale
    ensures Add(a, b) == Err(ArithmeticOverflow) <==> a.scale == b.scale && !FitsI64(a.raw + b.raw)
  {
  }

  /** Subtraction is the inverse of addition. */
  lemma SubIff(a: FixedPoint, b: FixedPoint, c: FixedPoint)
    ensures Sub(a, b) == Ok(c) <==> Add(c, b) == Ok(a)
    ensures Sub(a, b) == Err(InvalidFixedPointScale(a.scale, b.scale)) <==> a.scale != b.scale
    ensures Sub(a, b) == Err(ArithmeticOverflow) <==> a.scale == b.scale && !FitsI64(a.raw - b.raw)
  {
  }

  /** A product exists exactly if the scales are equal and at most 18 and the integer product fits; it is that product
      without the digits below the scale. */
  lemma MulIff(a: FixedPoint, b: FixedPoint, c: FixedPoint)
    ensures Mul(a, b) == Ok(c) <==>
      a.scale == b.scale == c.scale <= 18 && FitsI64(a.raw * b.raw) &&
      IsTruncation(a.raw * b.raw, Pow10(a.scale), c.raw)
    ensures Mul(a, b) == Err(InvalidFixedPointScale(a.scale, b.scale)) <==> a.scale != b.scale
    ensures Mul(a, b) == Err(ArithmeticOverflow) <==>
      a.scale == b.scale && (a.scale > 18 || !FitsI64(a.raw * b.raw))
  {
    var f := Pow10(a.scale);
    Pow10Positive(a.scale);
    TruncDivIs(a.raw * b.raw, f);
    TruncDivBounds(a.raw * b.raw, f);
    hide Pow10, TruncDiv;
    if IsTruncation(a.raw * b.raw, f, c.raw) {
      TruncationOnce(a.raw * b.raw, f, c.raw, TruncDiv(a.raw * b.raw, f));
    }
  }

  /** A quotient exists exactly if the scales are equal and at most 18, the divisor is not zero, and neither the
      dividend moved to twice the scale nor the quotient itself overflows. */
  lemma DivIff(a: FixedPoint, b: FixedPoint, c: FixedPoint)
    ensures Div(a, b) == Ok(c) <==>
      a.scale == b.scale == c.scale <= 18 && b.raw != 0 && FitsI64(a.raw * Pow10(a.scale)) &&
      IsTruncation(a.raw * Pow10(a.scale), b.raw, c.raw)
    ensures Div(a, b) == Err(InvalidFixedPointScale(a.scale, b.scale)) <==> a.scale != b.scale
    ensures Div(a, b) == Err(DivisionByZero) <==> a.scale == b.scale && b.raw == 0
    ensures Div(a, b).Ok? || Div(a, b).error in
      {InvalidFixedPointScale(a.scale, b.scale), DivisionByZero, ArithmeticOverflow}
  {
    if b.raw != 0 {
      var x := a.raw * Pow10(a.scale);
      TruncDivIs(x, b.raw);
      if IsTruncation(x, b.raw, c.raw) {
        TruncationOnce(x, b.raw, c.raw, TruncDiv(x, b.raw));
      }
    }
    hide Pow10, TruncDiv, IsTruncation;
  }

  // ---------------------------------------------------------------- comparisons

  /** What an operator asks of an order. */
  predicate Holds(op: CompareOp, o: Ordering) {
    match op
    case OpEq => o == Equal
    case OpNe => o != Equal
    case OpLt => o == Less
    case OpLe => o == Less || o == Equal
    case OpGt => o == Greater
    case OpGe => o == Greater || o == Equal
  }

  /** Numbers compare by value exactly as long as aligning their scales does not overflow; where it does, the operators
      that are not strict hold and so does inequality. */
  lemma CompareFixedIff(op: CompareOp, a: FixedPoint, b: FixedPoint)
    ensures !AlignmentOverflows(a, b) ==> (CompareFixed(op, a, b) <==> Holds(op, ValueOrder(a, b)))
    ensures AlignmentOverflows(a, b) ==> (CompareFixed(op, a, b) <==> op in {OpNe, OpLe, OpGe})
  {
    CmpNormalizedIsValueOrder(a, b);
    hide CmpNormalized, AlignmentOverflows, ValueOrder;
  }

  /** The first place where two texts part: one ends there, or they have different characters. */
  predicate PartAt(a: string, b: string, k: int) {
    && 0 <= k <= |a| && k <= |b| && a[..k] == b[..k]
    && (k == |a| || k == |b| || a[k] != b[k])
  }

  /** The order of texts: by the character where they part, the one that ends there first. */
  function OrderAt(a: string, b: string, k: nat): Ordering
    requires k <= |a| && k <= |b|
  {
    if k == |a| then (if k == |b| then Equal else Less)
    else if k == |b| then Greater
    else CompareInt(a[k] as int, b[k] as int)
  }

  lemma {:induction false} BelowIff(a: string, b: string, k: nat)
    requires PartAt(a, b, k)
    ensures Below(a, b) <==> OrderAt(a, b, k) == Less
    decreases k
  {
    if k > 0 {
      assert a[0] == a[..k][0] == b[..k][0] == b[0];
      assert a[1..][..k - 1] == a[..k][1..] && b[1..][..k - 1] == b[..k][1..];
      BelowIff(a[1..], b[1..], k - 1);
    }
  }

  lemma {:induction false} TextsPart(a: string, b: string) returns (k: nat)
    ensures PartAt(a, b, k)
  {
    k := 0;
    if a != "" && b != "" && a[0] == b[0] {
      var rest := TextsPart(a[1..], b[1..]);
      k := rest + 1;
      assert a[..k] == [a[0]] + a[1..][..rest] && b[..k] == [b[0]] + b[1..][..rest];
    }
  }

  /** Texts compare by the place where they part. */
  lemma CompareStringIff(op: CompareOp, a: string, b: string, k: nat)
    requires PartAt(a, b, k)
    ensures CompareString(op, a, b) <==> Holds(op, OrderAt(a, b, k))
  {
    BelowIff(a, b, k);
    assert PartAt(b, a, k);
    BelowIff(b, a, k);
    assert a == b <==> k == |a| && k == |b| by { assert a[..|a|] == a && b[..|b|] == b; }
    hide Below;
  }

  lemma CompareRowIff(op: CompareOp, a: RowId, b: RowId)
    ensures CompareRow(op, a, b) <==> Holds(op, CompareInt(a, b))
  {
  }

  /** Values of one kind compare; values of different kinds, lists and maps do not. */
  lemma ComparedIff(op: CompareOp, a: EvalValue, b: EvalValue)
    ensures Compared(op, a, b) == Err(TypeMismatch) <==> !SameKind(a, b)
    ensures SameKind(a, b) ==> Compared(op, a, b).Ok? && Compared(op, a, b).value.Truth?
    ensures a.Fixed? && b.Fixed? ==> Compared(op, a, b) == Ok(Truth(CompareFixed(op, a.fp, b.fp)))
    ensures a.Text? && b.Text? ==> Compared(op, a, b) == Ok(Truth(CompareString(op, a.s, b.s)))
    ensures a.Row? && b.Row? ==> Compared(op, a, b) == Ok(Truth(CompareRow(op, a.id, b.id)))
    ensures a.Truth? && b.Truth? ==>
      Compared(op, a, b) == Ok(Truth((op == OpEq && a.b == b.b) || (op == OpNe && a.b != b.b)))
  {
  }

  predicate SameKind(a: EvalValue, b: EvalValue) {
    (a.Fixed? && b.Fixed?) || (a.Truth? && b.Truth?) || (a.Text? && b.Text?) || (a.Row? && b.Row?)
  }

  // ---------------------------------------------------------------- the functions known by default

  /** min and max choose one of their two numbers: the lesser and the greater by value, as long as aligning the scales
      does not overflow. */
  lemma MinMaxIff(x: FixedPoint, y: FixedPoint)
    requires !AlignmentOverflows(x, y)
    ensures Min(x, y).Ok? && Max(x, y).Ok?
    ensures Min(x, y).value in {x, y} && Max(x, y).value in {x, y}
    ensures ValueOrder(Min(x, y).value, x) != Greater && ValueOrder(Min(x, y).value, y) != Greater
    ensures ValueOrder(Max(x, y).value, x) != Less && ValueOrder(Max(x, y).value, y) != Less
  {
    CmpNormalizedIsValueOrder(x, y);
    hide CmpNormalized, AlignmentOverflows, Pow10;
  }

  /** Each default function under its name, on the arguments it is for. */
  lemma DefaultsAre(x: FixedPoint, y: FixedPoint, b: bool)
    ensures var f := DefaultFunctions();
      && f.Keys == {"add", "sub", "mul", "div", "min", "max", "not"} == DefaultArgCounts().Keys
      && (forall n :: n in DefaultArgCounts() ==> DefaultArgCounts()[n] == if n == "not" then 1 else 2)
      && f["add"]([Fixed(x), Fixed(y)]) == Computed(Plus, Fixed(x), Fixed(y))
      && f["sub"]([Fixed(x), Fixed(y)]) == Computed(Minus, Fixed(x), Fixed(y))
      && f["mul"]([Fixed(x), Fixed(y)]) == Computed(Expressions.Times, Fixed(x), Fixed(y))
      && f["div"]([Fixed(x), Fixed(y)]) == Computed(Over, Fixed(x), Fixed(y))
      && f["min"]([Fixed(x), Fixed(y)]) == FromCore(Min(x, y))
      && f["max"]([Fixed(x), Fixed(y)]) == FromCore(Max(x, y))
      && f["not"]([Truth(b)]) == Ok(Truth(!b))
  {
    hide Add, Sub, Mul, Div, Cmp;
  }

  /** Arithmetic is on numbers only, each operator on its own operation; remainders are not supported. */
  lemma ComputedIff(op: ArithmeticOp, a: EvalValue, b: EvalValue)
    ensures Computed(op, a, b) == Err(TypeMismatch) <==> !(a.Fixed? && b.Fixed?)
    ensures Computed(op, a, b) == Err(UnsupportedOperation) <==> a.Fixed? && b.Fixed? && op == Rem
    ensures a.Fixed? && b.Fixed? && op != Rem ==>
      Computed(op, a, b) == FromCore(match op
        case Plus => Add(a.fp, b.fp)
        case Minus => Sub(a.fp, b.fp)
        case Times => Mul(a.fp, b.fp)
        case _ => Div(a.fp, b.fp))
  {
    hide Add, Sub, Mul, Div;
  }

  // ---------------------------------------------------------------- the phases of an aggregation

  /** The running values of a phase: each follows from the one before and the rescaled modifier. */
  ghost predicate IsChain(mods: seq<Modifier>, scale: u32, chain: seq<int>, first: int, last: int) {
    && |chain| == |mods| + 1 && chain[0] == first && chain[|mods|] == last
    && forall i :: 0 <= i < |mods| ==> Follows(mods[i], scale, chain[i], chain[i + 1])
  }

  ghost predicate Follows(m: Modifier, scale: u32, x: int, y: int) {
    Rescale(m.value, scale).Ok? && IsStep(m.op, scale, Rescale(m.value, scale).value.raw, x, y)
  }

  /** Exact addition that fits, or a truncated product whose integer product fits. */
  ghost predicate IsStep(op: ModifierOp, scale: u32, v: int, x: int, y: int) {
    match op
    case OpAdd => y == x + v && FitsI64(y)
    case OpMul => scale <= 18 && FitsI64(x * v) && IsTruncation(x * v, Pow10(scale), y)
    case OpOverride => false
  }

  lemma StepIff(m: Modifier, acc: FixedPoint, next: FixedPoint)
    requires m.op != OpOverride
    ensures Apply(m, acc) == Ok(next) <==> next.scale == acc.scale && Follows(m, acc.scale, acc.raw, next.raw)
  {
    hide Mul, Add, Pow10, IsTruncation;
    RescaleKeeps(m.value, acc.scale);
    hide Rescale;
    if Rescale(m.value, acc.scale).Ok? {
      var v := Rescale(m.value, acc.scale).value;
      AddIff(acc, v, next);
      MulIff(acc, v, next);
    }
  }

  lemma FollowsFits(m: Modifier, scale: u32, x: int, y: int)
    requires Follows(m, scale, x, y)
    ensures FitsI64(y)
  {
    hide Rescale;
    if m.op == OpMul {
      var v := Rescale(m.value, scale).value.raw;
      Pow10Positive(scale);
      TruncDivIs(x * v, Pow10(scale));
      TruncDivBounds(x * v, Pow10(scale));
      TruncationOnce(x * v, Pow10(scale), y, TruncDiv(x * v, Pow10(scale)));
    }
  }

  lemma RescaleKeeps(a: FixedPoint, scale: u32)
    ensures Rescale(a, scale).Ok? ==> Rescale(a, scale).value.scale == scale
  {
    hide RescaleDownRaw, CheckedPow64, Checked64;
  }

  /** A phase without overrides ends at a number exactly if a chain of running values leads there. */
  lemma {:induction false} FoldIff(mods: seq<Modifier>, acc: FixedPoint, r: FixedPoint)
    requires forall m :: m in mods ==> m.op != OpOverride
    ensures Fold(mods, acc) == Ok(r) <==>
      r.scale == acc.scale && exists chain :: IsChain(mods, acc.scale, chain, acc.raw, r.raw)
  {
    if Fold(mods, acc) == Ok(r) {
      var chain := FoldChain(mods, acc);
    }
    forall chain | r.scale == acc.scale && IsChain(mods, acc.scale, chain, acc.raw, r.raw)
      ensures Fold(mods, acc) == Ok(r)
    {
      ChainFolds(mods, acc, r, chain);
    }
    hide Fold, IsChain;
  }

  lemma {:induction false} FoldChain(mods: seq<Modifier>, acc: FixedPoint) returns (chain: seq<int>)
    requires Fold(mods, acc).Ok? && forall m :: m in mods ==> m.op != OpOverride
    ensures Fold(mods, acc).value.scale == acc.scale
    ensures IsChain(mods, acc.scale, chain, acc.raw, Fold(mods, acc).value.raw)
  {
    hide Follows, Apply;
    chain := [acc.raw];
    if mods != [] {
      var next := Apply(mods[0], acc).value;
      StepIff(mods[0], acc, next);
      var rest := FoldChain(mods[1..], next);
      chain := chain + rest;
      assert forall i :: 0 < i < |mods| ==> mods[i] == mods[1..][i - 1];
    }
  }

  lemma {:induction false} ChainFolds(mods: seq<Modifier>, acc: FixedPoint, r: FixedPoint, chain: seq<int>)
    requires forall m :: m in mods ==> m.op != OpOverride
    requires r.scale == acc.scale && IsChain(mods, acc.scale, chain, acc.raw, r.raw)
    ensures Fold(mods, acc) == Ok(r)
  {
    hide Follows, Apply;
    if mods != [] {
      assert Follows(mods[0], acc.scale, chain[0], chain[1]);
      FollowsFits(mods[0], acc.scale, chain[0], chain[1]);
      var next := FixedPoint(chain[1], acc.scale);
      StepIff(mods[0], acc, next);
      ChainFolds(mods[1..], next, r, chain[1..]);
    }
  }

  /** A phase leads from one running value to another. */
  ghost predicate Leads(mods: seq<Modifier>, scale: u32, x: int, y: int) {
    FitsI64(y) && exists chain :: IsChain(mods, scale, chain, x, y)
  }

  /** The additions lead from the base to a running value and the multipliers from there to an end; the result is that
      end, or the value of the last override if there is one. */
  ghost predicate Aggregates(mods: seq<Modifier>, base: FixedPoint, middle: int, end: int, r: FixedPoint) {
    var overrides := OfKind(mods, OpOverride);
    && Leads(OfKind(mods, OpAdd), base.scale, base.raw, middle)
    && Leads(OfKind(mods, OpMul), base.scale, middle, end)
    && r == if overrides == [] then FixedPoint(end, base.scale) else overrides[|overrides| - 1].value
  }

  /** An aggregation comes to a number exactly if its phases lead there. */
  lemma AggregateIff(mods: seq<Modifier>, base: FixedPoint, r: FixedPoint)
    ensures Aggregate(mods, base) == Ok(r) <==> exists middle, end :: Aggregates(mods, base, middle, end, r)
  {
    hide Aggregate, Aggregates;
    if Aggregate(mods, base) == Ok(r) {
      var middle, end := PhasesLead(mods, base, r);
    }
    forall middle, end | Aggregates(mods, base, middle, end, r) ensures Aggregate(mods, base) == Ok(r) {
      LeadsToAggregate(mods, base, middle, end, r);
    }
  }

  lemma PhasesLead(mods: seq<Modifier>, base: FixedPoint, r: FixedPoint) returns (middle: int, end: int)
    requires Aggregate(mods, base) == Ok(r)
    ensures Aggregates(mods, base, middle, end, r)
  {
    OfKindMembers(mods, OpAdd);
    OfKindMembers(mods, OpMul);
    OfKindMembers(mods, OpOverride);
    var overrides := OfKind(mods, OpOverride);
    assert overrides != [] ==> overrides[|overrides| - 1] in overrides;
    hide OfKind, IsChain, Fold;
    var added := Fold(OfKind(mods, OpAdd), base).value;
    var multiplied := Fold(OfKind(mods, OpMul), added).value;
    PhaseLeads(OfKind(mods, OpAdd), base, added);
    PhaseLeads(OfKind(mods, OpMul), added, multiplied);
    middle, end := added.raw, multiplied.raw;
  }

  lemma LeadsToAggregate(mods: seq<Modifier>, base: FixedPoint, middle: int, end: int, r: FixedPoint)
    requires Aggregates(mods, base, middle, end, r)
    ensures Aggregate(mods, base) == Ok(r)
  {
    OfKindMembers(mods, OpAdd);
    OfKindMembers(mods, OpMul);
    OfKindMembers(mods, OpOverride);
    var overrides := OfKind(mods, OpOverride);
    assert overrides != [] ==> overrides[|overrides| - 1] in overrides;
    hide OfKind, IsChain, Fold;
    LeadsToPhase(OfKind(mods, OpAdd), base, middle);
    LeadsToPhase(OfKind(mods, OpMul), FixedPoint(middle, base.scale), end);
  }

  lemma PhaseLeads(mods: seq<Modifier>, acc: FixedPoint, r: FixedPoint)
    requires Fold(mods, acc) == Ok(r) && forall m :: m in mods ==> m.op != OpOverride
    ensures r.scale == acc.scale && Leads(mods, acc.scale, acc.raw, r.raw)
  {
    FoldIff(mods, acc, r);
    hide Fold, IsChain;
  }

  lemma LeadsToPhase(mods: seq<Modifier>, acc: FixedPoint, y: int)
    requires Leads(mods, acc.scale, acc.raw, y) && forall m :: m in mods ==> m.op != OpOverride
    ensures FitsI64(y) && Fold(mods, acc) == Ok(FixedPoint(y, acc.scale))
  {
    FoldIff(mods, acc, FixedPoint(y, acc.scale));
    hide Fold, IsChain;
  }
}
