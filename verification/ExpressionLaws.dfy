/** Laws of evaluation: short circuits, De Morgan, locality, and functions against operators. */
module ExpressionLaws {
  import opened Machine
  import opened FixedPoints
  import opened Modifiers
  import opened ModifierLaws
  import opened Expressions

  // ---------------------------------------------------------------- conjunctions and disjunctions

  /** The value of a chain is decided by the chain alone. */
  lemma {:induction false} UntilIgnoresWhole(env: Env, vars: Variables, w: Expr, w': Expr, items: seq<Expr>,
                                             decisive: bool)
    requires Within(w, items) && Within(w', items)
    ensures EvalUntil(env, vars, w, items, decisive) == EvalUntil(env, vars, w', items, decisive)
    decreases |items|
  {
    if items != [] {
      UntilIgnoresWhole(env, vars, w, w', items[1..], decisive);
    }
  }

  /** A chain with nothing decided in its first part goes on with its second. */
  lemma {:induction false} UntilJoins(env: Env, vars: Variables, w: Expr, xs: seq<Expr>, ys: seq<Expr>, decisive: bool)
    requires Within(w, xs) && Within(w, ys) && Within(w, xs + ys)
    ensures EvalUntil(env, vars, w, xs + ys, decisive) ==
      (if EvalUntil(env, vars, w, xs, decisive) == Ok(Truth(!decisive)) then EvalUntil(env, vars, w, ys, decisive)
       else EvalUntil(env, vars, w, xs, decisive))
    decreases |xs|
  {
    if xs == [] {
      assert xs + ys == ys;
    } else {
      assert (xs + ys)[0] == xs[0] && (xs + ys)[1..] == xs[1..] + ys;
      UntilJoins(env, vars, w, xs[1..], ys, decisive);
    }
  }

  /** One step of a chain: its first item decides, fails, or leaves the rest. */
  function Stepped(first: Evaluated, rest: Evaluated, decisive: bool): Evaluated {
    if first.Err? then first
    else if !first.value.Truth? then Err(TypeMismatch)
    else if first.value.b == decisive then first
    else rest
  }

  lemma UntilSteps(env: Env, vars: Variables, w: Expr, items: seq<Expr>, decisive: bool)
    requires Within(w, items)
    ensures items == [] ==> EvalUntil(env, vars, w, items, decisive) == Ok(Truth(!decisive))
    ensures items != [] ==> Within(w, items[1..])
    ensures items == [] || EvalUntil(env, vars, w, items, decisive) ==
      Stepped(Eval(env, vars, items[0]), EvalUntil(env, vars, w, items[1..], decisive), decisive)
  {
    hide Eval;
  }

  lemma UntilOfTwo(env: Env, vars: Variables, w: Expr, a: Expr, b: Expr, decisive: bool)
    requires Within(w, [a, b])
    ensures EvalUntil(env, vars, w, [a, b], decisive) ==
      Stepped(Eval(env, vars, a), Stepped(Eval(env, vars, b), Ok(Truth(!decisive)), decisive), decisive)
  {
    assert [a, b][1..] == [b] && [b][1..] == [];
    assert Within(w, [b]) by { assert [a, b][1] == b; }
    UntilSteps(env, vars, w, [a, b], decisive);
    UntilSteps(env, vars, w, [b], decisive);
    UntilSteps(env, vars, w, [], decisive);
    hide Eval, EvalUntil;
  }

  lemma {:induction false} UntilIsTruth(env: Env, vars: Variables, w: Expr, items: seq<Expr>, decisive: bool)
    requires Within(w, items)
    ensures var r := EvalUntil(env, vars, w, items, decisive); r.Ok? ==> r.value.Truth?
    decreases |items|
  {
    if items != [] {
      UntilIsTruth(env, vars, w, items[1..], decisive);
    }
  }

  /** Nested conjunctions and disjunctions flatten, errors and short circuits included. */
  lemma NestedChainsFlatten(env: Env, vars: Variables, xs: seq<Expr>, ys: seq<Expr>)
    ensures Eval(env, vars, And([And(xs), And(ys)])) == Eval(env, vars, And(xs + ys))
    ensures Eval(env, vars, Or([Or(xs), Or(ys)])) == Eval(env, vars, Or(xs + ys))
  {
    FlattenChain(env, vars, And([And(xs), And(ys)]), And(xs), And(ys), And(xs + ys), xs, ys, false);
    FlattenChain(env, vars, Or([Or(xs), Or(ys)]), Or(xs), Or(ys), Or(xs + ys), xs, ys, true);
  }

  lemma FlattenChain(env: Env, vars: Variables, outer: Expr, a: Expr, b: Expr, flat: Expr, xs: seq<Expr>,
                     ys: seq<Expr>, decisive: bool)
    requires Within(a, xs) && Within(b, ys) && Within(flat, xs + ys) && Within(outer, [a, b])
    requires Eval(env, vars, a) == EvalUntil(env, vars, a, xs, decisive)
    requires Eval(env, vars, b) == EvalUntil(env, vars, b, ys, decisive)
    ensures EvalUntil(env, vars, outer, [a, b], decisive) == EvalUntil(env, vars, flat, xs + ys, decisive)
  {
    forall i | 0 <= i < |xs| ensures xs[i] < flat { assert (xs + ys)[i] == xs[i]; }
    forall i | 0 <= i < |ys| ensures ys[i] < flat { assert (xs + ys)[|xs| + i] == ys[i]; }
    UntilJoins(env, vars, flat, xs, ys, decisive);
    UntilIgnoresWhole(env, vars, a, flat, xs, decisive);
    UntilIgnoresWhole(env, vars, b, flat, ys, decisive);
    UntilIsTruth(env, vars, a, xs, decisive);
    UntilIsTruth(env, vars, b, ys, decisive);
    UntilOfTwo(env, vars, outer, a, b, decisive);
    hide Eval, EvalUntil;
  }

  function Negated(items: seq<Expr>): (r: seq<Expr>)
    ensures |r| == |items| && forall i :: 0 <= i < |items| ==> r[i] == Not(items[i])
  {
    seq(|items|, i requires 0 <= i < |items| => Not(items[i]))
  }

  function Opposite(r: Evaluated): Evaluated {
    if r.Err? then r else if r.value.Truth? then Ok(Truth(!r.value.b)) else Err(TypeMismatch)
  }

  lemma {:induction false} UntilOfNegated(env: Env, vars: Variables, w: Expr, w': Expr, items: seq<Expr>,
                                          decisive: bool)
    requires Within(w, items) && Within(w', Negated(items))
    ensures EvalUntil(env, vars, w', Negated(items), !decisive) == Opposite(EvalUntil(env, vars, w, items, decisive))
    decreases |items|
  {
    hide *;
    UntilSteps(env, vars, w, items, decisive);
    UntilSteps(env, vars, w', Negated(items), !decisive);
    NegatedSteps(items);
    if items == [] {
      OppositeTruth(!decisive);
      return;
    }
    UntilOfNegated(env, vars, w, w', items[1..], decisive);
    UntilIsTruth(env, vars, w, items[1..], decisive);
    NegatedValue(env, vars, items[0]);
    SteppedOpposite(Eval(env, vars, items[0]), EvalUntil(env, vars, w, items[1..], decisive), decisive);
  }

  lemma NegatedSteps(items: seq<Expr>)
    ensures items == [] ==> Negated(items) == []
    ensures items != [] ==> Negated(items)[1..] == Negated(items[1..]) && Negated(items)[0] == Not(items[0])
  {
  }

  lemma OppositeTruth(b: bool)
    ensures Opposite(Ok(Truth(b))) == Ok(Truth(!b))
  {
  }

  lemma SteppedOpposite(first: Evaluated, rest: Evaluated, decisive: bool)
    requires rest.Ok? ==> rest.value.Truth?
    ensures Stepped(Opposite(first), Opposite(rest), !decisive) == Opposite(Stepped(first, rest, decisive))
  {
  }

  lemma NegatedValue(env: Env, vars: Variables, e: Expr)
    ensures Eval(env, vars, Not(e)) == Opposite(Eval(env, vars, e))
  {
  }

  /** De Morgan's laws hold exactly: the same values, the same errors, the same short circuits. */
  lemma DeMorgan(env: Env, vars: Variables, items: seq<Expr>)
    ensures Eval(env, vars, Not(And(items))) == Eval(env, vars, Or(Negated(items)))
    ensures Eval(env, vars, Not(Or(items))) == Eval(env, vars, And(Negated(items)))
  {
    UntilOfNegated(env, vars, And(items), Or(Negated(items)), items, false);
    UntilOfNegated(env, vars, Or(items), And(Negated(items)), items, true);
    NegatedValue(env, vars, And(items));
    NegatedValue(env, vars, Or(items));
  }

  /** A chain is undecided exactly when every item is, and decided exactly by a first decisive item that nothing but
      undecided items precede; what stands after it is never looked at. */
  lemma {:induction false} ChainDecides(env: Env, vars: Variables, w: Expr, items: seq<Expr>, decisive: bool)
    requires Within(w, items)
    ensures EvalUntil(env, vars, w, items, decisive) == Ok(Truth(!decisive)) <==> Undecided(env, vars, items, decisive)
    ensures EvalUntil(env, vars, w, items, decisive) == Ok(Truth(decisive)) <==>
      exists k :: DecidedAt(env, vars, items, decisive, k)
    decreases |items|
  {
    hide Eval, EvalUntil, Within;
    UntilSteps(env, vars, w, items, decisive);
    if items != [] {
      var rest := items[1..];
      hide Undecided, DecidedAt;
      ChainDecides(env, vars, w, rest, decisive);
      UndecidedStep(env, vars, items, decisive);
      DecidedStep(env, vars, items, decisive);
    }
  }

  ghost predicate Undecided(env: Env, vars: Variables, items: seq<Expr>, decisive: bool) {
    forall i :: 0 <= i < |items| ==> Eval(env, vars, items[i]) == Ok(Truth(!decisive))
  }

  lemma UndecidedStep(env: Env, vars: Variables, items: seq<Expr>, decisive: bool)
    requires items != []
    ensures Undecided(env, vars, items, decisive) <==>
      Eval(env, vars, items[0]) == Ok(Truth(!decisive)) && Undecided(env, vars, items[1..], decisive)
  {
    hide Eval;
    assert items == [items[0]] + items[1..];
  }

  lemma DecidedStep(env: Env, vars: Variables, items: seq<Expr>, decisive: bool)
    requires items != []
    ensures (exists k :: DecidedAt(env, vars, items, decisive, k)) <==>
      (Eval(env, vars, items[0]) == Ok(Truth(decisive)) ||
       (Eval(env, vars, items[0]) == Ok(Truth(!decisive)) && exists k :: DecidedAt(env, vars, items[1..], decisive, k)))
  {
    hide Eval;
    var rest := items[1..];
    if Eval(env, vars, items[0]) == Ok(Truth(decisive)) {
      assert DecidedAt(env, vars, items, decisive, 0);
    }
    if k :| DecidedAt(env, vars, rest, decisive, k) && Eval(env, vars, items[0]) == Ok(Truth(!decisive)) {
      assert DecidedAt(env, vars, items, decisive, k + 1);
    }
    if k :| DecidedAt(env, vars, items, decisive, k) && k > 0 {
      assert forall i :: 0 <= i < k - 1 ==> rest[i] == items[i + 1];
      assert DecidedAt(env, vars, rest, decisive, k - 1);
    }
  }

  ghost predicate DecidedAt(env: Env, vars: Variables, items: seq<Expr>, decisive: bool, k: int) {
    && 0 <= k < |items| && Eval(env, vars, items[k]) == Ok(Truth(decisive))
    && forall i :: 0 <= i < k ==> Eval(env, vars, items[i]) == Ok(Truth(!decisive))
  }

  // ---------------------------------------------------------------- locality

  ghost predicate Mentions(e: Expr, x: string) {
    match e
    case Var(name) => name == x
    case Not(inner) => Mentions(inner, x)
    case And(items) => exists i :: 0 <= i < |items| && Mentions(items[i], x)
    case Or(items) => exists i :: 0 <= i < |items| && Mentions(items[i], x)
    case Compare(_, lhs, rhs) => Mentions(lhs, x) || Mentions(rhs, x)
    case Arithmetic(_, left, right) => Mentions(left, x) || Mentions(right, x)
    case If(cond, thenBranch, elseBranch) => Mentions(cond, x) || Mentions(thenBranch, x) || Mentions(elseBranch, x)
    case Call(_, args) => exists k :: k in args && Mentions(args[k], x)
    case ListLit(elements) => exists i :: 0 <= i < |elements| && Mentions(elements[i], x)
    case MapLit(entries) => exists k :: k in entries && Mentions(entries[k], x)
    case _ => false
  }

  ghost predicate Agree(v: Variables, v': Variables, x: string) {
    (x in v <==> x in v') && (x in v ==> v[x] == v'[x])
  }

  /** An expression's value depends on the variables it mentions and on no others. */
  lemma {:induction false} Locality(env: Env, v: Variables, v': Variables, e: Expr)
    requires forall x :: Mentions(e, x) ==> Agree(v, v', x)
    ensures Eval(env, v, e) == Eval(env, v', e)
    decreases e, 1
  {
    match e
    case Var(name) => assert Mentions(e, name);
    case Not(inner) => Locality(env, v, v', inner);
    case And(items) => LocalUntil(env, v, v', e, items, false);
    case Or(items) => LocalUntil(env, v, v', e, items, true);
    case Compare(_, lhs, rhs) =>
      Locality(env, v, v', lhs);
      Locality(env, v, v', rhs);
    case Arithmetic(_, left, right) =>
      Locality(env, v, v', left);
      Locality(env, v, v', right);
    case If(cond, thenBranch, elseBranch) =>
      Locality(env, v, v', cond);
      Locality(env, v, v', thenBranch);
      Locality(env, v, v', elseBranch);
    case Call(_, args) => LocalKeys(env, v, v', e, args, Sorted(args.Keys));
    case ListLit(elements) => LocalAll(env, v, v', e, elements);
    case MapLit(entries) => LocalKeys(env, v, v', e, entries, Sorted(entries.Keys));
    case _ =>
  }

  lemma {:induction false} LocalUntil(env: Env, v: Variables, v': Variables, w: Expr, items: seq<Expr>, decisive: bool)
    requires Within(w, items)
    requires forall i, x :: 0 <= i < |items| && Mentions(items[i], x) ==> Agree(v, v', x)
    ensures EvalUntil(env, v, w, items, decisive) == EvalUntil(env, v', w, items, decisive)
    decreases w, 0, |items|
  {
    if items != [] {
      Locality(env, v, v', items[0]);
      LocalUntil(env, v, v', w, items[1..], decisive);
    }
  }

  lemma {:induction false} LocalAll(env: Env, v: Variables, v': Variables, w: Expr, items: seq<Expr>)
    requires Within(w, items)
    requires forall i, x :: 0 <= i < |items| && Mentions(items[i], x) ==> Agree(v, v', x)
    ensures EvalAll(env, v, w, items) == EvalAll(env, v', w, items)
    decreases w, 0, |items|
  {
    if items != [] {
      Locality(env, v, v', items[0]);
      LocalAll(env, v, v', w, items[1..]);
    }
  }

  lemma {:induction false} LocalKeys(env: Env, v: Variables, v': Variables, w: Expr, args: map<string, Expr>,
                                     keys: seq<string>)
    requires forall k :: k in keys ==> k in args && args[k] < w
    requires forall k, x :: k in args && Mentions(args[k], x) ==> Agree(v, v', x)
    ensures EvalKeys(env, v, w, args, keys) == EvalKeys(env, v', w, args, keys)
    decreases w, 0, |keys|
  {
    if keys != [] {
      Locality(env, v, v', args[keys[0]]);
      LocalKeys(env, v, v', w, args, keys[1..]);
    }
  }

  // ---------------------------------------------------------------- functions and operators

  ghost predicate HasDefaults(env: Env) {
    && (forall f :: f in DefaultFunctions() ==> f in env.functions && env.functions[f] == DefaultFunctions()[f])
    && (forall f :: f in DefaultArgCounts() ==> f in env.argCounts && env.argCounts[f] == DefaultArgCounts()[f])
  }

  function FunctionOf(op: ArithmeticOp): string
    requires op != Rem
  {
    match op
    case Plus => "add"
    case Minus => "sub"
    case Times => "mul"
    case Over => "div"
  }

  /** A two-argument call of a default function is the operator applied to the arguments in the order of their names. */
  lemma CallIsArithmetic(env: Env, vars: Variables, op: ArithmeticOp, k: string, l: string, x: Expr, y: Expr)
    requires HasDefaults(env) && op != Rem && Below(k, l)
    ensures Eval(env, vars, Call(FunctionOf(op), map[k := x, l := y])) == Eval(env, vars, Arithmetic(op, x, y))
  {
    BelowTrichotomy(k, l);
    var args := map[k := x, l := y];
    var e := Call(FunctionOf(op), args);
    assert args.Keys == {k, l};
    SortedPair(k, l);
    DefaultOnTwo(env, op);
    TwoKeys(env, vars, e, args, k, l);
    CallValue(env, vars, FunctionOf(op), args, [k, l]);
    ArithmeticValue(env, vars, op, x, y);
    hide *;
  }

  lemma CallValue(env: Env, vars: Variables, func: string, args: map<string, Expr>, keys: seq<string>)
    requires Sorted(args.Keys) == keys && func in env.functions && func in env.argCounts &&
      env.argCounts[func] == |args|
    ensures var values := EvalKeys(env, vars, Call(func, args), args, keys);
      Eval(env, vars, Call(func, args)) == if values.Err? then Err(values.error) else env.functions[func](values.value)
  {
  }

  lemma ArithmeticValue(env: Env, vars: Variables, op: ArithmeticOp, x: Expr, y: Expr)
    ensures Eval(env, vars, Arithmetic(op, x, y)) ==
      (var a := Eval(env, vars, x);
       var b := Eval(env, vars, y);
       if a.Err? then a else if b.Err? then b else Computed(op, a.value, b.value))
  {
    hide Computed;
  }

  lemma TwoKeys(env: Env, vars: Variables, w: Expr, args: map<string, Expr>, k: string, l: string)
    requires k in args && l in args && args[k] < w && args[l] < w
    ensures EvalKeys(env, vars, w, args, [k, l]) ==
      (var a := Eval(env, vars, args[k]);
       var b := Eval(env, vars, args[l]);
       if a.Err? then Err(a.error) else if b.Err? then Err(b.error) else Ok([a.value, b.value]))
  {
    assert [k, l][1..] == [l] && [l][1..] == [];
    assert forall j :: j in [k, l] ==> j in args && args[j] < w;
    KeysStep(env, vars, w, args, [k, l]);
    KeysStep(env, vars, w, args, [l]);
    KeysStep(env, vars, w, args, []);
    var a, b := Eval(env, vars, args[k]), Eval(env, vars, args[l]);
    if a.Ok? && b.Ok? {
      assert [b.value] + [] == [b.value] && [a.value] + [b.value] == [a.value, b.value];
    }
    hide Eval, EvalKeys;
  }

  lemma KeysStep(env: Env, vars: Variables, w: Expr, args: map<string, Expr>, keys: seq<string>)
    requires forall k :: k in keys ==> k in args && args[k] < w
    ensures keys == [] ==> EvalKeys(env, vars, w, args, keys) == Ok([])
    ensures keys == [] || EvalKeys(env, vars, w, args, keys) ==
      (var a := Eval(env, vars, args[keys[0]]);
       var rest := EvalKeys(env, vars, w, args, keys[1..]);
       if a.Err? then Err(a.error) else if rest.Err? then rest else Ok([a.value] + rest.value))
  {
    hide Eval;
  }

  lemma DefaultOnTwo(env: Env, op: ArithmeticOp)
    requires HasDefaults(env) && op != Rem
    ensures FunctionOf(op) in env.functions && FunctionOf(op) in env.argCounts && env.argCounts[FunctionOf(op)] == 2
    ensures forall a, b :: env.functions[FunctionOf(op)]([a, b]) == Computed(op, a, b)
  {
    var f := FunctionOf(op);
    assert f in DefaultFunctions() && f in DefaultArgCounts();
    assert env.functions[f] == DefaultFunctions()[f];
    hide Add, Sub, Mul, Div;
  }

  // ---------------------------------------------------------------- comparisons and columns

  /** On fixed-point values <= means < or =, except exactly where aligning the scales overflows. */
  lemma LessOrEqualIff(env: Env, vars: Variables, a: FixedPoint, b: FixedPoint)
    ensures
      Eval(env, vars, Compare(OpLe, Const(a), Const(b))) ==
      Eval(env, vars, Or([Compare(OpLt, Const(a), Const(b)), Compare(OpEq, Const(a), Const(b))]))
      <==> !AlignmentOverflows(a, b)
  {
    CmpAgreesWithEqIff(a, b);
    CmpNormalizedIsValueOrder(a, b);
    var lt, eq := Compare(OpLt, Const(a), Const(b)), Compare(OpEq, Const(a), Const(b));
    ConstantsCompare(env, vars, OpLe, a, b);
    ConstantsCompare(env, vars, OpLt, a, b);
    ConstantsCompare(env, vars, OpEq, a, b);
    UntilOfTwo(env, vars, Or([lt, eq]), lt, eq, true);
    OrIsChain(env, vars, [lt, eq]);
    hide *;
    hide Eval;
  }

  lemma ConstantsCompare(env: Env, vars: Variables, op: CompareOp, a: FixedPoint, b: FixedPoint)
    ensures Eval(env, vars, Compare(op, Const(a), Const(b))) == Ok(Truth(CompareFixed(op, a, b)))
  {
    hide CompareFixed;
  }

  lemma OrIsChain(env: Env, vars: Variables, items: seq<Expr>)
    ensures Eval(env, vars, Or(items)) == EvalUntil(env, vars, Or(items), items, true)
  {
    hide EvalUntil;
  }

  /** An integer column is read at scale 0, a missing cell as zero. Without an override its value is exactly the cell
      plus the rounded additions, times the rounded multipliers. */
  lemma IntegerColumnAggregate(env: Env, vars: Variables, table: string, column: string, cell: Option<i64>)
    requires env.column(table, column) == Ok(IntegerCell(cell))
    requires OfKind(FieldModifiers(env, table, column), OpOverride) == []
    requires Eval(env, vars, Column(table, column)).Ok?
    ensures var mods := FieldModifiers(env, table, column);
      forall op, m :: m in OfKind(mods, op) ==> Rescale(m.value, 0).Ok?
    ensures var mods := FieldModifiers(env, table, column);
      var sum := OrMissing(cell, 0) + Sum(RescaledRaws(OfKind(mods, OpAdd), 0));
      var product := Product(RescaledRaws(OfKind(mods, OpMul), 0));
      FitsI64(sum * product) && Eval(env, vars, Column(table, column)) == Ok(Fixed(FixedPoint(sum * product, 0)))
  {
    ColumnValue(env, vars, table, column, cell);
    hide Eval, Aggregate, OfKind, Rescale, Product, Sum, RescaledRaws;
    WholeNumberAggregate(FieldModifiers(env, table, column), OrMissing(cell, 0));
  }

  /** A single multiplier acts at its own value exactly if the cell is zero or the multiplier is whole: otherwise the
      column's value is not the cell times the multiplier. */
  lemma ColumnMultiplierActsIff(env: Env, vars: Variables, table: string, column: string, cell: Option<i64>,
                                m: Modifier)
    requires env.column(table, column) == Ok(IntegerCell(cell))
    requires FieldModifiers(env, table, column) == [m] && m.op == OpMul
    requires Eval(env, vars, Column(table, column)).Ok?
    ensures Eval(env, vars, Column(table, column)).value.Fixed? && Pow10(m.value.scale) > 0
    ensures var raw, power := Eval(env, vars, Column(table, column)).value.fp.raw, Pow10(m.value.scale);
      raw * power == OrMissing(cell, 0) * m.value.raw <==> OrMissing(cell, 0) == 0 || m.value.raw % power == 0
  {
    ColumnValue(env, vars, table, column, cell);
    hide Eval, Aggregate, Rescale, Pow10;
    MultiplierActsIff(OrMissing(cell, 0), m);
  }

  /** A multiplier of one and a half doubles an integer column. */
  lemma OneAndAHalfWitness(env: Env, vars: Variables, table: string, column: string, n: i64)
    requires env.column(table, column) == Ok(IntegerCell(Some(n))) && FitsI64(2 * n)
    requires FieldModifiers(env, table, column) == [Modifier("t", "c", OpMul, FixedPoint(15, 1))]
    ensures Eval(env, vars, Column(table, column)) == Ok(Fixed(FixedPoint(2 * n, 0)))
  {
    ColumnValue(env, vars, table, column, Some(n));
    hide Eval, Aggregate;
    OneAndAHalfDoubles(n);
  }

  lemma ColumnValue(env: Env, vars: Variables, table: string, column: string, cell: Option<i64>)
    requires env.column(table, column) == Ok(IntegerCell(cell))
    ensures Eval(env, vars, Column(table, column)) ==
      FromCore(Aggregate(FieldModifiers(env, table, column), FixedPoint(OrMissing(cell, 0), 0)))
  {
    hide Aggregate;
  }
}
