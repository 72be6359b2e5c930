/** What expressions mean, told as a relation with a rule for each form and each way it fails, and the proof that
    evaluation is exactly that relation. */
module ExpressionMeanings {
  import opened Machine
  import opened FixedPoints
  import opened Modifiers
  import opened Expressions

  // ---------------------------------------------------------------- the rules

  /** An expression comes to a result: a value or an error. */
  ghost predicate Means(env: Env, vars: Variables, e: Expr, r: Evaluated)
    decreases e, 3
  {
    match e
    case Const(fp) => r == Ok(Fixed(fp))
    case BoolLit(b) => r == Ok(Truth(b))
    case StringLit(s) => r == Ok(Text(s))
    case RowLit(id) => r == Ok(Row(id))
    case Column(table, column) => ColumnMeans(env, table, column, r)
    case Var(name) =>
      || (name in vars && r == Ok(vars[name]))
      || (name !in vars && r == Err(UnknownVariable(name)))
    case Not(inner) =>
      || (Means(env, vars, inner, Ok(Truth(true))) && r == Ok(Truth(false)))
      || (Means(env, vars, inner, Ok(Truth(false))) && r == Ok(Truth(true)))
      || NoTruth(env, vars, e, inner, r)
    case And(items) => ChainMeans(env, vars, e, items, true, r)
    case Or(items) => ChainMeans(env, vars, e, items, false, r)
    case Compare(op, lhs, rhs) =>
      || (exists a, b :: Means(env, vars, lhs, Ok(a)) && Means(env, vars, rhs, Ok(b)) && r == Compared(op, a, b))
      || PairFails(env, vars, e, lhs, rhs, r)
    case Arithmetic(op, left, right) =>
      || (exists a, b :: Means(env, vars, left, Ok(a)) && Means(env, vars, right, Ok(b)) && r == Computed(op, a, b))
      || PairFails(env, vars, e, left, right, r)
    case If(cond, thenBranch, elseBranch) =>
      || (Means(env, vars, cond, Ok(Truth(true))) && Means(env, vars, thenBranch, r))
      || (Means(env, vars, cond, Ok(Truth(false))) && Means(env, vars, elseBranch, r))
      || NoTruth(env, vars, e, cond, r)
    case Call(func, args) =>
      if func in env.argCounts && env.argCounts[func] != |args| then r == Err(WrongArgumentCount)
      else
        exists keys :: Ascending(keys, args.Keys) && CallMeans(env, vars, e, func, Listed(e, args, keys), r)
    case ListLit(elements) =>
      || (exists values :: ListMeans(env, vars, e, elements, values) && r == Ok(List(values)))
      || ListFails(env, vars, e, elements, r)
    case MapLit(entries) =>
      || (r.Ok? && r.value.Map? && EntriesMean(env, vars, e, entries, r.value.entries))
      || exists keys :: Ascending(keys, entries.Keys) && ListFails(env, vars, e, Listed(e, entries, keys), r)
  }

  /** What should be a truth value is an error or another value. */
  ghost predicate NoTruth(env: Env, vars: Variables, whole: Expr, e: Expr, r: Evaluated)
    requires e < whole
    decreases whole, 0
  {
    || (r.Err? && Means(env, vars, e, r))
    || (r == Err(TypeMismatch) && exists v: EvalValue :: !v.Truth? && Means(env, vars, e, Ok(v)))
  }

  ghost predicate HasValue(env: Env, vars: Variables, whole: Expr, e: Expr)
    requires e < whole
    decreases whole, 0
  {
    exists v :: Means(env, vars, e, Ok(v))
  }

  /** One of two operands fails, the left one first. */
  ghost predicate PairFails(env: Env, vars: Variables, whole: Expr, a: Expr, b: Expr, r: Evaluated)
    requires a < whole && b < whole
    decreases whole, 1
  {
    r.Err? && (Means(env, vars, a, r) || (Means(env, vars, b, r) && HasValue(env, vars, whole, a)))
  }

  /** A chain of truth values: all are the neutral one, or the first that is not decides, or is no truth value. */
  ghost predicate ChainMeans(env: Env, vars: Variables, whole: Expr, items: seq<Expr>, neutral: bool, r: Evaluated)
    requires Within(whole, items)
    decreases whole, 2
  {
    || (r == Ok(Truth(neutral)) && forall i :: 0 <= i < |items| ==> Means(env, vars, items[i], Ok(Truth(neutral))))
    || exists k :: 0 <= k < |items|
         && (forall i :: 0 <= i < k ==> Means(env, vars, items[i], Ok(Truth(neutral))))
         && StopsChain(env, vars, whole, items[k], neutral, r)
  }

  ghost predicate StopsChain(env: Env, vars: Variables, whole: Expr, item: Expr, neutral: bool, r: Evaluated)
    requires item < whole
    decreases whole, 1
  {
    || (Means(env, vars, item, Ok(Truth(!neutral))) && r == Ok(Truth(!neutral)))
    || NoTruth(env, vars, whole, item, r)
  }

  ghost predicate ListMeans(env: Env, vars: Variables, whole: Expr, items: seq<Expr>, values: seq<EvalValue>)
    requires Within(whole, items)
    decreases whole, 0
  {
    |values| == |items| && forall i :: 0 <= i < |items| ==> Means(env, vars, items[i], Ok(values[i]))
  }

  /** The first item that fails gives the error. */
  ghost predicate ListFails(env: Env, vars: Variables, whole: Expr, items: seq<Expr>, r: Evaluated)
    requires Within(whole, items)
    decreases whole, 1
  {
    r.Err? &&
    exists k ::
      && 0 <= k < |items| && Means(env, vars, items[k], r)
      && forall i :: 0 <= i < k ==> HasValue(env, vars, whole, items[i])
  }

  ghost predicate EntriesMean(env: Env, vars: Variables, whole: Expr, entries: map<string, Expr>,
                              values: map<string, EvalValue>)
    requires forall k :: k in entries ==> entries[k] < whole
    decreases whole, 0
  {
    values.Keys == entries.Keys && forall k :: k in entries ==> Means(env, vars, entries[k], Ok(values[k]))
  }

  /** A call of a function with its arguments in order: they are evaluated before the function is looked up. */
  ghost predicate CallMeans(env: Env, vars: Variables, whole: Expr, func: string, items: seq<Expr>, r: Evaluated)
    requires Within(whole, items)
    decreases whole, 2
  {
    || (exists values :: ListMeans(env, vars, whole, items, values) && r == Applied(env, func, values))
    || ListFails(env, vars, whole, items, r)
  }

  function Applied(env: Env, func: string, values: seq<EvalValue>): Evaluated {
    if func in env.functions then env.functions[func](values) else Err(UnsupportedOperation)
  }

  /** The names in ascending order, each once. */
  predicate Ascending(keys: seq<string>, names: set<string>) {
    && (forall k :: k in keys ==> k in names) && (forall k :: k in names ==> k in keys)
    && forall i, j :: 0 <= i < j < |keys| ==> Below(keys[i], keys[j])
  }

  function Listed(ghost whole: Expr, args: map<string, Expr>, keys: seq<string>): (items: seq<Expr>)
    requires forall k :: k in keys ==> k in args && args[k] < whole
    ensures Within(whole, items)
    ensures |items| == |keys| && forall i :: 0 <= i < |keys| ==> items[i] == args[keys[i]]
  {
    seq(|keys|, (i: nat) requires i < |keys| => args[keys[i]])
  }

  /** A column's cell by its kind; a missing one reads as zero, false or the empty text. */
  ghost predicate ColumnMeans(env: Env, table: string, column: string, r: Evaluated) {
    match env.column(table, column)
    case Err(e) => r == Err(e)
    case Ok(OtherCell) => r == Err(UnsupportedColumn)
    case Ok(BooleanCell(b)) => r == Ok(Truth(b == Some(true)))
    case Ok(TextCell(None)) => r == Ok(Text(""))
    case Ok(TextCell(Some(s))) => r == Ok(Text(s))
    case Ok(IntegerCell(n)) => NumberMeans(env, table, column, FixedPoint(if n.Some? then n.value else 0, 0), r)
    case Ok(FloatCell(Err(e))) => r == Err(Core(e))
    case Ok(FloatCell(Ok(fp))) => NumberMeans(env, table, column, fp, r)
  }

  /** A number as the modifiers of its field make it. */
  ghost predicate NumberMeans(env: Env, table: string, column: string, base: FixedPoint, r: Evaluated) {
    var mods := if (table, column) in env.modifiers then env.modifiers[(table, column)] else [];
    match Aggregate(mods, base)
    case Ok(fp) => r == Ok(Fixed(fp))
    case Err(e) => r == Err(Core(e))
  }

  // ---------------------------------------------------------------- evaluation is the relation

  /** An expression means its value and nothing else. */
  ghost predicate Agrees(env: Env, vars: Variables, e: Expr) {
    forall r :: Means(env, vars, e, r) <==> r == Eval(env, vars, e)
  }

  ghost predicate AllAgree(env: Env, vars: Variables, items: seq<Expr>) {
    forall i :: 0 <= i < |items| ==> Agrees(env, vars, items[i])
  }

  /** The items before the k-th have this value. */
  ghost predicate HaveTruth(env: Env, vars: Variables, items: seq<Expr>, k: int, b: bool) {
    0 <= k <= |items| && forall i :: 0 <= i < k ==> Eval(env, vars, items[i]) == Ok(Truth(b))
  }

  lemma {:induction false} UntilSkips(env: Env, vars: Variables, whole: Expr, items: seq<Expr>, k: nat, neutral: bool)
    requires Within(whole, items) && HaveTruth(env, vars, items, k, neutral)
    ensures EvalUntil(env, vars, whole, items, !neutral) == EvalUntil(env, vars, whole, items[k..], !neutral)
    decreases k
  {
    if k == 0 {
      assert items[0..] == items;
    } else {
      assert Eval(env, vars, items[0]) == Ok(Truth(neutral));
      UntilSkips(env, vars, whole, items[1..], k - 1, neutral);
      assert items[1..][k - 1..] == items[k..];
    }
  }

  lemma {:induction false} FirstOther(env: Env, vars: Variables, items: seq<Expr>, neutral: bool) returns (k: nat)
    ensures HaveTruth(env, vars, items, k, neutral)
    ensures k < |items| ==> Eval(env, vars, items[k]) != Ok(Truth(neutral))
  {
    hide Eval;
    k := 0;
    if items != [] && Eval(env, vars, items[0]) == Ok(Truth(neutral)) {
      var more := FirstOther(env, vars, items[1..], neutral);
      k := more + 1;
      assert forall i :: 0 < i < |items| ==> items[i] == items[1..][i - 1];
    }
  }

  /** What a chain comes to at an item that has not the neutral value. */
  function Stopped(v: Evaluated, neutral: bool): Evaluated {
    if v.Err? then v else if v.value.Truth? then Ok(Truth(!neutral)) else Err(TypeMismatch)
  }

  lemma ValueAgrees(env: Env, vars: Variables, e: Expr, r: Evaluated)
    requires Agrees(env, vars, e)
    ensures forall x :: Means(env, vars, e, Ok(x)) <==> Eval(env, vars, e) == Ok(x)
    ensures (exists x :: Means(env, vars, e, Ok(x))) <==> Eval(env, vars, e).Ok?
    ensures Means(env, vars, e, r) <==> r == Eval(env, vars, e)
  {
    hide Eval, Means;
    if Eval(env, vars, e).Ok? {
      assert Means(env, vars, e, Ok(Eval(env, vars, e).value));
    }
  }

  lemma TruthOrNot(env: Env, vars: Variables, whole: Expr, e: Expr, r: Evaluated)
    requires e < whole && Agrees(env, vars, e)
    ensures Means(env, vars, e, Ok(Truth(true))) <==> Eval(env, vars, e) == Ok(Truth(true))
    ensures Means(env, vars, e, Ok(Truth(false))) <==> Eval(env, vars, e) == Ok(Truth(false))
    ensures NoTruth(env, vars, whole, e, r) <==>
      var v := Eval(env, vars, e);
      (v.Err? && r == v) || (v.Ok? && !v.value.Truth? && r == Err(TypeMismatch))
  {
    hide Eval, Means, Agrees, NoTruth;
    ValueAgrees(env, vars, e, r);
    NoTruthIff(env, vars, whole, e, r, Eval(env, vars, e));
  }

  lemma NoTruthIff(env: Env, vars: Variables, whole: Expr, e: Expr, r: Evaluated, v: Evaluated)
    requires e < whole && (Means(env, vars, e, r) <==> r == v)
    requires forall x :: Means(env, vars, e, Ok(x)) <==> v == Ok(x)
    ensures NoTruth(env, vars, whole, e, r) <==>
      (v.Err? && r == v) || (v.Ok? && !v.value.Truth? && r == Err(TypeMismatch))
  {
    hide Means;
    if v.Ok? {
      assert Means(env, vars, e, Ok(v.value));
    }
  }

  lemma StopAgrees(env: Env, vars: Variables, whole: Expr, item: Expr, neutral: bool, r: Evaluated)
    requires item < whole && Agrees(env, vars, item)
    ensures Means(env, vars, item, Ok(Truth(neutral))) <==> Eval(env, vars, item) == Ok(Truth(neutral))
    ensures StopsChain(env, vars, whole, item, neutral, r) <==>
      Eval(env, vars, item) != Ok(Truth(neutral)) && r == Stopped(Eval(env, vars, item), neutral)
  {
    hide Eval, Means, Agrees, NoTruth;
    TruthOrNot(env, vars, whole, item, r);
    StoppedBy(Eval(env, vars, item), neutral, r);
    hide Stopped;
  }

  lemma StoppedBy(v: Evaluated, neutral: bool, r: Evaluated)
    ensures v != Ok(Truth(neutral)) && r == Stopped(v, neutral) <==>
      (v == Ok(Truth(!neutral)) && r == Ok(Truth(!neutral))) ||
      (v.Err? && r == v) || (v.Ok? && !v.value.Truth? && r == Err(TypeMismatch))
  {
  }

  lemma UntilStops(env: Env, vars: Variables, whole: Expr, items: seq<Expr>, k: nat, neutral: bool)
    requires Within(whole, items) && HaveTruth(env, vars, items, k, neutral)
    ensures k == |items| ==> EvalUntil(env, vars, whole, items, !neutral) == Ok(Truth(neutral))
    ensures k < |items| && Eval(env, vars, items[k]) != Ok(Truth(neutral)) ==>
      EvalUntil(env, vars, whole, items, !neutral) == Stopped(Eval(env, vars, items[k]), neutral)
  {
    UntilSkips(env, vars, whole, items, k, neutral);
    if k < |items| {
      assert items[k..][0] == items[k];
    }
    hide Eval;
  }

  lemma ChainAgrees(env: Env, vars: Variables, whole: Expr, items: seq<Expr>, neutral: bool, r: Evaluated)
    requires Within(whole, items) && AllAgree(env, vars, items)
    ensures ChainMeans(env, vars, whole, items, neutral, r) <==> r == EvalUntil(env, vars, whole, items, !neutral)
  {
    hide Eval, Means, StopsChain, EvalUntil, Stopped, Agrees;
    forall i | 0 <= i < |items|
      ensures Means(env, vars, items[i], Ok(Truth(neutral))) <==> Eval(env, vars, items[i]) == Ok(Truth(neutral))
      ensures StopsChain(env, vars, whole, items[i], neutral, r) <==>
        Eval(env, vars, items[i]) != Ok(Truth(neutral)) && r == Stopped(Eval(env, vars, items[i]), neutral)
    {
      StopAgrees(env, vars, whole, items[i], neutral, r);
    }
    hide AllAgree;
    var k := FirstOther(env, vars, items, neutral);
    forall n | HaveTruth(env, vars, items, n, neutral)
      ensures n == |items| ==> EvalUntil(env, vars, whole, items, !neutral) == Ok(Truth(neutral))
      ensures n < |items| && Eval(env, vars, items[n]) != Ok(Truth(neutral)) ==>
        EvalUntil(env, vars, whole, items, !neutral) == Stopped(Eval(env, vars, items[n]), neutral)
    {
      UntilStops(env, vars, whole, items, n, neutral);
    }
  }

  // ---------------------------------------------------------------- lists and arguments

  /** The items before the k-th have values. */
  ghost predicate HaveValues(env: Env, vars: Variables, items: seq<Expr>, k: int) {
    0 <= k <= |items| && forall i :: 0 <= i < k ==> Eval(env, vars, items[i]).Ok?
  }

  lemma {:induction false} FirstError(env: Env, vars: Variables, whole: Expr, items: seq<Expr>) returns (k: nat)
    requires Within(whole, items)
    ensures HaveValues(env, vars, items, k)
    ensures var all := EvalAll(env, vars, whole, items);
      if k < |items| then
        Eval(env, vars, items[k]).Err? && all == Err(Eval(env, vars, items[k]).error)
      else
        all.Ok? && forall i :: 0 <= i < k ==> Eval(env, vars, items[i]) == Ok(all.value[i])
  {
    hide Eval;
    k := 0;
    if items != [] && Eval(env, vars, items[0]).Ok? {
      var more := FirstError(env, vars, whole, items[1..]);
      k := more + 1;
      assert forall i :: 0 < i < |items| ==> items[i] == items[1..][i - 1];
    }
  }

  lemma ListMeansIff(env: Env, vars: Variables, whole: Expr, items: seq<Expr>, values: seq<EvalValue>)
    requires Within(whole, items) && AllAgree(env, vars, items)
    ensures ListMeans(env, vars, whole, items, values) <==> EvalAll(env, vars, whole, items) == Ok(values)
  {
    hide Eval, Means, EvalAll, Agrees;
    var k := FirstError(env, vars, whole, items);
    forall i | 0 <= i < |items| && i < |values|
      ensures Means(env, vars, items[i], Ok(values[i])) <==> Eval(env, vars, items[i]) == Ok(values[i])
    {
      ValueAgrees(env, vars, items[i], Ok(values[i]));
    }
    hide AllAgree;
    assert k < |items| && k < |values| ==> !Means(env, vars, items[k], Ok(values[k]));
    if |values| == |items| && EvalAll(env, vars, whole, items).Ok? {
      assert values == EvalAll(env, vars, whole, items).value <==>
        forall i :: 0 <= i < |items| ==> values[i] == EvalAll(env, vars, whole, items).value[i];
    }
  }

  lemma HasValueIff(env: Env, vars: Variables, whole: Expr, e: Expr)
    requires e < whole && Agrees(env, vars, e)
    ensures HasValue(env, vars, whole, e) <==> Eval(env, vars, e).Ok?
  {
    hide Eval, Means, Agrees;
    ValueAgrees(env, vars, e, Err(TypeMismatch));
  }

  lemma ListFailsIff(env: Env, vars: Variables, whole: Expr, items: seq<Expr>, r: Evaluated)
    requires Within(whole, items) && AllAgree(env, vars, items)
    ensures ListFails(env, vars, whole, items, r) <==>
      EvalAll(env, vars, whole, items).Err? && r == Err(EvalAll(env, vars, whole, items).error)
  {
    hide Eval, Means, EvalAll, Agrees, HasValue;
    var k := FirstError(env, vars, whole, items);
    forall i | 0 <= i < |items|
      ensures Means(env, vars, items[i], r) <==> r == Eval(env, vars, items[i])
      ensures HasValue(env, vars, whole, items[i]) <==> Eval(env, vars, items[i]).Ok?
    {
      ValueAgrees(env, vars, items[i], r);
      HasValueIff(env, vars, whole, items[i]);
    }
    hide AllAgree;
  }

  lemma {:induction false} KeysAreListed(env: Env, vars: Variables, whole: Expr, args: map<string, Expr>,
                                         keys: seq<string>)
    requires forall k :: k in keys ==> k in args && args[k] < whole
    ensures EvalKeys(env, vars, whole, args, keys) == EvalAll(env, vars, whole, Listed(whole, args, keys))
  {
    hide Eval;
    if keys != [] {
      KeysAreListed(env, vars, whole, args, keys[1..]);
      assert Listed(whole, args, keys)[1..] == Listed(whole, args, keys[1..]);
    }
  }

  /** There is one way to list names in ascending order. */
  lemma AscendingIff(keys: seq<string>, names: set<string>)
    ensures Ascending(keys, names) <==> keys == Sorted(names)
  {
    if Ascending(keys, names) {
      AscendingIsSorted(keys, names);
    }
    hide Below;
  }

  lemma {:induction false} AscendingIsSorted(keys: seq<string>, names: set<string>)
    requires Ascending(keys, names)
    ensures keys == Sorted(names)
    decreases |keys|
  {
    hide Below, Sorted, IsLeast;
    if keys == [] {
      assert names == {};
    } else {
      AscendingHead(keys, names);
      hide Ascending;
      AscendingIsSorted(keys[1..], names - {keys[0]});
      SortedHead(names, keys[0]);
      assert keys == [keys[0]] + keys[1..];
    }
  }

  lemma SortedHead(names: set<string>, k: string)
    requires IsLeast(names, k)
    ensures Sorted(names) == [k] + Sorted(names - {k})
  {
    LeastUnique(names);
    hide Below;
  }

  lemma AscendingHead(keys: seq<string>, names: set<string>)
    requires keys != [] && Ascending(keys, names)
    ensures IsLeast(names, keys[0]) && Ascending(keys[1..], names - {keys[0]})
  {
    var k, rest := keys[0], keys[1..];
    BelowTrichotomy(k, k);
    hide Below;
    assert keys == [k] + rest;
    forall j | j in names && j != k ensures Below(k, j) {
      assert j in keys;
    }
  }

  lemma {:induction false} ZippedIs(keys: seq<string>, values: seq<EvalValue>)
    requires |keys| == |values| && forall i, j :: 0 <= i < j < |keys| ==> keys[i] != keys[j]
    ensures Zipped(keys, values).Keys == (set k | k in keys)
    ensures forall i :: 0 <= i < |keys| ==> Zipped(keys, values)[keys[i]] == values[i]
  {
    if keys != [] {
      var n := |keys| - 1;
      ZippedIs(keys[..n], values[..n]);
      assert keys == keys[..n] + [keys[n]];
      assert Zipped(keys, values) == Zipped(keys[..n], values[..n])[keys[n] := values[n]];
      hide Zipped;
    }
  }

  // ---------------------------------------------------------------- every form

  lemma NotAgrees(env: Env, vars: Variables, e: Expr, r: Evaluated)
    requires e.Not? && Agrees(env, vars, e.inner)
    ensures Means(env, vars, e, r) <==> r == Eval(env, vars, e)
  {
    TruthOrNot(env, vars, e, e.inner, r);
    hide NoTruth, Agrees;
  }

  lemma IfAgrees(env: Env, vars: Variables, e: Expr, r: Evaluated)
    requires e.If? && Agrees(env, vars, e.cond) && Agrees(env, vars, e.thenBranch) && Agrees(env, vars, e.elseBranch)
    ensures Means(env, vars, e, r) <==> r == Eval(env, vars, e)
  {
    TruthOrNot(env, vars, e, e.cond, r);
    assert Means(env, vars, e.thenBranch, r) <==> r == Eval(env, vars, e.thenBranch);
    assert Means(env, vars, e.elseBranch, r) <==> r == Eval(env, vars, e.elseBranch);
    hide NoTruth, Agrees;
  }

  lemma PairAgrees(env: Env, vars: Variables, whole: Expr, a: Expr, b: Expr, r: Evaluated)
    requires a < whole && b < whole && Agrees(env, vars, a) && Agrees(env, vars, b)
    ensures PairFails(env, vars, whole, a, b, r) <==>
      r.Err? && (r == Eval(env, vars, a) || (Eval(env, vars, a).Ok? && r == Eval(env, vars, b)))
  {
    hide Eval, Means, Agrees, HasValue;
    ValueAgrees(env, vars, a, r);
    ValueAgrees(env, vars, b, r);
    HasValueIff(env, vars, whole, a);
  }

  lemma CompareAgrees(env: Env, vars: Variables, e: Expr, r: Evaluated)
    requires e.Compare? && Agrees(env, vars, e.lhs) && Agrees(env, vars, e.rhs)
    ensures Means(env, vars, e, r) <==> r == Eval(env, vars, e)
  {
    PairAgrees(env, vars, e, e.lhs, e.rhs, r);
    ValueAgrees(env, vars, e.lhs, r);
    ValueAgrees(env, vars, e.rhs, r);
    hide PairFails, Agrees, Compared;
  }

  lemma ArithmeticAgrees(env: Env, vars: Variables, e: Expr, r: Evaluated)
    requires e.Arithmetic? && Agrees(env, vars, e.left) && Agrees(env, vars, e.right)
    ensures Means(env, vars, e, r) <==> r == Eval(env, vars, e)
  {
    PairAgrees(env, vars, e, e.left, e.right, r);
    ValueAgrees(env, vars, e.left, r);
    ValueAgrees(env, vars, e.right, r);
    hide PairFails, Agrees, Computed;
  }

  lemma ListsAgree(env: Env, vars: Variables, whole: Expr, items: seq<Expr>, r: Evaluated)
    requires Within(whole, items) && AllAgree(env, vars, items)
    ensures forall values :: ListMeans(env, vars, whole, items, values) <==>
      EvalAll(env, vars, whole, items) == Ok(values)
    ensures ListFails(env, vars, whole, items, r) <==>
      EvalAll(env, vars, whole, items).Err? && r == Err(EvalAll(env, vars, whole, items).error)
  {
    forall values
      ensures ListMeans(env, vars, whole, items, values) <==> EvalAll(env, vars, whole, items) == Ok(values)
    {
      ListMeansIff(env, vars, whole, items, values);
    }
    ListFailsIff(env, vars, whole, items, r);
  }

  lemma ListLitAgrees(env: Env, vars: Variables, e: Expr, r: Evaluated)
    requires e.ListLit? && AllAgree(env, vars, e.elements)
    ensures Means(env, vars, e, r) <==> r == Eval(env, vars, e)
  {
    ListsAgree(env, vars, e, e.elements, r);
    hide ListMeans, ListFails, AllAgree, EvalAll;
    var all := EvalAll(env, vars, e, e.elements);
    if all.Ok? {
      assert ListMeans(env, vars, e, e.elements, all.value);
    }
  }

  /** The arguments in ascending order of their names. */
  lemma ArgumentsAgree(env: Env, vars: Variables, whole: Expr, args: map<string, Expr>, r: Evaluated)
    requires forall k :: k in args ==> args[k] < whole && Agrees(env, vars, args[k])
    ensures var keys := Sorted(args.Keys);
      var items := Listed(whole, args, keys);
      && Ascending(keys, args.Keys)
      && (forall values :: ListMeans(env, vars, whole, items, values) <==>
            EvalKeys(env, vars, whole, args, keys) == Ok(values))
      && (ListFails(env, vars, whole, items, r) <==>
            EvalKeys(env, vars, whole, args, keys).Err? &&
            r == Err(EvalKeys(env, vars, whole, args, keys).error))
  {
    var keys := Sorted(args.Keys);
    AscendingIff(keys, args.Keys);
    KeysAreListed(env, vars, whole, args, keys);
    hide Agrees, EvalKeys, EvalAll, ListMeans, ListFails;
    var items := Listed(whole, args, keys);
    forall i | 0 <= i < |items| ensures Agrees(env, vars, items[i]) {
      assert items[i] == args[keys[i]] && keys[i] in keys;
    }
    ListsAgree(env, vars, whole, items, r);
  }

  lemma OneAscending(names: set<string>)
    ensures forall keys :: Ascending(keys, names) <==> keys == Sorted(names)
  {
    forall keys ensures Ascending(keys, names) <==> keys == Sorted(names) {
      AscendingIff(keys, names);
    }
  }

  lemma AppliedAgrees(env: Env, vars: Variables, whole: Expr, func: string, args: map<string, Expr>, r: Evaluated)
    requires forall k :: k in args ==> args[k] < whole && Agrees(env, vars, args[k])
    ensures var keys := Sorted(args.Keys);
      var all := EvalKeys(env, vars, whole, args, keys);
      CallMeans(env, vars, whole, func, Listed(whole, args, keys), r) <==>
        r == if all.Ok? then Applied(env, func, all.value) else Err(all.error)
  {
    hide ListMeans, ListFails, Agrees, EvalKeys, Ascending, Sorted, Listed, Applied;
    ArgumentsAgree(env, vars, whole, args, r);
    var keys := Sorted(args.Keys);
    var all := EvalKeys(env, vars, whole, args, keys);
    if all.Ok? {
      assert ListMeans(env, vars, whole, Listed(whole, args, keys), all.value);
    }
  }

  lemma EvalOfCall(env: Env, vars: Variables, e: Expr)
    requires e.Call?
    ensures (forall k :: k in Sorted(e.args.Keys) ==> k in e.args && e.args[k] < e)
    ensures Eval(env, vars, e) ==
      if e.func in env.argCounts && |e.args| != env.argCounts[e.func] then Err(WrongArgumentCount)
      else
        var all := EvalKeys(env, vars, e, e.args, Sorted(e.args.Keys));
        if all.Ok? then Applied(env, e.func, all.value) else Err(all.error)
  {
    hide EvalKeys, Sorted;
  }

  lemma MeansCall(env: Env, vars: Variables, e: Expr, r: Evaluated)
    requires e.Call? && forall keys :: Ascending(keys, e.args.Keys) <==> keys == Sorted(e.args.Keys)
    ensures (forall k :: k in Sorted(e.args.Keys) ==> k in e.args && e.args[k] < e)
    ensures Means(env, vars, e, r) <==>
      if e.func in env.argCounts && |e.args| != env.argCounts[e.func] then r == Err(WrongArgumentCount)
      else CallMeans(env, vars, e, e.func, Listed(e, e.args, Sorted(e.args.Keys)), r)
  {
    hide CallMeans, Sorted, Ascending, Listed;
  }

  lemma CallAgrees(env: Env, vars: Variables, e: Expr, r: Evaluated)
    requires e.Call? && forall k :: k in e.args ==> Agrees(env, vars, e.args[k])
    ensures Means(env, vars, e, r) <==> r == Eval(env, vars, e)
  {
    hide CallMeans, Agrees, EvalKeys, Ascending, Sorted, Listed;
    assert forall k :: k in e.args ==> e.args[k] < e;
    AppliedAgrees(env, vars, e, e.func, e.args, r);
    OneAscending(e.args.Keys);
    EvalOfCall(env, vars, e);
    MeansCall(env, vars, e, r);
    hide Eval, Means;
  }

  lemma EntriesAgree(env: Env, vars: Variables, whole: Expr, entries: map<string, Expr>,
                     values: map<string, EvalValue>)
    requires forall k :: k in entries ==> entries[k] < whole && Agrees(env, vars, entries[k])
    ensures var keys := Sorted(entries.Keys);
      var all := EvalKeys(env, vars, whole, entries, keys);
      EntriesMean(env, vars, whole, entries, values) <==> all.Ok? && values == Zipped(keys, all.value)
  {
    hide EvalKeys, Eval, Sorted, Zipped, Agrees, EntriesMean;
    EntriesEvaluate(env, vars, whole, entries, values);
    KeysEvaluate(env, vars, whole, entries);
    var keys := Sorted(entries.Keys);
    var all := EvalKeys(env, vars, whole, entries, keys);
    if all.Ok? {
      EntriesZip(env, vars, entries, keys, all.value);
      SameMaps(values, Zipped(keys, all.value));
    }
  }

  lemma EntriesEvaluate(env: Env, vars: Variables, whole: Expr, entries: map<string, Expr>,
                        values: map<string, EvalValue>)
    requires forall k :: k in entries ==> entries[k] < whole && Agrees(env, vars, entries[k])
    ensures EntriesMean(env, vars, whole, entries, values) <==>
      values.Keys == entries.Keys && forall k :: k in entries ==> Eval(env, vars, entries[k]) == Ok(values[k])
  {
    hide Eval, Means, Agrees;
    forall k, v | k in entries ensures Means(env, vars, entries[k], Ok(v)) <==> Eval(env, vars, entries[k]) == Ok(v) {
      ValueAgrees(env, vars, entries[k], Ok(v));
    }
  }

  lemma KeysEvaluate(env: Env, vars: Variables, whole: Expr, entries: map<string, Expr>)
    requires forall k :: k in entries ==> entries[k] < whole
    ensures var keys := Sorted(entries.Keys);
      var all := EvalKeys(env, vars, whole, entries, keys);
      if all.Ok? then
        forall i :: 0 <= i < |keys| ==> keys[i] in entries && Eval(env, vars, entries[keys[i]]) == Ok(all.value[i])
      else exists k :: k in entries && Eval(env, vars, entries[k]).Err?
  {
    hide EvalKeys, EvalAll, Eval, Sorted;
    var keys := Sorted(entries.Keys);
    KeysAreListed(env, vars, whole, entries, keys);
    var k := FirstError(env, vars, whole, Listed(whole, entries, keys));
    if k < |keys| {
      assert keys[k] in keys && keys[k] in entries;
    } else {
      forall i | 0 <= i < |keys| ensures keys[i] in entries {
        assert keys[i] in keys;
      }
    }
  }

  lemma EntriesZip(env: Env, vars: Variables, entries: map<string, Expr>, keys: seq<string>, found: seq<EvalValue>)
    requires keys == Sorted(entries.Keys) && |found| == |keys|
    requires forall i :: 0 <= i < |keys| ==> keys[i] in entries && Eval(env, vars, entries[keys[i]]) == Ok(found[i])
    ensures Zipped(keys, found).Keys == entries.Keys
    ensures forall k :: k in entries ==> Eval(env, vars, entries[k]) == Ok(Zipped(keys, found)[k])
  {
    hide Eval, Sorted, Zipped;
    SortedOnce(keys);
    ZippedIs(keys, found);
    assert forall k :: k in keys <==> k in entries;
    forall k | k in entries ensures Eval(env, vars, entries[k]) == Ok(Zipped(keys, found)[k]) {
      var i :| 0 <= i < |keys| && keys[i] == k;
    }
  }

  lemma SameMaps(a: map<string, EvalValue>, b: map<string, EvalValue>)
    ensures a == b <==> a.Keys == b.Keys && forall k :: k in b ==> a[k] == b[k]
  {
  }

  lemma SortedOnce(keys: seq<string>)
    requires forall i, j :: 0 <= i < j < |keys| ==> Below(keys[i], keys[j])
    ensures forall i, j :: 0 <= i < j < |keys| ==> keys[i] != keys[j]
  {
    forall i, j | 0 <= i < j < |keys| ensures keys[i] != keys[j] {
      BelowTrichotomy(keys[i], keys[j]);
    }
  }

  lemma MapLitAgrees(env: Env, vars: Variables, e: Expr, r: Evaluated)
    requires e.MapLit? && forall k :: k in e.entries ==> Agrees(env, vars, e.entries[k])
    ensures Means(env, vars, e, r) <==> r == Eval(env, vars, e)
  {
    hide EntriesMean, ListFails, Agrees, EvalKeys, Ascending, Sorted, Listed, Zipped;
    assert forall k :: k in e.entries ==> e.entries[k] < e;
    ArgumentsAgree(env, vars, e, e.entries, r);
    OneAscending(e.entries.Keys);
    EvalOfMap(env, vars, e);
    MeansMap(env, vars, e, r);
    if r.Ok? && r.value.Map? {
      EntriesAgree(env, vars, e, e.entries, r.value.entries);
    }
    hide Eval, Means, ListMeans;
  }

  lemma EvalOfMap(env: Env, vars: Variables, e: Expr)
    requires e.MapLit?
    ensures (forall k :: k in Sorted(e.entries.Keys) ==> k in e.entries && e.entries[k] < e)
    ensures var keys := Sorted(e.entries.Keys);
      var all := EvalKeys(env, vars, e, e.entries, keys);
      Eval(env, vars, e) == if all.Ok? then Ok(Map(Zipped(keys, all.value))) else Err(all.error)
  {
    hide EvalKeys, Sorted, Zipped;
  }

  lemma MeansMap(env: Env, vars: Variables, e: Expr, r: Evaluated)
    requires e.MapLit? && forall keys :: Ascending(keys, e.entries.Keys) <==> keys == Sorted(e.entries.Keys)
    ensures (forall k :: k in Sorted(e.entries.Keys) ==> k in e.entries && e.entries[k] < e)
    ensures (forall k :: k in e.entries ==> e.entries[k] < e)
    ensures Means(env, vars, e, r) <==>
      (r.Ok? && r.value.Map? && EntriesMean(env, vars, e, e.entries, r.value.entries)) ||
      ListFails(env, vars, e, Listed(e, e.entries, Sorted(e.entries.Keys)), r)
  {
    hide EntriesMean, ListFails, Sorted, Ascending, Listed;
  }

  lemma ColumnAgrees(env: Env, vars: Variables, e: Expr, r: Evaluated)
    requires e.Column?
    ensures Means(env, vars, e, r) <==> r == Eval(env, vars, e)
  {
    hide Aggregate;
  }

  /** The immediate parts of an expression mean their values. */
  ghost predicate PartsAgree(env: Env, vars: Variables, e: Expr) {
    match e
    case Not(inner) => Agrees(env, vars, inner)
    case And(items) => AllAgree(env, vars, items)
    case Or(items) => AllAgree(env, vars, items)
    case Compare(_, lhs, rhs) => Agrees(env, vars, lhs) && Agrees(env, vars, rhs)
    case Arithmetic(_, left, right) => Agrees(env, vars, left) && Agrees(env, vars, right)
    case If(c, t, f) => Agrees(env, vars, c) && Agrees(env, vars, t) && Agrees(env, vars, f)
    case Call(_, args) => forall k :: k in args ==> Agrees(env, vars, args[k])
    case ListLit(elements) => AllAgree(env, vars, elements)
    case MapLit(entries) => forall k :: k in entries ==> Agrees(env, vars, entries[k])
    case _ => true
  }

  lemma FormAgrees(env: Env, vars: Variables, e: Expr, r: Evaluated)
    requires PartsAgree(env, vars, e)
    ensures Means(env, vars, e, r) <==> r == Eval(env, vars, e)
  {
    hide Agrees, AllAgree, ChainMeans, EvalUntil;
    match e
    case Column(_, _) => ColumnAgrees(env, vars, e, r);
    case Not(_) => NotAgrees(env, vars, e, r);
    case And(items) => ChainAgrees(env, vars, e, items, true, r);
    case Or(items) => ChainAgrees(env, vars, e, items, false, r);
    case Compare(_, _, _) => CompareAgrees(env, vars, e, r);
    case Arithmetic(_, _, _) => ArithmeticAgrees(env, vars, e, r);
    case If(_, _, _) => IfAgrees(env, vars, e, r);
    case Call(_, _) => CallAgrees(env, vars, e, r);
    case ListLit(_) => ListLitAgrees(env, vars, e, r);
    case MapLit(_) => MapLitAgrees(env, vars, e, r);
    case _ =>
  }

  /** Evaluation is exactly the relation: every expression means its value, and nothing else. */
  lemma {:induction false} EvalIsMeaning(env: Env, vars: Variables, e: Expr)
    ensures forall r :: Means(env, vars, e, r) <==> r == Eval(env, vars, e)
    decreases e, 2
  {
    hide Means, Eval;
    PartsAgreeEach(env, vars, e);
    forall r ensures Means(env, vars, e, r) <==> r == Eval(env, vars, e) {
      FormAgrees(env, vars, e, r);
    }
  }

  lemma {:induction false} PartsAgreeEach(env: Env, vars: Variables, e: Expr)
    ensures PartsAgree(env, vars, e)
    decreases e, 1
  {
    hide Means, Eval;
    match e
    case Not(inner) => EvalIsMeaning(env, vars, inner);
    case And(items) => ItemsAgree(env, vars, e, items);
    case Or(items) => ItemsAgree(env, vars, e, items);
    case Compare(_, lhs, rhs) => EvalIsMeaning(env, vars, lhs); EvalIsMeaning(env, vars, rhs);
    case Arithmetic(_, left, right) => EvalIsMeaning(env, vars, left); EvalIsMeaning(env, vars, right);
    case If(c, t, f) => EvalIsMeaning(env, vars, c); EvalIsMeaning(env, vars, t); EvalIsMeaning(env, vars, f);
    case Call(_, args) => forall k | k in args ensures Agrees(env, vars, args[k]) { EvalIsMeaning(env, vars, args[k]); }
    case ListLit(elements) => ItemsAgree(env, vars, e, elements);
    case MapLit(entries) =>
      forall k | k in entries ensures Agrees(env, vars, entries[k]) { EvalIsMeaning(env, vars, entries[k]); }
    case _ =>
  }

  lemma {:induction false} ItemsAgree(env: Env, vars: Variables, whole: Expr, items: seq<Expr>)
    requires Within(whole, items)
    ensures AllAgree(env, vars, items)
    decreases whole, 0
  {
    hide Means, Eval;
    forall i | 0 <= i < |items| ensures Agrees(env, vars, items[i]) {
      EvalIsMeaning(env, vars, items[i]);
    }
  }
}
