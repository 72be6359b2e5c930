/** Rule expressions and what they evaluate to. Evaluation reads columns, modifiers, variables and functions, and is a
    function of them. */
module Expressions {
  import opened Machine
  import opened FixedPoints
  import opened Modifiers

  datatype CompareOp = OpEq | OpNe | OpLt | OpLe | OpGt | OpGe

  datatype ArithmeticOp = Plus | Minus | Times | Over | Rem

  datatype Expr =
    | Const(value: FixedPoint)
    | BoolLit(b: bool)
    | StringLit(s: string)
    | RowLit(row: RowId)
    | Column(table: string, column: string)
    | Var(name: string)
    | Not(inner: Expr)
    | And(items: seq<Expr>)
    | Or(items: seq<Expr>)
    | Compare(cop: CompareOp, lhs: Expr, rhs: Expr)
    | Arithmetic(aop: ArithmeticOp, left: Expr, right: Expr)
    | If(cond: Expr, thenBranch: Expr, elseBranch: Expr)
    | Call(func: string, args: map<string, Expr>)
    | ListLit(elements: seq<Expr>)
    | MapLit(entries: map<string, Expr>)

  datatype EvalValue =
    | Fixed(fp: FixedPoint)
    | Truth(b: bool)
    | Text(s: string)
    | Row(id: RowId)
    | List(items: seq<EvalValue>)
    | Map(entries: map<string, EvalValue>)

  datatype RuleError =
    | UnknownVariable(name: string)
    | TypeMismatch
    | WrongArgumentCount
    | UnsupportedOperation
    | UnsupportedColumn
    | Core(cause: CoreError)
    | QueryFailed
    | NotANumber
    | JournalFailed

  type Evaluated = Result<EvalValue, RuleError>

  /** What the current row holds in a column, by the column's kind; a missing cell reads as zero, false or empty. */
  datatype ColumnCell =
    | IntegerCell(n: Option<i64>)
    | FloatCell(rounded: CoreResult)
    | BooleanCell(f: Option<bool>)
    | TextCell(t: Option<string>)
    | OtherCell

  type Function = seq<EvalValue> -> Evaluated

  type Variables = map<string, EvalValue>

  /** All an expression can see besides variables. */
  datatype Env = Env(
    column: (string, string) -> Result<ColumnCell, RuleError>,
    modifiers: map<(string, string), seq<Modifier>>,
    functions: map<string, Function>,
    argCounts: map<string, nat>)

  // ---------------------------------------------------------------- the order of strings, and sorted keys

  predicate Below(a: string, b: string) {
    b != "" && (a == "" || a[0] < b[0] || (a[0] == b[0] && Below(a[1..], b[1..])))
  }

  lemma {:induction false} BelowTrichotomy(a: string, b: string)
    ensures Below(a, b) || a == b || Below(b, a)
    ensures !(Below(a, b) && Below(b, a)) && !(Below(a, b) && a == b)
    decreases |a|
  {
    if a != "" && b != "" && a[0] == b[0] {
      BelowTrichotomy(a[1..], b[1..]);
      assert a == [a[0]] + a[1..] && b == [b[0]] + b[1..];
    }
    if a == b && a != "" {
      BelowTrichotomy(a[1..], b[1..]);
    }
  }

  lemma {:induction false} BelowTransitive(a: string, b: string, c: string)
    requires Below(a, b) && Below(b, c)
    ensures Below(a, c)
    decreases |a|
  {
    if a != "" && a[0] == b[0] == c[0] {
      BelowTransitive(a[1..], b[1..], c[1..]);
    }
  }

  lemma {:induction false} LeastExists(s: set<string>)
    requires s != {}
    ensures exists k :: IsLeast(s, k)
    decreases |s|
  {
    var k :| k in s;
    var rest := s - {k};
    if rest == {} {
      assert s == {k};
      assert IsLeast(s, k);
    } else {
      LeastExists(rest);
      var l :| IsLeast(rest, l);
      BelowTrichotomy(k, l);
      if Below(k, l) {
        forall j | j in s && j != k ensures Below(k, j) {
          if j != l {
            BelowTransitive(k, l, j);
          }
        }
        assert IsLeast(s, k);
      } else {
        assert forall j :: j in s ==> j == k || j in rest;
        assert IsLeast(s, l);
      }
    }
  }

  predicate IsLeast(s: set<string>, k: string) {
    k in s && forall j :: j in s && j != k ==> Below(k, j)
  }

  lemma LeastUnique(s: set<string>)
    ensures forall k, l :: IsLeast(s, k) && IsLeast(s, l) ==> k == l
  {
    forall k, l | IsLeast(s, k) && IsLeast(s, l) ensures k == l {
      BelowTrichotomy(k, l);
    }
  }

  /** A finite set of strings, ascending. */
  function Sorted(s: set<string>): (r: seq<string>)
    ensures |r| == |s|
    ensures forall k :: k in r <==> k in s
    ensures forall i, j :: 0 <= i < j < |r| ==> Below(r[i], r[j])
    decreases |s|
  {
    if s == {} then []
    else
      LeastExists(s);
      LeastUnique(s);
      var k :| IsLeast(s, k);
      [k] + Sorted(s - {k})
  }

  lemma SortedPair(k: string, l: string)
    requires Below(k, l)
    ensures Sorted({k, l}) == [k, l]
  {
    var r := Sorted({k, l});
    BelowTrichotomy(k, l);
    assert |{k, l}| == 2;
    assert r[0] in r && r[1] in r && r[0] in {k, l} && r[1] in {k, l};
    assert Below(r[0], r[1]);
    BelowTrichotomy(r[0], r[1]);
  }

  // ---------------------------------------------------------------- operators

  function CompareFixed(op: CompareOp, a: FixedPoint, b: FixedPoint): bool {
    match op
    case OpEq => Eq(a, b)
    case OpNe => !Eq(a, b)
    case OpLt => Cmp(a, b) == Less
    case OpLe => Cmp(a, b) != Greater
    case OpGt => Cmp(a, b) == Greater
    case OpGe => Cmp(a, b) != Less
  }

  function CompareBool(op: CompareOp, a: bool, b: bool): bool {
    match op
    case OpEq => a == b
    case OpNe => a != b
    case _ => false
  }

  function CompareString(op: CompareOp, a: string, b: string): bool {
    match op
    case OpEq => a == b
    case OpNe => a != b
    case OpLt => Below(a, b)
    case OpLe => !Below(b, a)
    case OpGt => Below(b, a)
    case OpGe => !Below(a, b)
  }

  function CompareRow(op: CompareOp, a: RowId, b: RowId): bool {
    match op
    case OpEq => a == b
    case OpNe => a != b
    case OpLt => a < b
    case OpLe => a <= b
    case OpGt => a > b
    case OpGe => a >= b
  }

  function Compared(op: CompareOp, a: EvalValue, b: EvalValue): Evaluated {
    match (a, b)
    case (Fixed(x), Fixed(y)) => Ok(Truth(CompareFixed(op, x, y)))
    case (Truth(x), Truth(y)) => Ok(Truth(CompareBool(op, x, y)))
    case (Text(x), Text(y)) => Ok(Truth(CompareString(op, x, y)))
    case (Row(x), Row(y)) => Ok(Truth(CompareRow(op, x, y)))
    case _ => Err(TypeMismatch)
  }

  function FromCore(r: CoreResult): Evaluated {
    match r
    case Ok(fp) => Ok(Fixed(fp))
    case Err(e) => Err(Core(e))
  }

  function Computed(op: ArithmeticOp, a: EvalValue, b: EvalValue): Evaluated {
    match (a, b)
    case (Fixed(x), Fixed(y)) =>
      (match op
       case Plus => FromCore(Add(x, y))
       case Minus => FromCore(Sub(x, y))
       case Times => FromCore(Mul(x, y))
       case Over => FromCore(Div(x, y))
       case Rem => Err(UnsupportedOperation))
    case _ => Err(TypeMismatch)
  }

  // ---------------------------------------------------------------- the default functions

  /** A function of the first two arguments, on fixed-point values only. */
  function OnTwo(f: (FixedPoint, FixedPoint) -> CoreResult): Function {
    (args: seq<EvalValue>) =>
      if |args| < 2 then Err(WrongArgumentCount)
      else
        match (args[0], args[1])
        case (Fixed(x), Fixed(y)) => FromCore(f(x, y))
        case _ => Err(TypeMismatch)
  }

  function Min(x: FixedPoint, y: FixedPoint): CoreResult {
    if Cmp(x, y) == Greater then Ok(y) else Ok(x)
  }

  function Max(x: FixedPoint, y: FixedPoint): CoreResult {
    if Cmp(x, y) == Greater then Ok(x) else Ok(y)
  }

  function Negate(args: seq<EvalValue>): Evaluated {
    if args == [] then Err(WrongArgumentCount)
    else
      match args[0]
      case Truth(b) => Ok(Truth(!b))
      case _ => Err(TypeMismatch)
  }

  function DefaultFunctions(): map<string, Function> {
    map["add" := OnTwo(Add), "sub" := OnTwo(Sub), "mul" := OnTwo(Mul), "div" := OnTwo(Div),
        "min" := OnTwo(Min), "max" := OnTwo(Max), "not" := Negate]
  }

  function DefaultArgCounts(): map<string, nat> {
    map["add" := 2, "sub" := 2, "mul" := 2, "div" := 2, "min" := 2, "max" := 2, "not" := 1]
  }

  // ---------------------------------------------------------------- evaluation

  function OrMissing<T>(o: Option<T>, missing: T): T {
    match o
    case Some(v) => v
    case None => missing
  }

  function FieldModifiers(env: Env, table: string, column: string): seq<Modifier> {
    if (table, column) in env.modifiers then env.modifiers[(table, column)] else []
  }

  function EvalColumn(env: Env, table: string, column: string): Evaluated {
    var cell :- env.column(table, column);
    var mods := FieldModifiers(env, table, column);
    match cell
    case IntegerCell(n) => FromCore(Aggregate(mods, FixedPoint(OrMissing(n, 0), 0)))
    case FloatCell(Ok(fp)) => FromCore(Aggregate(mods, fp))
    case FloatCell(Err(e)) => Err(Core(e))
    case BooleanCell(b) => Ok(Truth(OrMissing(b, false)))
    case TextCell(s) => Ok(Text(OrMissing(s, "")))
    case OtherCell => Err(UnsupportedColumn)
  }

  function Zipped(keys: seq<string>, values: seq<EvalValue>): map<string, EvalValue>
    requires |keys| == |values|
  {
    if keys == [] then map[]
    else Zipped(keys[..|keys| - 1], values[..|keys| - 1])[keys[|keys| - 1] := values[|keys| - 1]]
  }

  /** The expressions a whole is made of. */
  ghost predicate Within(whole: Expr, items: seq<Expr>) {
    forall i :: 0 <= i < |items| ==> items[i] < whole
  }

  function Eval(env: Env, vars: Variables, e: Expr): Evaluated
    decreases e, 1
  {
    match e
    case Const(fp) => Ok(Fixed(fp))
    case BoolLit(b) => Ok(Truth(b))
    case StringLit(s) => Ok(Text(s))
    case RowLit(id) => Ok(Row(id))
    case Column(table, column) => EvalColumn(env, table, column)
    case Var(name) => if name in vars then Ok(vars[name]) else Err(UnknownVariable(name))
    case Not(inner) =>
      var v :- Eval(env, vars, inner);
      if v.Truth? then Ok(Truth(!v.b)) else Err(TypeMismatch)
    case And(items) => EvalUntil(env, vars, e, items, false)
    case Or(items) => EvalUntil(env, vars, e, items, true)
    case Compare(op, lhs, rhs) =>
      var a :- Eval(env, vars, lhs);
      var b :- Eval(env, vars, rhs);
      Compared(op, a, b)
    case Arithmetic(op, left, right) =>
      var a :- Eval(env, vars, left);
      var b :- Eval(env, vars, right);
      Computed(op, a, b)
    case If(cond, thenBranch, elseBranch) =>
      var c :- Eval(env, vars, cond);
      if !c.Truth? then Err(TypeMismatch)
      else if c.b then Eval(env, vars, thenBranch)
      else Eval(env, vars, elseBranch)
    case Call(func, args) =>
      if func in env.argCounts && |args| != env.argCounts[func] then Err(WrongArgumentCount)
      else
        var values :- EvalKeys(env, vars, e, args, Sorted(args.Keys));
        if func in env.functions then env.functions[func](values) else Err(UnsupportedOperation)
    case ListLit(elements) =>
      var values :- EvalAll(env, vars, e, elements);
      Ok(List(values))
    case MapLit(entries) =>
      var keys := Sorted(entries.Keys);
      var values :- EvalKeys(env, vars, e, entries, keys);
      Ok(Map(Zipped(keys, values)))
  }

  /** Truth values from the left, up to the first that decides. */
  function EvalUntil(env: Env, vars: Variables, ghost whole: Expr, items: seq<Expr>, decisive: bool): Evaluated
    requires Within(whole, items)
    decreases whole, 0, |items|
  {
    if items == [] then Ok(Truth(!decisive))
    else
      var v :- Eval(env, vars, items[0]);
      if !v.Truth? then Err(TypeMismatch)
      else if v.b == decisive then Ok(Truth(decisive))
      else EvalUntil(env, vars, whole, items[1..], decisive)
  }

  function EvalAll(env: Env, vars: Variables, ghost whole: Expr, items: seq<Expr>):
    (r: Result<seq<EvalValue>, RuleError>)
    requires Within(whole, items)
    ensures r.Ok? ==> |r.value| == |items|
    decreases whole, 0, |items|
  {
    if items == [] then Ok([])
    else
      var v :- Eval(env, vars, items[0]);
      var rest :- EvalAll(env, vars, whole, items[1..]);
      Ok([v] + rest)
  }

  function EvalKeys(env: Env, vars: Variables, ghost whole: Expr, args: map<string, Expr>, keys: seq<string>)
    : (r: Result<seq<EvalValue>, RuleError>)
    requires forall k :: k in keys ==> k in args && args[k] < whole
    ensures r.Ok? ==> |r.value| == |keys|
    decreases whole, 0, |keys|
  {
    if keys == [] then Ok([])
    else
      var v :- Eval(env, vars, args[keys[0]]);
      var rest :- EvalKeys(env, vars, whole, args, keys[1..]);
      Ok([v] + rest)
  }
}
