/** Rule effects: expressions evaluated into diffs for the journal and into variables, and what sequences of them do. */
module Evaluators {
  import opened Machine
  import opened FixedPoints
  import opened Expressions
  import opened ExpressionLaws
  import B = Batches
  import Tables
  import opened Journals

  type Diff = Tables.Diff

  datatype Effect =
    | UpdateColumn(table: string, column: string, value: Expr)
    | InsertRow(table: string, row: RowId, values: map<string, Expr>)
    | SetVariable(name: string, value: Expr)
    | Sequence(effects: seq<Effect>)

  /** What effects can see besides variables: the expressions' surroundings, the scope's row, and how numbers and
      nested values are written. */
  datatype Context = Context(env: Env, row: RowId, number: FixedPoint -> Option<B.Json>, nested: EvalValue -> string)

  /** What effects change: the variables and the journal's pending diffs. */
  datatype EffectState = EffectState(variables: Variables, diffs: seq<Diff>)

  type Ran = (EffectState, Option<RuleError>)

  // ---------------------------------------------------------------- values written as JSON

  predicate CanWrite(ctx: Context, v: EvalValue) {
    match v
    case Fixed(fp) => ctx.number(fp).Some?
    case List(items) => forall x :: x in items ==> CanWrite(ctx, x)
    case Map(entries) => forall k :: k in entries ==> CanWrite(ctx, entries[k])
    case _ => true
  }

  function Written(ctx: Context, v: EvalValue): Result<B.Json, RuleError> {
    if !CanWrite(ctx, v) then Err(NotANumber)
    else
      match v
      case Fixed(fp) => Ok(ctx.number(fp).value)
      case Truth(b) => Ok(B.JBool(b))
      case Text(s) => Ok(B.JString(s))
      case Row(id) => Ok(B.JInt(id))
      case List(_) => Ok(B.JOther(ctx.nested(v)))
      case Map(_) => Ok(B.JOther(ctx.nested(v)))
  }

  function WrittenValue(ctx: Context, vars: Variables, e: Expr): Result<B.Json, RuleError> {
    var v :- Eval(ctx.env, vars, e);
    Written(ctx, v)
  }

  function WrittenRow(ctx: Context, vars: Variables, values: map<string, Expr>,
                      columns: seq<string>): Result<B.JsonRow, RuleError>
    requires forall c :: c in columns ==> c in values
  {
    if columns == [] then Ok(map[])
    else
      var before :- WrittenRow(ctx, vars, values, columns[..|columns| - 1]);
      var c := columns[|columns| - 1];
      var j :- WrittenValue(ctx, vars, values[c]);
      Ok(before[c := j])
  }

  // ---------------------------------------------------------------- effects

  datatype Action = Submit(diff: Diff) | Bind(name: string, value: EvalValue)

  /** What an effect that is no sequence does, if it does not fail. */
  function ActionOf(ctx: Context, vars: Variables, leaf: Effect): Result<Action, RuleError>
    requires !leaf.Sequence?
  {
    match leaf
    case UpdateColumn(table, column, value) =>
      var j :- WrittenValue(ctx, vars, value);
      Ok(Submit(Tables.Update(table, ctx.row, column, j)))
    case InsertRow(table, row, values) =>
      var m :- WrittenRow(ctx, vars, values, Sorted(values.Keys));
      Ok(Submit(Tables.Insert(table, row, m)))
    case SetVariable(name, value) =>
      var v :- Eval(ctx.env, vars, value);
      Ok(Bind(name, v))
  }

  /** A journal that is not open takes no diff. */
  function Perform(open: bool, st: EffectState, action: Action): Ran {
    match action
    case Submit(d) => if open then (st.(diffs := st.diffs + [d]), None) else (st, Some(JournalFailed))
    case Bind(name, v) => (st.(variables := st.variables[name := v]), None)
  }

  function RunLeaf(ctx: Context, open: bool, st: EffectState, leaf: Effect): Ran
    requires !leaf.Sequence?
  {
    match ActionOf(ctx, st.variables, leaf)
    case Ok(action) => Perform(open, st, action)
    case Err(e) => (st, Some(e))
  }

  function RunEffect(ctx: Context, open: bool, st: EffectState, e: Effect): Ran
    decreases e, 1
  {
    if e.Sequence? then RunEach(ctx, open, st, e, e.effects) else RunLeaf(ctx, open, st, e)
  }

  ghost predicate PartOf(whole: Effect, effects: seq<Effect>) {
    forall i :: 0 <= i < |effects| ==> effects[i] < whole
  }

  /** Effects in order, up to the first that fails; what was done before it stays done. */
  function RunEach(ctx: Context, open: bool, st: EffectState, ghost whole: Effect, effects: seq<Effect>): Ran
    requires PartOf(whole, effects)
    decreases whole, 0, |effects|
  {
    if effects == [] then (st, None)
    else
      var (next, error) := RunEffect(ctx, open, st, effects[0]);
      if error.Some? then (next, error) else RunEach(ctx, open, next, whole, effects[1..])
  }

  // ---------------------------------------------------------------- a sequence acts like its leaves

  function Flatten(e: Effect): (leaves: seq<Effect>)
    ensures forall l :: l in leaves ==> !l.Sequence?
    decreases e, 1
  {
    if e.Sequence? then FlattenEach(e, e.effects) else [e]
  }

  function FlattenEach(ghost whole: Effect, effects: seq<Effect>): (leaves: seq<Effect>)
    requires PartOf(whole, effects)
    ensures forall l :: l in leaves ==> !l.Sequence?
    decreases whole, 0, |effects|
  {
    if effects == [] then [] else Flatten(effects[0]) + FlattenEach(whole, effects[1..])
  }

  function RunLeaves(ctx: Context, open: bool, st: EffectState, leaves: seq<Effect>): Ran
    requires forall l :: l in leaves ==> !l.Sequence?
    decreases |leaves|
  {
    if leaves == [] then (st, None)
    else
      var (next, error) := RunLeaf(ctx, open, st, leaves[0]);
      if error.Some? then (next, error) else RunLeaves(ctx, open, next, leaves[1..])
  }

  lemma {:induction false} LeavesJoin(ctx: Context, open: bool, st: EffectState, xs: seq<Effect>, ys: seq<Effect>)
    requires forall l :: l in xs + ys ==> !l.Sequence?
    ensures (forall l :: l in xs ==> !l.Sequence?) && (forall l :: l in ys ==> !l.Sequence?)
    ensures RunLeaves(ctx, open, st, xs + ys) ==
      (var (mid, error) := RunLeaves(ctx, open, st, xs);
       if error.Some? then (mid, error) else RunLeaves(ctx, open, mid, ys))
    decreases |xs|
  {
    assert forall l :: l in xs ==> l in xs + ys;
    assert forall l :: l in ys ==> l in xs + ys;
    if xs == [] {
      assert xs + ys == ys;
    } else {
      assert (xs + ys)[0] == xs[0] && (xs + ys)[1..] == xs[1..] + ys;
      var (next, error) := RunLeaf(ctx, open, st, xs[0]);
      LeavesJoin(ctx, open, next, xs[1..], ys);
    }
    hide RunLeaf;
  }

  /** However sequences nest, an effect does exactly what its leaves do in order, on every path. */
  lemma {:induction false} EffectIsItsLeaves(ctx: Context, open: bool, st: EffectState, e: Effect)
    ensures RunEffect(ctx, open, st, e) == RunLeaves(ctx, open, st, Flatten(e))
    decreases e, 1
  {
    if e.Sequence? {
      EachIsItsLeaves(ctx, open, st, e, e.effects);
    } else {
      assert [e][1..] == [];
      var (next, error) := RunLeaf(ctx, open, st, e);
      assert RunLeaves(ctx, open, next, []) == (next, None);
    }
    hide RunLeaf;
  }

  lemma {:induction false} EachIsItsLeaves(ctx: Context, open: bool, st: EffectState, whole: Effect,
                                           effects: seq<Effect>)
    requires PartOf(whole, effects)
    ensures RunEach(ctx, open, st, whole, effects) == RunLeaves(ctx, open, st, FlattenEach(whole, effects))
    decreases whole, 0, |effects|
  {
    if effects != [] {
      EffectIsItsLeaves(ctx, open, st, effects[0]);
      var next := RunEffect(ctx, open, st, effects[0]).0;
      EachIsItsLeaves(ctx, open, next, whole, effects[1..]);
      LeavesJoin(ctx, open, st, Flatten(effects[0]), FlattenEach(whole, effects[1..]));
    }
    hide RunLeaf;
  }

  /** So effects with the same leaves are interchangeable. */
  lemma SameLeavesSameEffect(ctx: Context, open: bool, st: EffectState, e: Effect, e': Effect)
    requires Flatten(e) == Flatten(e')
    ensures RunEffect(ctx, open, st, e) == RunEffect(ctx, open, st, e')
  {
    EffectIsItsLeaves(ctx, open, st, e);
    EffectIsItsLeaves(ctx, open, st, e');
  }

  // ---------------------------------------------------------------- where an effect stops

  /** The variables after leaves, each of which has an action. */
  function VariablesAfter(ctx: Context, vars: Variables, leaves: seq<Effect>): Variables
    requires forall l :: l in leaves ==> !l.Sequence?
  {
    if leaves == [] then vars
    else
      var before := VariablesAfter(ctx, vars, leaves[..|leaves| - 1]);
      match ActionOf(ctx, before, leaves[|leaves| - 1])
      case Ok(Bind(name, v)) => before[name := v]
      case _ => before
  }

  /** The diffs the leaves stand for, each evaluated with the variables bound before it. */
  function DiffsOf(ctx: Context, vars: Variables, leaves: seq<Effect>): seq<Diff>
    requires forall l :: l in leaves ==> !l.Sequence?
  {
    if leaves == [] then []
    else
      var before := leaves[..|leaves| - 1];
      match ActionOf(ctx, VariablesAfter(ctx, vars, before), leaves[|leaves| - 1])
      case Ok(Submit(d)) => DiffsOf(ctx, vars, before) + [d]
      case _ => DiffsOf(ctx, vars, before)
  }

  /** Why a leaf fails, if it does. */
  function Failure(ctx: Context, open: bool, vars: Variables, leaf: Effect): Option<RuleError>
    requires !leaf.Sequence?
  {
    match ActionOf(ctx, vars, leaf)
    case Err(e) => Some(e)
    case Ok(Submit(_)) => if open then None else Some(JournalFailed)
    case Ok(Bind(_, _)) => None
  }

  /** The state after some leaves ran without failing. */
  function After(ctx: Context, st: EffectState, leaves: seq<Effect>): EffectState
    requires forall l :: l in leaves ==> !l.Sequence?
  {
    EffectState(VariablesAfter(ctx, st.variables, leaves), st.diffs + DiffsOf(ctx, st.variables, leaves))
  }

  /** The first leaves run, and the next one, if there is one, fails. */
  ghost predicate StopsAt(ctx: Context, open: bool, vars: Variables, leaves: seq<Effect>, k: int)
    requires forall l :: l in leaves ==> !l.Sequence?
  {
    && 0 <= k <= |leaves|
    && (forall i :: 0 <= i < k ==> FailureAt(ctx, open, vars, leaves, i).None?)
    && (k < |leaves| ==> FailureAt(ctx, open, vars, leaves, k).Some?)
  }

  ghost function FailureAt(ctx: Context, open: bool, vars: Variables, leaves: seq<Effect>, i: int): Option<RuleError>
    requires 0 <= i < |leaves| && forall l :: l in leaves ==> !l.Sequence?
  {
    Failure(ctx, open, VariablesAfter(ctx, vars, leaves[..i]), leaves[i])
  }

  /** Whatever happens, exactly the diffs and bindings of the leaves before the failing one remain. */
  lemma {:induction false} LeavesStop(ctx: Context, open: bool, st: EffectState, leaves: seq<Effect>) returns (k: nat)
    requires forall l :: l in leaves ==> !l.Sequence?
    ensures StopsAt(ctx, open, st.variables, leaves, k)
    ensures RunLeaves(ctx, open, st, leaves) ==
      (After(ctx, st, leaves[..k]), if k == |leaves| then None else FailureAt(ctx, open, st.variables, leaves, k))
    decreases |leaves|
  {
    k := 0;
    if leaves == [] {
      assert leaves[..0] == [] && st.diffs + [] == st.diffs;
      assert After(ctx, st, leaves[..0]) == st;
    } else {
      hide RunLeaves, FailureAt, StopsAt, After;
      var n := |leaves| - 1;
      k := LeavesStop(ctx, open, st, leaves[..n]);
      if k == n {
        k := LastLeafStops(ctx, open, st, leaves, n);
      } else {
        EarlierStop(ctx, open, st, leaves, n, k);
      }
    }
  }

  /** Leaves that stop before their end stop there whatever follows them. */
  lemma EarlierStop(ctx: Context, open: bool, st: EffectState, leaves: seq<Effect>, n: nat, k: nat)
    requires k < n <= |leaves| && forall l :: l in leaves ==> !l.Sequence?
    requires StopsAt(ctx, open, st.variables, leaves[..n], k)
    requires RunLeaves(ctx, open, st, leaves[..n]) ==
      (After(ctx, st, leaves[..n][..k]), FailureAt(ctx, open, st.variables, leaves[..n], k))
    ensures StopsAt(ctx, open, st.variables, leaves, k)
    ensures RunLeaves(ctx, open, st, leaves) ==
      (After(ctx, st, leaves[..k]), FailureAt(ctx, open, st.variables, leaves, k))
  {
    hide RunLeaves, After, FailureAt;
    assert leaves == leaves[..n] + leaves[n..] && leaves[..n][..k] == leaves[..k];
    LeavesJoin(ctx, open, st, leaves[..n], leaves[n..]);
    PrefixFails(ctx, open, st.variables, leaves, n);
  }

  /** If the leaves before the last ran, all run or the last one fails. */
  lemma LastLeafStops(ctx: Context, open: bool, st: EffectState, leaves: seq<Effect>, n: nat) returns (k: nat)
    requires |leaves| == n + 1 && forall l :: l in leaves ==> !l.Sequence?
    requires StopsAt(ctx, open, st.variables, leaves[..n], n)
    requires RunLeaves(ctx, open, st, leaves[..n]) == (After(ctx, st, leaves[..n][..n]), None)
    ensures StopsAt(ctx, open, st.variables, leaves, k)
    ensures RunLeaves(ctx, open, st, leaves) ==
      (After(ctx, st, leaves[..k]), if k == |leaves| then None else FailureAt(ctx, open, st.variables, leaves, k))
  {
    assert leaves == leaves[..n] + [leaves[n]] && leaves[..n][..n] == leaves[..n] && leaves[..n + 1] == leaves;
    LeavesJoin(ctx, open, st, leaves[..n], [leaves[n]]);
    PrefixFails(ctx, open, st.variables, leaves, n);
    OneLeaf(ctx, open, After(ctx, st, leaves[..n]), leaves[n]);
    hide RunLeaf, RunLeaves, Failure, VariablesAfter, DiffsOf;
    k := n;
    if FailureAt(ctx, open, st.variables, leaves, n).None? {
      AfterOneMore(ctx, open, st, leaves);
      k := n + 1;
    }
  }

  lemma PrefixFails(ctx: Context, open: bool, vars: Variables, leaves: seq<Effect>, n: nat)
    requires n <= |leaves| && forall l :: l in leaves ==> !l.Sequence?
    ensures forall i :: 0 <= i < n ==>
      FailureAt(ctx, open, vars, leaves[..n], i) == FailureAt(ctx, open, vars, leaves, i)
  {
    assert forall i :: 0 <= i < n ==> leaves[..n][..i] == leaves[..i];
    hide Failure, VariablesAfter;
  }

  lemma AfterOneMore(ctx: Context, open: bool, st: EffectState, leaves: seq<Effect>)
    requires leaves != [] && forall l :: l in leaves ==> !l.Sequence?
    requires FailureAt(ctx, open, st.variables, leaves, |leaves| - 1).None?
    ensures RunLeaf(ctx, open, After(ctx, st, leaves[..|leaves| - 1]), leaves[|leaves| - 1]).0 == After(ctx, st, leaves)
  {
    hide ActionOf;
  }

  lemma OneLeaf(ctx: Context, open: bool, st: EffectState, leaf: Effect)
    requires !leaf.Sequence?
    ensures RunLeaves(ctx, open, st, [leaf]) == RunLeaf(ctx, open, st, leaf)
    ensures RunLeaf(ctx, open, st, leaf).1 == Failure(ctx, open, st.variables, leaf)
    ensures Failure(ctx, open, st.variables, leaf).Some? ==> RunLeaf(ctx, open, st, leaf).0 == st
  {
    assert [leaf][1..] == [];
    assert RunLeaves(ctx, open, RunLeaf(ctx, open, st, leaf).0, []) == (RunLeaf(ctx, open, st, leaf).0, None);
    hide ActionOf;
  }

  /** What an effect did when it came to an end, good or bad: the leaves before one place ran, and nothing else. */
  lemma EffectStops(ctx: Context, open: bool, st: EffectState, e: Effect) returns (k: nat)
    ensures StopsAt(ctx, open, st.variables, Flatten(e), k)
    ensures RunEffect(ctx, open, st, e) ==
      (After(ctx, st, Flatten(e)[..k]),
       if k == |Flatten(e)| then None else FailureAt(ctx, open, st.variables, Flatten(e), k))
  {
    EffectIsItsLeaves(ctx, open, st, e);
    k := LeavesStop(ctx, open, st, Flatten(e));
  }

  /** An effect succeeds exactly when none of its leaves fails in its turn. */
  lemma EffectSucceedsIff(ctx: Context, open: bool, st: EffectState, e: Effect)
    ensures RunEffect(ctx, open, st, e).1.None? <==>
      forall i :: 0 <= i < |Flatten(e)| ==> FailureAt(ctx, open, st.variables, Flatten(e), i).None?
  {
    var k := EffectStops(ctx, open, st, e);
    hide *;
    hide StopsAt;
  }

  // ---------------------------------------------------------------- what effects see

  /** Effects read the published state, never the diffs submitted before them: repeating an update submits the very same
      diff again, so incrementing a column twice in one tick increments it once. */
  lemma RepeatedUpdate(ctx: Context, st: EffectState, table: string, column: string, value: Expr)
    requires WrittenValue(ctx, st.variables, value).Ok?
    ensures
      var update := UpdateColumn(table, column, value);
      var d := Tables.Update(table, ctx.row, column, WrittenValue(ctx, st.variables, value).value);
      RunEffect(ctx, true, st, Sequence([update, update])) == (st.(diffs := st.diffs + [d, d]), None)
  {
    var update := UpdateColumn(table, column, value);
    var d := Tables.Update(table, ctx.row, column, WrittenValue(ctx, st.variables, value).value);
    var once := st.(diffs := st.diffs + [d]);
    TwoEffects(ctx, true, st, update, update);
    assert RunEffect(ctx, true, st, update) == (once, None);
    assert RunEffect(ctx, true, once, update) == (once.(diffs := once.diffs + [d]), None);
    assert once.diffs + [d] == st.diffs + [d, d];
    hide WrittenValue, RunEach;
  }

  lemma TwoEffects(ctx: Context, open: bool, st: EffectState, a: Effect, b: Effect)
    ensures RunEffect(ctx, open, st, Sequence([a, b])) ==
      (var (mid, error) := RunEffect(ctx, open, st, a);
       if error.Some? then (mid, error) else RunEffect(ctx, open, mid, b))
  {
    var whole := Sequence([a, b]);
    var effects := [a, b];
    assert effects[1..] == [b] && [b][1..] == [];
    assert PartOf(whole, effects);
    assert effects[1] == b;
    var mid := RunEffect(ctx, open, st, a).0;
    var last := RunEffect(ctx, open, mid, b);
    assert RunEach(ctx, open, last.0, whole, []) == (last.0, None);
    assert RunEach(ctx, open, mid, whole, [b]) == last;
    hide RunLeaf;
  }

  /** Binding a variable that an update does not mention may change places with the update: both orders fail alike, and
      end alike exactly unless the update fails and the binding is new. */
  lemma UnmentionedBindingCommutes(ctx: Context, open: bool, st: EffectState, name: string, bound: Expr,
                                   table: string, column: string, value: Expr)
    requires !Mentions(value, name) && Eval(ctx.env, st.variables, bound).Ok?
    ensures
      var set_, update := SetVariable(name, bound), UpdateColumn(table, column, value);
      var first := RunEffect(ctx, open, st, Sequence([set_, update]));
      var second := RunEffect(ctx, open, st, Sequence([update, set_]));
      && first.1 == second.1
      && (first == second <==>
            first.1.None? || (name in st.variables && st.variables[name] == Eval(ctx.env, st.variables, bound).value))
  {
    var set_, update := SetVariable(name, bound), UpdateColumn(table, column, value);
    var v := Eval(ctx.env, st.variables, bound).value;
    var changed := st.(variables := st.variables[name := v]);
    TwoEffects(ctx, open, st, set_, update);
    TwoEffects(ctx, open, st, update, set_);
    BindingRuns(ctx, open, st, name, bound);
    UpdateIgnoresBinding(ctx, open, st, name, v, update);
    BindingRuns(ctx, open, RunEffect(ctx, open, st, update).0, name, bound);
    hide RunEffect, Eval;
    assert st.variables[name := v] == st.variables <==> name in st.variables && st.variables[name] == v;
  }

  lemma BindingRuns(ctx: Context, open: bool, st: EffectState, name: string, bound: Expr)
    requires Eval(ctx.env, st.variables, bound).Ok?
    ensures RunEffect(ctx, open, st, SetVariable(name, bound)) ==
      (st.(variables := st.variables[name := Eval(ctx.env, st.variables, bound).value]), None)
  {
    hide Eval, RunEach;
  }

  lemma UpdateIgnoresBinding(ctx: Context, open: bool, st: EffectState, name: string, v: EvalValue, update: Effect)
    requires update.UpdateColumn? && !Mentions(update.value, name)
    ensures
      var changed := st.(variables := st.variables[name := v]);
      var r, r' := RunEffect(ctx, open, st, update), RunEffect(ctx, open, changed, update);
      && r.1 == r'.1 && r.0.variables == st.variables && r'.0.variables == changed.variables && r.0.diffs == r'.0.diffs
      && (r.1.Some? ==> r.0 == st)
  {
    Locality(ctx.env, st.variables, st.variables[name := v], update.value);
    hide Eval, Written, RunEach;
  }

  // ---------------------------------------------------------------- the evaluator

  class Evaluator {
    const journal: Journal
    const context: Context
    var variables: Variables

    constructor (journal: Journal, context: Context)
      ensures this.journal == journal && this.context == context && variables == map[]
    {
      this.journal, this.context := journal, context;
      variables := map[];
    }

    function State(): EffectState
      reads this, journal
    {
      EffectState(variables, journal.pendingDiffs)
    }

    method SubmitDiff(d: Diff) returns (error: Option<RuleError>)
      modifies journal`pendingDiffs
      ensures (State(), error) == Perform(journal.phase == Open, old(State()), Submit(d))
    {
      var refused := journal.SubmitDiff(d);
      error := if refused.Some? then Some(JournalFailed) else None;
    }

    method BindVar(name: string, value: EvalValue)
      modifies this`variables
      ensures (State(), None) == Perform(journal.phase == Open, old(State()), Bind(name, value))
    {
      variables := variables[name := value];
    }

    /** Only variables and the journal's pending diffs change. */
    method EvaluateEffect(effect: Effect) returns (error: Option<RuleError>)
      modifies this`variables, journal`pendingDiffs
      ensures (State(), error) == RunEffect(context, journal.phase == Open, old(State()), effect)
      decreases effect, 1
    {
      match effect {
        case UpdateColumn(table, column, value) =>
          var j := WrittenValue(context, variables, value);
          if j.Err? { return Some(j.error); }
          error := SubmitDiff(Tables.Update(table, context.row, column, j.value));
        case InsertRow(table, newRow, values) =>
          var m := EvaluateRow(values);
          if m.Err? { return Some(m.error); }
          error := SubmitDiff(Tables.Insert(table, newRow, m.value));
        case SetVariable(name, value) =>
          var v := Eval(context.env, variables, value);
          if v.Err? { return Some(v.error); }
          BindVar(name, v.value);
          error := None;
        case Sequence(effects) =>
          error := EvaluateEach(effect, effects);
      }
    }

    method EvaluateRow(values: map<string, Expr>) returns (r: Result<B.JsonRow, RuleError>)
      ensures r == WrittenRow(context, variables, values, Sorted(values.Keys))
    {
      var columns := Sorted(values.Keys);
      var evaluated: B.JsonRow := map[];
      hide Sorted, WrittenRow, WrittenValue;
      RowSteps(context, variables, values, columns);
      for i := 0 to |columns|
        invariant WrittenRow(context, variables, values, columns[..i]) == Ok(evaluated)
      {
        RowGrows(context, variables, values, columns, i);
        var j := WrittenValue(context, variables, values[columns[i]]);
        if j.Err? {
          FailedColumnFailsRow(context, variables, values, columns, i + 1);
          return Err(j.error);
        }
        evaluated := evaluated[columns[i] := j.value];
      }
      assert columns[..|columns|] == columns;
      r := Ok(evaluated);
    }

    method EvaluateEach(ghost whole: Effect, effects: seq<Effect>) returns (error: Option<RuleError>)
      requires PartOf(whole, effects)
      modifies this`variables, journal`pendingDiffs
      ensures (State(), error) == RunEach(context, journal.phase == Open, old(State()), whole, effects)
      decreases whole, 0
    {
      for i := 0 to |effects|
        invariant PartOf(whole, effects[i..])
        invariant RunEach(context, journal.phase == Open, old(State()), whole, effects) ==
                  RunEach(context, journal.phase == Open, State(), whole, effects[i..])
      {
        assert effects[i..][1..] == effects[i + 1..] && effects[i..][0] == effects[i];
        error := EvaluateEffect(effects[i]);
        if error.Some? {
          return;
        }
      }
      error := None;
    }
  }

  lemma RowSteps(ctx: Context, vars: Variables, values: map<string, Expr>, columns: seq<string>)
    requires forall c :: c in columns ==> c in values
    ensures WrittenRow(ctx, vars, values, columns[..0]) == Ok(map[])
  {
  }

  lemma RowGrows(ctx: Context, vars: Variables, values: map<string, Expr>, columns: seq<string>, i: nat)
    requires i < |columns| && forall c :: c in columns ==> c in values
    ensures WrittenRow(ctx, vars, values, columns[..i + 1]) ==
      (var before := WrittenRow(ctx, vars, values, columns[..i]);
       var j := WrittenValue(ctx, vars, values[columns[i]]);
       if before.Err? then before else if j.Err? then Err(j.error) else Ok(before.value[columns[i] := j.value]))
  {
    assert columns[..i + 1][..i] == columns[..i];
    hide WrittenValue;
  }

  lemma {:induction false} FailedColumnFailsRow(ctx: Context, vars: Variables, values: map<string, Expr>,
                                                columns: seq<string>, n: nat)
    requires n <= |columns| && (forall c :: c in columns ==> c in values)
    requires forall c :: c in columns[..n] ==> c in values
    requires WrittenRow(ctx, vars, values, columns[..n]).Err?
    ensures WrittenRow(ctx, vars, values, columns) == WrittenRow(ctx, vars, values, columns[..n])
    decreases |columns|
  {
    if n < |columns| {
      assert columns[..|columns| - 1][..n] == columns[..n];
      FailedColumnFailsRow(ctx, vars, values, columns[..|columns| - 1], n);
    } else {
      assert columns[..n] == columns;
    }
  }
}
