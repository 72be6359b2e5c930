/** What effects submit: the values they write, read back through a column, and the diff of each kind of effect. */
module EffectLaws {
  import opened Machine
  import opened FixedPoints
  import opened Modifiers
  import opened Expressions
  import opened Evaluators
  import B = Batches
  import Tables

  // ---------------------------------------------------------------- written, stored and read

  /** A cell as rule expressions see it in a column of signed integers, flags or texts. */
  function Shown(dtype: B.DataType, cell: Option<B.Cell>): ColumnCell {
    match dtype
    case Int64 =>
      IntegerCell(if cell.Some? && cell.value.Number? && FitsI64(cell.value.n) then Some(cell.value.n) else None)
    case Boolean => BooleanCell(if cell.Some? && cell.value.Flag? then Some(cell.value.b) else None)
    case Utf8 => TextCell(if cell.Some? && cell.value.Text? then Some(cell.value.s) else None)
    case _ => OtherCell
  }

  /** The value, written as JSON and stored in a column of the type, leaves this cell. */
  predicate Leaves(ctx: Context, v: EvalValue, dtype: B.DataType, cell: Option<B.Cell>) {
    Written(ctx, v).Ok? && B.Convert(Written(ctx, v).value, dtype) == Some(cell)
  }

  /** The columns made for a kind of value. */
  predicate ColumnFor(v: EvalValue, dtype: B.DataType) {
    match v
    case Truth(_) => dtype == B.Boolean
    case Text(_) => dtype == B.Utf8
    case Row(id) => dtype == B.Int64 && id <= I64_MAX
    case _ => false
  }

  /** A value is stored by the columns made for its kind, and an expression that reads the cell gets the value back,
      a row id as the number it is. */
  lemma WrittenReadsBack(ctx: Context, vars: Variables, table: string, column: string, v: EvalValue, dtype: B.DataType)
    requires ColumnFor(v, dtype) && FieldModifiers(ctx.env, table, column) == []
    ensures exists cell :: Leaves(ctx, v, dtype, cell)
    ensures forall cell ::
      Leaves(ctx, v, dtype, cell) && ctx.env.column(table, column) == Ok(Shown(dtype, cell)) ==>
      Eval(ctx.env, vars, Column(table, column)) == Ok(if v.Row? then Fixed(FixedPoint(v.id, 0)) else v)
  {
    assert Written(ctx, v).Ok?;
    var cell := B.Convert(Written(ctx, v).value, dtype);
    assert cell.Some? && Leaves(ctx, v, dtype, cell.value);
    assert forall base :: Aggregate([], base) == Ok(base);
  }

  /** A value cannot be written exactly if some number in it, however deep, cannot. */
  lemma CannotWriteIff(ctx: Context, v: EvalValue)
    ensures Written(ctx, v).Err? <==> HasBadNumber(ctx, v)
    ensures Written(ctx, v).Err? ==> Written(ctx, v).error == NotANumber
  {
    BadNumbers(ctx, v);
  }

  ghost predicate HasBadNumber(ctx: Context, v: EvalValue) {
    match v
    case Fixed(fp) => ctx.number(fp).None?
    case List(items) => exists i :: 0 <= i < |items| && HasBadNumber(ctx, items[i])
    case Map(entries) => exists k :: k in entries && HasBadNumber(ctx, entries[k])
    case _ => false
  }

  lemma {:induction false} BadNumbers(ctx: Context, v: EvalValue)
    ensures HasBadNumber(ctx, v) <==> !CanWrite(ctx, v)
  {
    match v
    case List(items) =>
      forall i | 0 <= i < |items| ensures HasBadNumber(ctx, items[i]) <==> !CanWrite(ctx, items[i]) {
        BadNumbers(ctx, items[i]);
      }
    case Map(entries) =>
      forall k | k in entries ensures HasBadNumber(ctx, entries[k]) <==> !CanWrite(ctx, entries[k]) {
        BadNumbers(ctx, entries[k]);
      }
    case _ =>
  }

  // ---------------------------------------------------------------- rows

  /** Every column gets its own value. */
  ghost predicate RowOf(ctx: Context, vars: Variables, values: map<string, Expr>, columns: seq<string>, m: B.JsonRow)
    requires forall c :: c in columns ==> c in values
  {
    && (forall c :: c in m <==> c in columns)
    && forall c :: c in m ==> WrittenValue(ctx, vars, values[c]) == Ok(m[c])
  }

  /** The first column that fails. */
  ghost predicate RowFailsAt(ctx: Context, vars: Variables, values: map<string, Expr>, columns: seq<string>, k: int)
    requires forall c :: c in columns ==> c in values
  {
    && 0 <= k < |columns| && WrittenValue(ctx, vars, values[columns[k]]).Err?
    && forall i :: 0 <= i < k ==> WrittenValue(ctx, vars, values[columns[i]]).Ok?
  }

  /** A row is written exactly if each of its columns is; otherwise the first that is not gives the error. */
  lemma {:induction false} WrittenRowIff(ctx: Context, vars: Variables, values: map<string, Expr>,
                                         columns: seq<string>)
    requires forall c :: c in columns ==> c in values
    ensures var r := WrittenRow(ctx, vars, values, columns);
      match r
      case Ok(m) => RowOf(ctx, vars, values, columns, m)
      case Err(e) =>
        exists k :: RowFailsAt(ctx, vars, values, columns, k)
                 && e == WrittenValue(ctx, vars, values[columns[k]]).error
  {
    hide WrittenValue;
    if columns != [] {
      var init := columns[..|columns| - 1];
      assert columns == init + [columns[|columns| - 1]];
      WrittenRowIff(ctx, vars, values, init);
      if WrittenRow(ctx, vars, values, init).Err? {
        var k :| RowFailsAt(ctx, vars, values, init, k) &&
          WrittenRow(ctx, vars, values, init).error == WrittenValue(ctx, vars, values[init[k]]).error;
        assert RowFailsAt(ctx, vars, values, columns, k);
      } else if WrittenValue(ctx, vars, values[columns[|columns| - 1]]).Err? {
        forall i | 0 <= i < |init| ensures WrittenValue(ctx, vars, values[columns[i]]).Ok? {
          assert init[i] in init;
        }
        assert RowFailsAt(ctx, vars, values, columns, |columns| - 1);
      }
    }
  }

  // ---------------------------------------------------------------- the three kinds of leaves

  /** An update effect submits the written value for the scope's row; an insert effect submits the written row; both
      need an open journal. A binding needs none and submits nothing. */
  lemma LeavesSubmit(ctx: Context, open: bool, st: EffectState, table: string, column: string, value: Expr, row: RowId,
                     values: map<string, Expr>, name: string)
    ensures var (after, error) := RunEffect(ctx, open, st, UpdateColumn(table, column, value));
      var j := WrittenValue(ctx, st.variables, value);
      && after.variables == st.variables
      && (error.None? <==> j.Ok? && open)
      && (error.None? ==> after.diffs == st.diffs + [Tables.Update(table, ctx.row, column, j.value)])
      && (error.Some? ==> after == st && error == Some(if j.Err? then j.error else JournalFailed))
    ensures var (after, error) := RunEffect(ctx, open, st, InsertRow(table, row, values));
      var m := WrittenRow(ctx, st.variables, values, Sorted(values.Keys));
      && after.variables == st.variables
      && (error.None? <==> m.Ok? && open)
      && (error.None? ==> after.diffs == st.diffs + [Tables.Insert(table, row, m.value)])
      && (error.Some? ==> after == st && error == Some(if m.Err? then m.error else JournalFailed))
    ensures var (after, error) := RunEffect(ctx, open, st, SetVariable(name, value));
      var v := Eval(ctx.env, st.variables, value);
      && after.diffs == st.diffs
      && (error.None? <==> v.Ok?)
      && (error.None? ==> after.variables == st.variables[name := v.value])
      && (error.Some? ==> after == st && error == Some(v.error))
  {
    hide WrittenValue, WrittenRow, Eval, Sorted;
  }
}
