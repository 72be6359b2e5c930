/** Record batches: columns of optional cells under a schema, how JSON rows become batches, and how
    patches are spread over the batches of one tick. */
module Batches {
  import opened Machine
  import opened Columns

  /** JSON values; a number that is no 64-bit integer is the value of its double, with its text. */
  datatype Json =
    | JNull
    | JBool(b: bool)
    | JInt(n: int)
    | JFloat(x: real, text: string)
    | JString(s: string)
    | JOther(text: string)

  type JsonRow = map<string, Json>

  datatype DataType = Int64 | Int32 | UInt64 | Boolean | Utf8 | Unregistered

  datatype Field = Field(name: string, dtype: DataType, nullable: bool)

  datatype Cell = Number(n: int) | Flag(b: bool) | Text(s: string)

  type CellColumn = seq<Option<Cell>>

  type Row = seq<Option<Cell>>

  datatype Batch = Batch(schema: seq<Field>, columns: seq<CellColumn>)

  function NumRows(b: Batch): nat {
    if b.columns == [] then 0 else |b.columns[0]|
  }

  /** What every batch constructor checks: a column per field, equal lengths, no null in a non-nullable column. */
  predicate WellFormed(b: Batch) {
    b.columns != [] && |b.columns| == |b.schema| &&
    forall c :: 0 <= c < |b.columns| ==>
      |b.columns[c]| == NumRows(b) && (b.schema[c].nullable || None !in b.columns[c])
  }

  function TryNew(schema: seq<Field>, columns: seq<CellColumn>): (r: Option<Batch>)
    ensures r.Some? <==> WellFormed(Batch(schema, columns))
    ensures r.Some? ==> r.value == Batch(schema, columns)
  {
    if WellFormed(Batch(schema, columns)) then Some(Batch(schema, columns)) else None
  }

  function RowAt(b: Batch, i: nat): (row: Row)
    requires WellFormed(b) && i < NumRows(b)
    ensures |row| == |b.columns|
    ensures Admits(b.schema, row)
  {
    assert forall c :: 0 <= c < |b.columns| ==> b.columns[c][i] in b.columns[c];
    seq(|b.columns|, (c: nat) requires c < |b.columns| => b.columns[c][i])
  }

  /** The index of the first field with a name. */
  function ColumnIndex(schema: seq<Field>, name: string): (r: Option<nat>)
    ensures r.Some? ==> r.value < |schema| && schema[r.value].name == name
    ensures r.None? ==> forall f :: f in schema ==> f.name != name
  {
    if schema == [] then None
    else if schema[0].name == name then Some(0)
    else
      match ColumnIndex(schema[1..], name)
      case Some(i) => Some(i + 1)
      case None => None
  }

  // ---------------------------------------------------------------- from JSON

  /** A real number without its fraction. */
  function Truncated(x: real): (n: int)
    ensures x >= 0.0 ==> n as real <= x < n as real + 1.0
    ensures x < 0.0 ==> n as real - 1.0 < x <= n as real
  {
    if x >= 0.0 then x.Floor else -(-x).Floor
  }

  /** A cast of a double to i64: truncation that saturates. */
  function CastI64(x: real): i64 {
    var n := Truncated(x);
    if n > I64_MAX then I64_MAX else if n < I64_MIN then I64_MIN else n
  }

  const TWO63: int := 0x8000_0000_0000_0000

  /** json_to_i64: what is no i64 goes through a double, which the bounds of the check let reach 2^63. The integers that
      round to 2^63 as doubles are those up to 2^63 + 1024. */
  function ToI64(v: Json): Option<i64> {
    match v
    case JInt(n) => if FitsI64(n) then Some(n) else if TWO63 <= n <= TWO63 + 1024 then Some(I64_MAX) else None
    case JFloat(x, _) => if -(TWO63 as real) <= x <= TWO63 as real then Some(CastI64(x)) else None
    case _ => None
  }

  function ToI32(v: Json): Option<int> {
    match v
    case JInt(n) => if -0x8000_0000 <= n < 0x8000_0000 then Some(n) else None
    case JFloat(x, _) => if -0x8000_0000 <= CastI64(x) < 0x8000_0000 then Some(CastI64(x)) else None
    case _ => None
  }

  /** json_to_u64 takes a double only if it is whole. */
  function ToU64(v: Json): Option<u64> {
    match v
    case JInt(n) => if 0 <= n <= U64_MAX then Some(n) else None
    case JFloat(x, _) =>
      if 0.0 <= x < (U64_MAX + 1) as real && x == x.Floor as real then Some(x.Floor) else None
    case _ => None
  }

  function Integral(n: Option<int>): Option<Option<Cell>> {
    match n
    case Some(i) => Some(Some(Number(i)))
    case None => None
  }

  /** The cell a JSON value becomes in a column of some type; the outer None is a conversion error. */
  function Convert(v: Json, dtype: DataType): Option<Option<Cell>> {
    match (v, dtype)
    case (_, Unregistered) => None
    case (JNull, _) => Some(None)
    case (_, Int64) => Integral(ToI64(v))
    case (_, Int32) => Integral(ToI32(v))
    case (_, UInt64) => Integral(ToU64(v))
    case (JBool(b), Boolean) => Some(Some(Flag(b)))
    case (JString(s), Utf8) => Some(Some(Text(s)))
    case _ => None
  }

  /** Signed columns drop a number's fraction silently, unsigned ones refuse it. */
  lemma FractionsConvert(x: real, text: string)
    requires -0x8000_0000 as real <= x <= 0x7FFF_FFFF as real
    ensures Convert(JFloat(x, text), Int64) == Convert(JFloat(x, text), Int32) == Some(Some(Number(Truncated(x))))
    ensures Convert(JFloat(x, text), UInt64).Some? <==> x >= 0.0 && x == Truncated(x) as real
  {
  }

  function FieldValue(values: JsonRow, field: Field): Json {
    if field.name in values then values[field.name] else JNull
  }

  /** The cells of one JSON row under a schema; missing columns are null. */
  function ConvertRow(values: JsonRow, schema: seq<Field>): (r: Option<Row>)
    ensures r.Some? ==> |r.value| == |schema|
    ensures r.Some? <==> forall c :: 0 <= c < |schema| ==> Convert(FieldValue(values, schema[c]), schema[c].dtype).Some?
    ensures r.Some? ==> forall c :: 0 <= c < |schema| ==>
      r.value[c] == Convert(FieldValue(values, schema[c]), schema[c].dtype).value
  {
    if schema == [] then Some([])
    else
      match (Convert(FieldValue(values, schema[0]), schema[0].dtype), ConvertRow(values, schema[1..]))
      case (Some(cell), Some(rest)) =>
        assert schema == [schema[0]] + schema[1..];
        Some([cell] + rest)
      case (None, _) => None
      case (_, None) => assert schema == [schema[0]] + schema[1..]; None
  }

  function SingleRow(row: Row): seq<CellColumn> {
    seq(|row|, (c: nat) requires c < |row| => [row[c]])
  }

  /** A schema admits a row: there is a column at all, and no null where the column forbids it. */
  predicate Admits(schema: seq<Field>, row: Row) {
    row != [] && |row| == |schema| && forall c :: 0 <= c < |row| ==> schema[c].nullable || row[c].Some?
  }

  /** The one-row batch of some cells, if the schema admits them. */
  function RowBatch(row: Row, schema: seq<Field>): (r: Option<Batch>)
    ensures r.Some? <==> Admits(schema, row)
    ensures r.Some? ==> WellFormed(r.value) && r.value.schema == schema && NumRows(r.value) == 1
    ensures r.Some? ==> RowAt(r.value, 0) == row
  {
    assert forall b :: b == Batch(schema, SingleRow(row)) && WellFormed(b) ==> NumRows(b) == 1 && RowAt(b, 0) == row;
    assert |row| == |schema| ==> forall c :: 0 <= c < |row| ==> (None in [row[c]] <==> row[c] == None);
    TryNew(schema, SingleRow(row))
  }

  function RowToBatch(values: JsonRow, schema: seq<Field>): (r: Option<Batch>)
    ensures r.Some? ==> WellFormed(r.value) && r.value.schema == schema && NumRows(r.value) == 1
    ensures r.Some? <==> ConvertRow(values, schema).Some? && Admits(schema, ConvertRow(values, schema).value)
    ensures r.Some? ==> ConvertRow(values, schema) == Some(RowAt(r.value, 0))
  {
    match ConvertRow(values, schema)
    case None => None
    case Some(row) => RowBatch(row, schema)
  }

  // ---------------------------------------------------------------- patching one batch

  /** The one-row patch that carries a new value in one column and the old row elsewhere. */
  function UpdatePatch(b: Batch, row: nat, col: nat, v: Json): (r: Option<Batch>)
    requires WellFormed(b) && row < NumRows(b) && col < |b.columns|
    ensures r.Some? ==> WellFormed(r.value) && r.value.schema == b.schema && NumRows(r.value) == 1
    ensures r.Some? <==> Convert(v, b.schema[col].dtype).Some? &&
                         (b.schema[col].nullable || Convert(v, b.schema[col].dtype).value.Some?)
    ensures r.Some? ==> RowAt(r.value, 0) == RowAt(b, row)[col := Convert(v, b.schema[col].dtype).value]
  {
    match Convert(v, b.schema[col].dtype)
    case None => None
    case Some(cell) => RowBatch(RowAt(b, row)[col := cell], b.schema)
  }

  /** The one-row patch for a deleted row: nulls where the schema allows them. */
  function NullPatch(b: Batch, row: nat): (r: Batch)
    requires WellFormed(b) && row < NumRows(b)
    ensures WellFormed(r) && r.schema == b.schema && NumRows(r) == 1
    ensures forall c :: 0 <= c < |b.columns| ==>
      RowAt(r, 0)[c] == if b.schema[c].nullable then None else RowAt(b, row)[c]
  {
    Batch(b.schema, SingleRow(seq(|b.columns|, (c: nat) requires c < |b.columns| =>
      if b.schema[c].nullable then None else b.columns[c][row])))
  }

  function PatchedColumns(b: Batch, patch: Batch, patches: Patches): (r: seq<CellColumn>)
    requires |patch.columns| >= |b.columns|
    ensures |r| == |b.columns|
  {
    seq(|b.columns|, (c: nat) requires c < |b.columns| => PatchCells(b.columns[c], patch.columns[c], patches))
  }

  /** The batch after a list of patches, before its nullability is checked again. */
  function Patched(b: Batch, patch: Batch, patches: Patches): Batch
    requires |patch.columns| >= |b.columns|
  {
    Batch(b.schema, PatchedColumns(b, patch, patches))
  }

  /** A patch of the same schema keeps a batch well formed and replaces exactly one row. */
  lemma PatchOneRow(b: Batch, patch: Batch, row: nat)
    requires WellFormed(b) && WellFormed(patch) && patch.schema == b.schema
    requires row < NumRows(b) && NumRows(patch) == 1
    ensures WellFormed(Patched(b, patch, [(row, 0)])) && NumRows(Patched(b, patch, [(row, 0)])) == NumRows(b)
    ensures forall i :: 0 <= i < NumRows(b) ==>
      RowAt(Patched(b, patch, [(row, 0)]), i) == if i == row then RowAt(patch, 0) else RowAt(b, i)
  {
    var r := Patched(b, patch, [(row, 0)]);
    forall c | 0 <= c < |b.columns|
      ensures r.columns[c] == b.columns[c][row := patch.columns[c][0]]
      ensures |r.columns[c]| == NumRows(b) && (b.schema[c].nullable || None !in r.columns[c])
    {
      assert PatchCells(b.columns[c], patch.columns[c], [(row, 0)][..0]) == b.columns[c];
      assert patch.columns[c][0] in patch.columns[c];
    }
  }

  // ---------------------------------------------------------------- patching the batches of a tick

  /** A target row: batch index and row index. The source row is the location's own position in the list. */
  type Locations = seq<(nat, nat)>

  /** The patch has a column for every column of the batches it touches. */
  predicate PatchFits(batches: seq<Batch>, locations: Locations, patch: Batch) {
    forall l :: l in locations && l.0 < |batches| ==> |batches[l.0].columns| <= |patch.columns|
  }

  /** One location after the other, in list order; a batch index past the end is skipped. */
  function PatchInOrder(batches: seq<Batch>, locations: Locations, patch: Batch): (r: seq<Batch>)
    requires PatchFits(batches, locations, patch)
    ensures |r| == |batches|
    ensures forall b :: 0 <= b < |batches| ==>
      r[b].schema == batches[b].schema && |r[b].columns| == |batches[b].columns|
  {
    if locations == [] then batches
    else
      var last := |locations| - 1;
      assert locations[last] in locations;
      var before := PatchInOrder(batches, locations[..last], patch);
      var (b, row) := locations[last];
      if b < |batches| then before[b := Patched(before[b], patch, [(row, last)])] else before
  }

  /** The locations that fall into one batch, each with its source row. */
  function Bucket(locations: Locations, b: nat): Patches {
    if locations == [] then []
    else
      var last := |locations| - 1;
      if locations[last].0 == b then Bucket(locations[..last], b) + [(locations[last].1, last)]
      else Bucket(locations[..last], b)
  }

  lemma PatchCellsAppend<T>(cells: seq<T>, source: seq<T>, patches: Patches, p: (nat, nat))
    ensures PatchCells(cells, source, patches + [p]) == PatchCell(PatchCells(cells, source, patches), source, p)
    ensures patches == [] ==> patches + [p] == [p]
  {
    assert (patches + [p])[..|patches|] == patches;
  }

  lemma PatchedAppend(b: Batch, patch: Batch, patches: Patches, p: (nat, nat))
    requires |patch.columns| >= |b.columns|
    ensures Patched(Patched(b, patch, patches), patch, [p]) == Patched(b, patch, patches + [p])
  {
    forall c | 0 <= c < |b.columns|
      ensures Patched(Patched(b, patch, patches), patch, [p]).columns[c] == Patched(b, patch, patches + [p]).columns[c]
    {
      PatchCellsAppend(b.columns[c], patch.columns[c], patches, p);
      PatchCellsAppend(PatchCells(b.columns[c], patch.columns[c], patches), patch.columns[c], [], p);
    }
  }

  /** A batch ends up the same whether its bucket is applied at once or the list is walked in order. */
  lemma {:induction false} BucketsAgree(batches: seq<Batch>, locations: Locations, patch: Batch, b: nat)
    requires PatchFits(batches, locations, patch) && b < |batches|
    ensures Bucket(locations, b) == [] ==> PatchInOrder(batches, locations, patch)[b] == batches[b]
    ensures Bucket(locations, b) != [] ==> |batches[b].columns| <= |patch.columns| &&
                                           PatchInOrder(batches, locations, patch)[b] ==
                                             Patched(batches[b], patch, Bucket(locations, b))
  {
    if locations != [] {
      var last := |locations| - 1;
      BucketsAgree(batches, locations[..last], patch, b);
      if locations[last].0 == b {
        assert locations[last] in locations;
        PatchedAppend(batches[b], patch, Bucket(locations[..last], b), (locations[last].1, last));
      }
    }
  }

  /** Group the locations by batch, then patch the touched batches in whatever order the grouping map yields them.
      An error stops the loop where it stands. */
  method PatchGrouped(batches: seq<Batch>, locations: Locations, patch: Batch) returns (r: seq<Batch>, ok: bool)
    requires PatchFits(batches, locations, patch)
    ensures |r| == |batches|
    ensures ok ==> r == PatchInOrder(batches, locations, patch)
    ensures ok <==> forall b :: 0 <= b < |batches| && (exists l :: l in locations && l.0 == b) ==>
      WellFormed(PatchInOrder(batches, locations, patch)[b])
    ensures forall b :: 0 <= b < |batches| ==>
      r[b] == batches[b] || (r[b] == PatchInOrder(batches, locations, patch)[b] && WellFormed(r[b]))
  {
    var grouped := GroupByBatch(locations);
    ghost var goal := PatchInOrder(batches, locations, patch);
    forall b | 0 <= b < |batches|
      ensures b in grouped ==>
        |batches[b].columns| <= |patch.columns| && goal[b] == Patched(batches[b], patch, grouped[b])
      ensures b !in grouped ==> goal[b] == batches[b]
    {
      BucketsAgree(batches, locations, patch, b);
    }
    hide PatchInOrder, Bucket, WellFormed, PatchedColumns;

    r := batches;
    var remaining := grouped.Keys;
    while remaining != {}
      invariant |r| == |batches| && remaining <= grouped.Keys
      invariant forall b :: 0 <= b < |batches| ==>
        r[b] == if b in grouped && b !in remaining then goal[b] else batches[b]
      invariant forall b :: 0 <= b < |batches| && b in grouped && b !in remaining ==> WellFormed(goal[b])
    {
      var b :| b in remaining;
      remaining := remaining - {b};
      if b < |r| {
        var columns := PatchedColumns(r[b], patch, grouped[b]);
        match TryNew(r[b].schema, columns) {
          case None => return r, false;
          case Some(patched) => r := r[b := patched];
        }
      }
    }
    ok := true;
  }

  method GroupByBatch(locations: Locations) returns (grouped: map<nat, Patches>)
    ensures forall b: nat :: b in grouped <==> exists l :: l in locations && l.0 == b
    ensures forall b: nat :: Bucket(locations, b) == if b in grouped then grouped[b] else []
    ensures forall b :: b in grouped ==> grouped[b] != []
  {
    grouped := map[];
    for k := 0 to |locations|
      invariant forall b: nat :: b in grouped <==> exists l :: l in locations[..k] && l.0 == b
      invariant forall b: nat :: Bucket(locations[..k], b) == if b in grouped then grouped[b] else []
      invariant forall b :: b in grouped ==> grouped[b] != []
    {
      var (b, row) := locations[k];
      assert locations[..k + 1][..k] == locations[..k];
      assert locations[..k + 1] == locations[..k] + [locations[k]];
      grouped := grouped[b := (if b in grouped then grouped[b] else []) + [(row, k)]];
    }
    assert locations[..|locations|] == locations;
  }
}
