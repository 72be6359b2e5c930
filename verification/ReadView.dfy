/** The read view of one table: batches merged into one, and positions rebased onto the merged batch. */
module ReadViews {
  import opened Machine
  import opened Batches
  import opened KeyIndexes
  import opened Tables
  import opened TableRefinement

  type Positions = map<RowId, Position>

  datatype View = View(table: string, tick: Tick, batches: seq<Batch>, positions: Positions)

  predicate AllWellFormed(batches: seq<Batch>) {
    forall b :: b in batches ==> WellFormed(b)
  }

  predicate OneSchema(batches: seq<Batch>) {
    forall b :: b in batches ==> b.schema == batches[0].schema
  }

  function RowCounts(batches: seq<Batch>): (counts: seq<nat>)
    ensures |counts| == |batches|
  {
    seq(|batches|, (i: nat) requires i < |batches| => NumRows(batches[i]))
  }

  /** The number of rows before batch b. */
  function Base(counts: seq<nat>, b: nat): nat
    requires b <= |counts|
  {
    if b == 0 then 0 else Base(counts, b - 1) + counts[b - 1]
  }

  function ConcatColumn(batches: seq<Batch>, c: nat): CellColumn
    requires forall b :: b in batches ==> c < |b.columns|
  {
    if batches == [] then []
    else ConcatColumn(batches[..|batches| - 1], c) + batches[|batches| - 1].columns[c]
  }

  predicate Mergeable(batches: seq<Batch>) {
    batches != [] && AllWellFormed(batches) && OneSchema(batches)
  }

  lemma MergeableColumns(batches: seq<Batch>)
    requires Mergeable(batches)
    ensures forall b :: b in batches ==> |b.columns| == |batches[0].columns| == |batches[0].schema|
  {
    assert batches[0] in batches;
  }

  /** The rows of all batches, one after the other, in one batch. */
  function Concat(batches: seq<Batch>): Batch
    requires Mergeable(batches)
  {
    MergeableColumns(batches);
    Batch(batches[0].schema,
      seq(|batches[0].columns|, (c: nat) requires c < |batches[0].columns| => ConcatColumn(batches, c)))
  }

  lemma {:induction false} ConcatColumnAt(batches: seq<Batch>, c: nat, b: nat, o: nat)
    requires AllWellFormed(batches) && (forall x :: x in batches ==> c < |x.columns|)
    requires b < |batches| && o < NumRows(batches[b])
    ensures |ConcatColumn(batches, c)| == Base(RowCounts(batches), |batches|)
    ensures Base(RowCounts(batches), b) + o < |ConcatColumn(batches, c)|
    ensures ConcatColumn(batches, c)[Base(RowCounts(batches), b) + o] == batches[b].columns[c][o]
    decreases |batches|
  {
    var last := |batches| - 1;
    var before := batches[..last];
    ConcatColumnLength(before, c);
    ConcatColumnLength(batches, c);
    BasePrefix(batches, last, b);
    BasePrefix(batches, last, last);
    assert batches[last] in batches && batches[b] in batches;
    if b < last {
      ConcatColumnAt(before, c, b, o);
    }
  }

  lemma {:induction false} ConcatColumnLength(batches: seq<Batch>, c: nat)
    requires AllWellFormed(batches) && (forall x :: x in batches ==> c < |x.columns|)
    ensures |ConcatColumn(batches, c)| == Base(RowCounts(batches), |batches|)
  {
    if batches != [] {
      var last := |batches| - 1;
      ConcatColumnLength(batches[..last], c);
      BasePrefix(batches, last, last);
      assert batches[last] in batches;
    }
  }

  /** Row counts of a prefix give the same bases. */
  lemma {:induction false} BasePrefix(batches: seq<Batch>, n: nat, b: nat)
    requires b <= n <= |batches|
    ensures Base(RowCounts(batches[..n]), b) == Base(RowCounts(batches), b)
  {
    if b > 0 {
      BasePrefix(batches, n, b - 1);
    }
  }

  lemma ConcatWellFormed(batches: seq<Batch>)
    requires Mergeable(batches)
    ensures WellFormed(Concat(batches)) && NumRows(Concat(batches)) == Base(RowCounts(batches), |batches|)
  {
    MergeableColumns(batches);
    var m := Concat(batches);
    assert batches[0] in batches && m.columns != [];
    forall c | 0 <= c < |m.columns|
      ensures |m.columns[c]| == Base(RowCounts(batches), |batches|)
      ensures m.schema[c].nullable || None !in m.columns[c]
    {
      ConcatColumnLength(batches, c);
      if !m.schema[c].nullable { ConcatKeepsNonNull(batches, c); }
    }
    hide ConcatColumn, Base;
  }

  lemma {:induction false} ConcatKeepsNonNull(batches: seq<Batch>, c: nat)
    requires forall x :: x in batches ==> c < |x.columns| && None !in x.columns[c]
    ensures None !in ConcatColumn(batches, c)
  {
    if batches != [] {
      ConcatKeepsNonNull(batches[..|batches| - 1], c);
      assert batches[|batches| - 1] in batches;
    }
  }

  /** Row o of batch b is row Base(b) + o of the merged batch. */
  lemma ConcatRow(batches: seq<Batch>, b: nat, o: nat)
    requires Mergeable(batches) && b < |batches| && o < NumRows(batches[b])
    ensures WellFormed(Concat(batches)) && Base(RowCounts(batches), b) + o < NumRows(Concat(batches))
    ensures WellFormed(batches[b])
    ensures RowAt(Concat(batches), Base(RowCounts(batches), b) + o) == RowAt(batches[b], o)
  {
    ConcatWellFormed(batches);
    MergeableColumns(batches);
    assert batches[b] in batches;
    var i := Base(RowCounts(batches), b) + o;
    forall c: nat | c < |batches[0].columns|
      ensures i < |ConcatColumn(batches, c)| && ConcatColumn(batches, c)[i] == batches[b].columns[c][o]
    {
      ConcatColumnAt(batches, c, b, o);
    }
    hide ConcatColumn, Base, WellFormed, Mergeable;
    assert i < |Concat(batches).columns[0]|;
    SameRow(Concat(batches), i, batches[b], o);
  }

  lemma SameRow(m: Batch, i: nat, b: Batch, o: nat)
    requires WellFormed(m) && WellFormed(b) && i < NumRows(m) && o < NumRows(b) && |m.columns| == |b.columns|
    requires forall c :: 0 <= c < |m.columns| ==> m.columns[c][i] == b.columns[c][o]
    ensures RowAt(m, i) == RowAt(b, o)
  {
  }

  // ---------------------------------------------------------------- rebasing positions

  predicate InRange(p: Position, counts: seq<nat>) {
    p.0 < |counts| && p.1 < counts[p.0]
  }

  /** The in-range positions on the merged batch; the others are dropped. */
  function Rebased(positions: Positions, counts: seq<nat>): Positions {
    map r | r in positions && InRange(positions[r], counts) :: (0, Base(counts, positions[r].0) + positions[r].1)
  }

  function SatAdd(x: nat, y: nat): nat {
    if x + y <= U64_MAX then x + y else U64_MAX
  }

  lemma {:induction false} BaseMonotone(counts: seq<nat>, b: nat, b': nat)
    requires b <= b' <= |counts|
    ensures Base(counts, b) <= Base(counts, b')
    ensures b < b' ==> Base(counts, b) + counts[b] <= Base(counts, b')
  {
    if b < b' {
      BaseMonotone(counts, b, b' - 1);
    }
  }

  lemma BaseOfNone(counts: seq<nat>)
    ensures Base(counts, 0) == 0 && Bases([], counts, 0)
  {
  }

  /** The bases of the first n batches. */
  ghost predicate Bases(offsets: seq<nat>, counts: seq<nat>, n: nat)
    requires n <= |counts|
  {
    |offsets| == n && forall b :: 0 <= b < n ==> offsets[b] == Base(counts, b)
  }

  lemma BasesNext(offsets: seq<nat>, counts: seq<nat>, n: nat)
    requires n < |counts| && Bases(offsets, counts, n)
    ensures Bases(offsets + [Base(counts, n)], counts, n + 1)
  {
    hide Base;
  }

  lemma BasesMean(offsets: seq<nat>, counts: seq<nat>)
    requires Bases(offsets, counts, |counts|)
    ensures |offsets| == |counts| && forall b :: 0 <= b < |counts| ==> offsets[b] == Base(counts, b)
  {
    hide Base;
  }

  lemma BaseNext(counts: seq<nat>, i: nat)
    requires i < |counts|
    ensures Base(counts, i + 1) == Base(counts, i) + counts[i]
  {
  }

  method BatchOffsets(counts: seq<nat>) returns (offsets: seq<nat>)
    requires Base(counts, |counts|) <= U64_MAX
    ensures |offsets| == |counts| && forall b :: 0 <= b < |counts| ==> offsets[b] == Base(counts, b)
  {
    offsets := [];
    var offset: nat := 0;
    BaseOfNone(counts);
    hide Base, Bases;
    for i := 0 to |counts|
      invariant offset == Base(counts, i)
      invariant Bases(offsets, counts, i)
    {
      BasesNext(offsets, counts, i);
      offsets := offsets + [offset];
      BaseMonotone(counts, i + 1, |counts|);
      BaseNext(counts, i);
      offset := SatAdd(offset, counts[i]);
    }
    BasesMean(offsets, counts);
  }

  /** Accumulate the batch offsets, then walk the row ids in whatever order the map yields them. The merged batch
      exists, so its row count fits the machine word. */
  method RebasePositionMap(positions: Positions, counts: seq<nat>) returns (rebased: Positions)
    requires Base(counts, |counts|) <= U64_MAX
    ensures rebased == Rebased(positions, counts)
  {
    var offsets := BatchOffsets(counts);
    rebased := map[];
    var remaining := positions.Keys;
    assert Rebased(Visited(positions, remaining), counts) == map[];
    while remaining != {}
      invariant remaining <= positions.Keys
      invariant rebased == Rebased(Visited(positions, remaining), counts)
    {
      hide Rebased, Visited;
      var row :| row in remaining;
      var (batchIdx, rowOffset) := positions[row];
      RebasedVisit(positions, remaining, counts, row);
      remaining := remaining - {row};
      if batchIdx < |offsets| && rowOffset < counts[batchIdx] {
        BaseMonotone(counts, batchIdx, |counts|);
        rebased := rebased[row := (0, SatAdd(offsets[batchIdx], rowOffset))];
      }
    }
    assert Visited(positions, remaining) == positions;
  }

  function Visited(positions: Positions, remaining: set<RowId>): Positions {
    map r | r in positions && r !in remaining :: positions[r]
  }

  lemma RebasedVisit(positions: Positions, remaining: set<RowId>, counts: seq<nat>, row: RowId)
    requires row in positions && row in remaining
    ensures Rebased(Visited(positions, remaining - {row}), counts) ==
      if InRange(positions[row], counts) then
        Rebased(Visited(positions, remaining), counts)[row := (0, Base(counts, positions[row].0) + positions[row].1)]
      else Rebased(Visited(positions, remaining), counts)
  {
    hide Base;
  }

  /** Exactly the in-range rows survive rebasing, and distinct positions stay distinct. */
  lemma RebasedIsInjective(positions: Positions, counts: seq<nat>)
    requires forall r, q :: r in positions && q in positions && positions[r] == positions[q] ==> r == q
    ensures forall r: RowId :: r in Rebased(positions, counts) <==> r in positions && InRange(positions[r], counts)
    ensures var m := Rebased(positions, counts); forall r, q :: r in m && q in m && m[r] == m[q] ==> r == q
  {
    var m := Rebased(positions, counts);
    forall r, q | r in m && q in m && m[r] == m[q] ensures r == q {
      var p, s := positions[r], positions[q];
      if p.0 < s.0 { BaseMonotone(counts, p.0, s.0); }
      if s.0 < p.0 { BaseMonotone(counts, s.0, p.0); }
    }
  }

  // ---------------------------------------------------------------- building a view

  /** When concatenation succeeds: one schema, and a row count that a machine word can hold. */
  predicate Merges(batches: seq<Batch>) {
    |batches| > 1 && Mergeable(batches) && Base(RowCounts(batches), |batches|) <= U64_MAX
  }

  function MergedBatches(batches: seq<Batch>): (r: seq<Batch>)
    requires AllWellFormed(batches)
    ensures AllWellFormed(r)
  {
    if Merges(batches) then ConcatWellFormed(batches); [Concat(batches)] else batches
  }

  method NewView(table: string, tick: Tick, batches: seq<Batch>, positions: Positions) returns (view: View)
    requires AllWellFormed(batches)
    ensures view == ViewOf(table, tick, batches, positions)
  {
    var rowCounts := RowCounts(batches);
    if Merges(batches) {
      ConcatWellFormed(batches);
      var rebased := RebasePositionMap(positions, rowCounts);
      view := View(table, tick, [Concat(batches)], rebased);
    } else {
      view := View(table, tick, batches, positions);
    }
  }

  function ViewOf(table: string, tick: Tick, batches: seq<Batch>, positions: Positions): View
    requires AllWellFormed(batches)
  {
    View(table, tick, MergedBatches(batches),
         if Merges(batches) then Rebased(positions, RowCounts(batches)) else positions)
  }

  /** The row a reader gets for a row id. */
  function ReadRow(batches: seq<Batch>, positions: Positions, row: RowId): Option<Row>
    requires AllWellFormed(batches)
  {
    if row in positions && InRange(positions[row], RowCounts(batches)) then
      Some(RowAt(batches[positions[row].0], positions[row].1))
    else None
  }

  /** Merged or not, a view gives for every row id the row that the original batches and positions give. */
  lemma ViewReadsOriginal(table: string, tick: Tick, batches: seq<Batch>, positions: Positions, row: RowId)
    requires AllWellFormed(batches)
    ensures var v := ViewOf(table, tick, batches, positions);
      AllWellFormed(v.batches) && ReadRow(v.batches, v.positions, row) == ReadRow(batches, positions, row)
  {
    if Merges(batches) && row in positions && InRange(positions[row], RowCounts(batches)) {
      ConcatRow(batches, positions[row].0, positions[row].1);
      assert RowCounts([Concat(batches)])[0] == NumRows(Concat(batches));
    }
    hide RowAt, WellFormed, ConcatColumn, Base;
  }

  /** The row is not located in a later tick than this. */
  predicate NotLater(t: Table, row: RowId, tick: Tick) {
    row in t.positions ==>
      var located := LocTick(t.versions, t.positions[row].0);
      located.None? || located.value <= tick
  }

  /** A view of a tick shows a row that is not located later exactly if it is located in that tick, as the table has it;
      a live row located in an older tick is not there. */
  lemma ViewShowsRowsOfTick(t: Table, name: string, tick: Tick, row: RowId)
    requires BatchesWellFormed(t.versions) && NotLater(t, row, tick)
    ensures AllWellFormed(BatchesAt(t.versions, tick))
    ensures var v := ViewOf(name, tick, BatchesAt(t.versions, tick), t.positions);
      ReadRow(v.batches, v.positions, row) ==
        if row in AbsRows(t) && LocTick(t.versions, t.positions[row].0) == Some(tick) then Some(AbsRows(t)[row])
        else None
  {
    var batches := BatchesAt(t.versions, tick);
    assert AllWellFormed(batches);
    ViewReadsOriginal(name, tick, batches, t.positions, row);
    if row in t.positions {
      var b := t.positions[row].0;
      assert b < |batches| ==> tick in TicksWith(t.versions, b);
      if LocTick(t.versions, b) == Some(tick) {
        assert row in AbsRows(t) ==> batches[b] == BatchOf(t.versions, t.positions[row]);
      } else {
        assert b >= |batches|;
      }
    }
    hide ViewOf, WellFormed, RowAt;
  }

  /** Exactly when a view has merged its batches: there are several, of one schema, with no more rows than the machine
      word counts. Then it has one batch with all their rows; otherwise it has the batches it was given. */
  lemma MergesIff(table: string, tick: Tick, batches: seq<Batch>, positions: Positions)
    requires AllWellFormed(batches)
    ensures var view := ViewOf(table, tick, batches, positions);
      var total := Base(RowCounts(batches), |batches|);
      && view.table == table && view.tick == tick
      && (|batches| > 1 && OneSchema(batches) && total <= U64_MAX ==>
            |view.batches| == 1 && NumRows(view.batches[0]) == total && view.batches[0].schema == batches[0].schema)
      && (!(|batches| > 1 && OneSchema(batches) && total <= U64_MAX) ==>
            view.batches == batches && view.positions == positions)
  {
    if Merges(batches) {
      MergeableColumns(batches);
      ConcatColumnLength(batches, 0);
    }
    hide WellFormed, Base, ConcatColumn;
  }

  /** Without a position map rows are numbered from zero across the batches. */
  method BuildPositionMap(batches: seq<Batch>) returns (positions: Positions)
    requires Base(RowCounts(batches), |batches|) <= U64_MAX
    ensures forall r: RowId :: r in positions <==> r < Base(RowCounts(batches), |batches|)
    ensures forall r :: r in positions ==> InRange(positions[r], RowCounts(batches)) &&
                                           Base(RowCounts(batches), positions[r].0) + positions[r].1 == r
  {
    ghost var counts := RowCounts(batches);
    positions := map[];
    var globalRow: nat := 0;
    for b := 0 to |batches|
      invariant globalRow == Base(counts, b)
      invariant Numbered(positions, counts, globalRow)
    {
      BaseMonotone(counts, b + 1, |batches|);
      for offset := 0 to NumRows(batches[b])
        invariant globalRow == Base(counts, b) + offset
        invariant Numbered(positions, counts, globalRow)
      {
        positions := positions[globalRow := (b, offset)];
        globalRow := globalRow + 1;
      }
    }
  }

  ghost predicate Numbered(positions: Positions, counts: seq<nat>, n: nat) {
    (forall r: RowId :: r in positions <==> r < n) &&
    (forall r :: r in positions ==> InRange(positions[r], counts) && Base(counts, positions[r].0) + positions[r].1 == r)
  }
}
