/** The layered key index: a hot layer with one latest entry per key over an optional full history. */
module KeyIndexes {
  import opened Machine

  type Tick = u64

  datatype Entry = Entry(tick: Tick, batch: nat, row: nat)

  type History = seq<Entry>

  /** The last-inserted entry among those of maximal tick. */
  function LatestOf(h: History): (e: Entry)
    requires h != []
    ensures e in h
    ensures forall x :: x in h ==> x.tick <= e.tick
  {
    if |h| == 1 then h[0]
    else
      var before := LatestOf(h[..|h| - 1]);
      var last := h[|h| - 1];
      assert h == h[..|h| - 1] + [last];
      if last.tick >= before.tick then last else before
  }

  /** LatestOf names the only entry with those two properties. */
  lemma {:induction false} LatestOfPosition(h: History, i: nat)
    requires i < |h|
    requires forall j :: 0 <= j < i ==> h[j].tick <= h[i].tick
    requires forall j :: i < j < |h| ==> h[j].tick < h[i].tick
    ensures LatestOf(h) == h[i]
    decreases |h|
  {
    if |h| > 1 {
      var before := h[..|h| - 1];
      if i == |h| - 1 {
        var e := LatestOf(before);
        var j :| 0 <= j < |before| && before[j] == e;
      } else {
        LatestOfPosition(before, i);
      }
    }
  }

  datatype KeyIndex = KeyIndex(latest: map<string, Entry>, history: Option<map<string, History>>)

  const EMPTY_INDEX := KeyIndex(map[], Some(map[]))

  function Inserted(ix: KeyIndex, key: string, e: Entry): KeyIndex {
    KeyIndex(
      if key !in ix.latest || e.tick >= ix.latest[key].tick then ix.latest[key := e] else ix.latest,
      match ix.history
      case None => None
      case Some(h) => Some(h[key := (if key in h then h[key] else []) + [e]]))
  }

  function KeyRemoved(ix: KeyIndex, key: string): KeyIndex {
    KeyIndex(ix.latest - {key}, match ix.history case None => None case Some(h) => Some(h - {key}))
  }

  /** Both layers hold the same keys, and the hot entry is the latest of the cold history. */
  predicate LayersAgree(ix: KeyIndex) {
    ix.history.Some? ==>
      ix.latest.Keys == ix.history.value.Keys &&
      forall k :: k in ix.latest ==> ix.history.value[k] != [] && ix.latest[k] == LatestOf(ix.history.value[k])
  }

  lemma InsertKeepsLayers(ix: KeyIndex, key: string, e: Entry)
    requires LayersAgree(ix)
    ensures LayersAgree(Inserted(ix, key, e))
  {
    if ix.history.Some? && key in ix.latest {
      var h := ix.history.value[key];
      assert (h + [e])[..|h|] == h;
    }
  }

  datatype IndexOp = Insert(key: string, entry: Entry) | Remove(key: string)

  function RunOps(ix: KeyIndex, ops: seq<IndexOp>): KeyIndex {
    if ops == [] then ix
    else
      var before := RunOps(ix, ops[..|ops| - 1]);
      match ops[|ops| - 1]
      case Insert(k, e) => Inserted(before, k, e)
      case Remove(k) => KeyRemoved(before, k)
  }

  /** The entries inserted for a key since its last removal, in order. */
  function Surviving(ops: seq<IndexOp>, key: string): History {
    if ops == [] then []
    else
      var before := Surviving(ops[..|ops| - 1], key);
      match ops[|ops| - 1]
      case Insert(k, e) => if k == key then before + [e] else before
      case Remove(k) => if k == key then [] else before
  }

  /** The index answers for one key as the list of its surviving entries says it should. */
  predicate Answers(ix: KeyIndex, enabled: bool, key: string, h: History) {
    (key in ix.latest <==> h != []) &&
    (h != [] ==> ix.latest[key] == LatestOf(h)) &&
    (ix.history.Some? <==> enabled) &&
    (enabled ==> (key in ix.history.value <==> h != [])) &&
    (enabled && h != [] ==> ix.history.value[key] == h)
  }

  lemma InsertAnswers(ix: KeyIndex, enabled: bool, key: string, h: History, k: string, e: Entry)
    requires Answers(ix, enabled, key, h)
    ensures Answers(Inserted(ix, k, e), enabled, key, if k == key then h + [e] else h)
  {
    assert (h + [e])[..|h|] == h;
  }

  /** After any inserts and removals, with history on or off, lookup_latest is the last-inserted entry of
      maximal tick among the surviving ones, and with history on lookup returns exactly those. */
  lemma {:induction false} LookupsAfterRun(enabled: bool, ops: seq<IndexOp>, key: string)
    ensures Answers(RunOps(KeyIndex(map[], if enabled then Some(map[]) else None), ops), enabled, key,
      Surviving(ops, key))
  {
    if ops != [] {
      var before := ops[..|ops| - 1];
      LookupsAfterRun(enabled, before, key);
      match ops[|ops| - 1]
      case Insert(k, e) =>
        InsertAnswers(RunOps(KeyIndex(map[], if enabled then Some(map[]) else None), before), enabled, key,
                      Surviving(before, key), k, e);
      case Remove(k) =>
    }
  }

  class PrimaryKeyIndex {
    var latestEntries: map<string, Entry>
    var historicalEntries: Option<map<string, History>>

    function State(): KeyIndex
      reads this
    {
      KeyIndex(latestEntries, historicalEntries)
    }

    constructor (enabled: bool)
      ensures State() == KeyIndex(map[], if enabled then Some(map[]) else None)
      ensures LayersAgree(State())
    {
      latestEntries := map[];
      historicalEntries := if enabled then Some(map[]) else None;
    }

    method Insert(key: string, e: Entry)
      modifies this
      ensures State() == Inserted(old(State()), key, e)
      ensures old(LayersAgree(State())) ==> LayersAgree(State())
    {
      if LayersAgree(State()) {
        InsertKeepsLayers(State(), key, e);
      }
      var shouldUpdate := key !in latestEntries || e.tick >= latestEntries[key].tick;
      if shouldUpdate {
        latestEntries := latestEntries[key := e];
      }
      if historicalEntries.Some? {
        var h := historicalEntries.value;
        historicalEntries := Some(h[key := (if key in h then h[key] else []) + [e]]);
      }
    }

    method Lookup(key: string) returns (r: Option<History>)
      ensures r.Some? <==> historicalEntries.Some? && key in historicalEntries.value
      ensures r.Some? ==> r.value == historicalEntries.value[key]
      ensures r.Some? && LayersAgree(State()) ==> key in latestEntries && latestEntries[key] in r.value
    {
      if historicalEntries.Some? && key in historicalEntries.value {
        r := Some(historicalEntries.value[key]);
      } else {
        r := None;
      }
    }

    method LookupLatest(key: string) returns (r: Option<Entry>)
      ensures r.Some? <==> key in latestEntries
      ensures r.Some? ==> r.value == latestEntries[key]
      ensures r.Some? && historicalEntries.Some? && LayersAgree(State()) ==>
        r.value == LatestOf(historicalEntries.value[key])
    {
      r := if key in latestEntries then Some(latestEntries[key]) else None;
    }

    method RemoveKey(key: string) returns (removed: Option<History>)
      modifies this
      ensures State() == KeyRemoved(old(State()), key)
      ensures old(LayersAgree(State())) ==> LayersAgree(State())
      ensures removed == if old(historicalEntries).Some? && key in old(historicalEntries).value
                         then Some(old(historicalEntries).value[key]) else None
    {
      latestEntries := latestEntries - {key};
      removed := None;
      if historicalEntries.Some? {
        var h := historicalEntries.value;
        removed := if key in h then Some(h[key]) else None;
        historicalEntries := Some(h - {key});
      }
    }
  }

  // ---------------------------------------------------------------- building the index of a table

  /** The keys of one tick's batches: keys[b][r] is the key of row r of batch b. */
  type KeyGrid = seq<seq<string>>

  /** The entries that one tick's batches give a key, in batch and row order. */
  function GridEntries(tick: Tick, grid: KeyGrid, key: string): History {
    if grid == [] then []
    else GridEntries(tick, grid[..|grid| - 1], key) + RowEntries(tick, |grid| - 1, grid[|grid| - 1], key)
  }

  function RowEntries(tick: Tick, batch: nat, keys: seq<string>, key: string): History {
    if keys == [] then []
    else
      var before := RowEntries(tick, batch, keys[..|keys| - 1], key);
      if keys[|keys| - 1] == key then before + [Entry(tick, batch, |keys| - 1)] else before
  }

  /** The tick with the newest occurrence of a key is the greatest tick whose batches contain it. */
  ghost predicate IsNewestTick(grids: map<Tick, KeyGrid>, key: string, tick: Tick) {
    tick in grids && GridEntries(tick, grids[tick], key) != [] &&
    forall t :: t in grids && GridEntries(t, grids[t], key) != [] ==> t <= tick
  }

  /** What the hot layer must hold for a key, said without any visiting order. */
  ghost predicate IsLatestLocation(grids: map<Tick, KeyGrid>, key: string, e: Entry) {
    exists tick :: IsNewestTick(grids, key, tick) &&
      var h := GridEntries(tick, grids[tick], key); e == h[|h| - 1]
  }

  lemma LatestLocationUnique(grids: map<Tick, KeyGrid>, key: string, e: Entry, e': Entry)
    requires IsLatestLocation(grids, key, e) && IsLatestLocation(grids, key, e')
    ensures e == e'
  {
    var tick :| IsNewestTick(grids, key, tick) && var h := GridEntries(tick, grids[tick], key); e == h[|h| - 1];
    var tick' :| IsNewestTick(grids, key, tick') && var h := GridEntries(tick', grids[tick'], key); e' == h[|h| - 1];
    assert tick == tick';
  }

  lemma {:induction false} RowEntriesTick(tick: Tick, batch: nat, keys: seq<string>, key: string)
    ensures forall e :: e in RowEntries(tick, batch, keys, key) ==> e.tick == tick
  {
    if keys != [] {
      RowEntriesTick(tick, batch, keys[..|keys| - 1], key);
    }
  }

  lemma {:induction false} GridEntriesTick(tick: Tick, grid: KeyGrid, key: string)
    ensures forall e :: e in GridEntries(tick, grid, key) ==> e.tick == tick
  {
    if grid != [] {
      GridEntriesTick(tick, grid[..|grid| - 1], key);
      RowEntriesTick(tick, |grid| - 1, grid[|grid| - 1], key);
    }
  }

  /** Adding one tick's entries to a history of other ticks. */
  lemma {:induction false} LatestAfterTick(h: History, g: History, tick: Tick)
    requires forall e :: e in g ==> e.tick == tick
    requires forall e :: e in h ==> e.tick != tick
    requires h + g != []
    ensures LatestOf(h + g) ==
      if g == [] then LatestOf(h)
      else if h != [] && LatestOf(h).tick > tick then LatestOf(h) else g[|g| - 1]
    decreases |g|
  {
    if g == [] {
      assert h + g == h;
    } else {
      var g' := g[..|g| - 1];
      assert (h + g)[..|h + g| - 1] == h + g';
      if h + g' != [] {
        LatestAfterTick(h, g', tick);
      }
    }
  }

  /** The history a key gets when ticks are visited in some order. */
  function VisitEntries(visited: seq<Tick>, grids: map<Tick, KeyGrid>, key: string): History
    requires forall t :: t in visited ==> t in grids
  {
    if visited == [] then []
    else
      var last := visited[|visited| - 1];
      VisitEntries(visited[..|visited| - 1], grids, key) + GridEntries(last, grids[last], key)
  }

  /** The greatest visited tick whose batches contain a key. */
  function NewestVisited(visited: seq<Tick>, grids: map<Tick, KeyGrid>, key: string): Option<Tick>
    requires forall t :: t in visited ==> t in grids
  {
    if visited == [] then None
    else
      var last := visited[|visited| - 1];
      var before := NewestVisited(visited[..|visited| - 1], grids, key);
      if GridEntries(last, grids[last], key) == [] then before
      else if before.Some? && before.value > last then before else Some(last)
  }

  ghost predicate Distinct(ticks: seq<Tick>) {
    forall i, j :: 0 <= i < j < |ticks| ==> ticks[i] != ticks[j]
  }

  lemma {:induction false} NewestVisitedIsNewest(visited: seq<Tick>, grids: map<Tick, KeyGrid>, key: string)
    requires forall t :: t in visited ==> t in grids
    requires Distinct(visited)
    ensures var newest := NewestVisited(visited, grids, key);
      (newest.Some? ==> newest.value in visited && GridEntries(newest.value, grids[newest.value], key) != []) &&
      (forall t :: t in visited && GridEntries(t, grids[t], key) != [] ==> newest.Some? && t <= newest.value)
  {
    if visited != [] {
      NewestVisitedIsNewest(visited[..|visited| - 1], grids, key);
      assert visited == visited[..|visited| - 1] + [visited[|visited| - 1]];
    }
  }

  lemma {:induction false} VisitTicks(visited: seq<Tick>, grids: map<Tick, KeyGrid>, key: string)
    requires forall t :: t in visited ==> t in grids
    ensures forall e :: e in VisitEntries(visited, grids, key) ==> e.tick in visited
  {
    if visited != [] {
      var last := visited[|visited| - 1];
      VisitTicks(visited[..|visited| - 1], grids, key);
      GridEntriesTick(last, grids[last], key);
    }
  }

  /** After visiting distinct ticks, a key's latest entry is its last one in the newest tick that has it. */
  lemma {:induction false} VisitLatest(visited: seq<Tick>, grids: map<Tick, KeyGrid>, key: string)
    requires forall t :: t in visited ==> t in grids
    requires Distinct(visited)
    ensures VisitEntries(visited, grids, key) != [] <==> NewestVisited(visited, grids, key).Some?
    ensures NewestVisited(visited, grids, key).Some? ==>
      LastIn(grids, NewestVisited(visited, grids, key).value, key, LatestOf(VisitEntries(visited, grids, key)))
  {
    if visited != [] {
      var before, last := visited[..|visited| - 1], visited[|visited| - 1];
      assert last !in before;
      VisitLatest(before, grids, key);
      NewestVisitedIsNewest(before, grids, key);
      VisitTicks(before, grids, key);
      VisitOneMore(before, last, grids, key);
    }
    hide GridEntries, LatestOf, LastIn;
  }

  lemma VisitOneMore(before: seq<Tick>, last: Tick, grids: map<Tick, KeyGrid>, key: string)
    requires last in grids && last !in before && forall t :: t in before ==> t in grids
    requires forall e :: e in VisitEntries(before, grids, key) ==> e.tick in before
    requires var h, newest := VisitEntries(before, grids, key), NewestVisited(before, grids, key);
      (h != [] <==> newest.Some?) &&
        (newest.Some? ==> newest.value in before && LastIn(grids, newest.value, key, LatestOf(h)))
    ensures var h, newest := VisitEntries(before, grids, key), NewestVisited(before, grids, key);
      var g := GridEntries(last, grids[last], key);
      var now := if g == [] then newest else if newest.Some? && newest.value > last then newest else Some(last);
      (h + g != [] <==> now.Some?) && (now.Some? ==> LastIn(grids, now.value, key, LatestOf(h + g)))
  {
    var h, g := VisitEntries(before, grids, key), GridEntries(last, grids[last], key);
    GridEntriesTick(last, grids[last], key);
    hide LatestOf, GridEntries, VisitEntries, NewestVisited;
    if h != [] {
      LastInTick(grids, NewestVisited(before, grids, key).value, key, LatestOf(h));
    }
    if g == [] {
      assert h + g == h;
    }
    if h + g != [] {
      LatestAfterTick(h, g, last);
    }
  }

  /** e is the last entry that one tick's batches give a key. */
  ghost predicate LastIn(grids: map<Tick, KeyGrid>, tick: Tick, key: string, e: Entry) {
    tick in grids && GridEntries(tick, grids[tick], key) != [] &&
    e == GridEntries(tick, grids[tick], key)[|GridEntries(tick, grids[tick], key)| - 1]
  }

  lemma LastInTick(grids: map<Tick, KeyGrid>, tick: Tick, key: string, e: Entry)
    requires LastIn(grids, tick, key, e)
    ensures e.tick == tick
  {
    GridEntriesTick(tick, grids[tick], key);
  }

  /** Rebuild the index from a table's batches, visiting the ticks in any order. The latest layer comes out the same
      whatever that order was. */
  method BuildPrimaryKeyIndex(grids: map<Tick, KeyGrid>) returns (index: PrimaryKeyIndex)
    ensures fresh(index) && LayersAgree(index.State())
    ensures forall k :: k in index.latestEntries ==> IsLatestLocation(grids, k, index.latestEntries[k])
    ensures forall k, t :: k !in index.latestEntries && t in grids ==> GridEntries(t, grids[t], k) == []
  {
    index := new PrimaryKeyIndex(true);
    var remaining := grids.Keys;
    ghost var visited: seq<Tick> := [];
    while remaining != {}
      invariant fresh(index) && remaining <= grids.Keys
      invariant index.historicalEntries.Some? && LayersAgree(index.State())
      invariant Distinct(visited) && forall t :: t in visited <==> t in grids && t !in remaining
      invariant forall k :: HistoryOf(index.State(), k) == VisitEntries(visited, grids, k)
    {
      var tick :| tick in remaining;
      ghost var start := index.State();
      InsertGrid(index, tick, grids[tick]);
      forall k ensures HistoryOf(index.State(), k) == VisitEntries(visited + [tick], grids, k) {
        assert (visited + [tick])[..|visited|] == visited;
        assert HistoryOf(start, k) == VisitEntries(visited, grids, k);
      }
      visited := visited + [tick];
      remaining := remaining - {tick};
    }
    ghost var ix := index.State();
    forall k | k in index.latestEntries ensures IsLatestLocation(grids, k, index.latestEntries[k]) {
      assert ix.history.value[k] == VisitEntries(visited, grids, k);
      VisitLatest(visited, grids, k);
      NewestVisitedIsNewest(visited, grids, k);
      assert IsNewestTick(grids, k, NewestVisited(visited, grids, k).value);
    }
    forall k, t | k !in index.latestEntries && t in grids ensures GridEntries(t, grids[t], k) == [] {
      assert HistoryOf(ix, k) == [];
      VisitLatest(visited, grids, k);
      NewestVisitedIsNewest(visited, grids, k);
    }
  }

  /** The two inner loops: every row of every batch of one tick. */
  method InsertGrid(index: PrimaryKeyIndex, tick: Tick, grid: KeyGrid)
    requires index.historicalEntries.Some? && LayersAgree(index.State())
    modifies index
    ensures index.historicalEntries.Some? && LayersAgree(index.State())
    ensures GridAdded(old(index.State()), index.State(), tick, grid)
  {
    ghost var start := index.State();
    for b := 0 to |grid|
      invariant index.historicalEntries.Some? && LayersAgree(index.State())
      invariant GridAdded(start, index.State(), tick, grid[..b])
    {
      ghost var mid := index.State();
      InsertRows(index, tick, b, grid[b]);
      GridStep(start, mid, index.State(), tick, grid, b);
    }
    assert grid[..|grid|] == grid;
  }

  method InsertRows(index: PrimaryKeyIndex, tick: Tick, b: nat, keys: seq<string>)
    requires index.historicalEntries.Some? && LayersAgree(index.State())
    modifies index
    ensures index.historicalEntries.Some? && LayersAgree(index.State())
    ensures RowsAdded(old(index.State()), index.State(), tick, b, keys)
  {
    ghost var start := index.State();
    for r := 0 to |keys|
      invariant index.historicalEntries.Some? && LayersAgree(index.State())
      invariant RowsAdded(start, index.State(), tick, b, keys[..r])
    {
      ghost var mid := index.State();
      index.Insert(keys[r], Entry(tick, b, r));
      RowStep(start, mid, tick, b, keys, r);
    }
    assert keys[..|keys|] == keys;
  }

  function HistoryOf(ix: KeyIndex, key: string): History {
    if ix.history.Some? && key in ix.history.value then ix.history.value[key] else []
  }

  /** Every key's history grew by exactly the entries of one tick's batches. */
  ghost predicate GridAdded(before: KeyIndex, after: KeyIndex, tick: Tick, grid: KeyGrid) {
    forall k :: HistoryOf(after, k) == HistoryOf(before, k) + GridEntries(tick, grid, k)
  }

  ghost predicate RowsAdded(before: KeyIndex, after: KeyIndex, tick: Tick, b: nat, keys: seq<string>) {
    forall k :: HistoryOf(after, k) == HistoryOf(before, k) + RowEntries(tick, b, keys, k)
  }

  lemma GridStep(start: KeyIndex, mid: KeyIndex, after: KeyIndex, tick: Tick, grid: KeyGrid, b: nat)
    requires b < |grid|
    requires GridAdded(start, mid, tick, grid[..b]) && RowsAdded(mid, after, tick, b, grid[b])
    ensures GridAdded(start, after, tick, grid[..b + 1])
  {
    assert grid[..b + 1][..b] == grid[..b];
    forall k ensures HistoryOf(after, k) == HistoryOf(start, k) + GridEntries(tick, grid[..b + 1], k) {
      hide HistoryOf, RowEntries;
      assert HistoryOf(mid, k) == HistoryOf(start, k) + GridEntries(tick, grid[..b], k);
    }
  }

  lemma RowStep(start: KeyIndex, mid: KeyIndex, tick: Tick, b: nat, keys: seq<string>, r: nat)
    requires r < |keys| && mid.history.Some?
    requires RowsAdded(start, mid, tick, b, keys[..r])
    ensures RowsAdded(start, Inserted(mid, keys[r], Entry(tick, b, r)), tick, b, keys[..r + 1])
  {
    assert keys[..r + 1][..r] == keys[..r];
    var after := Inserted(mid, keys[r], Entry(tick, b, r));
    forall k ensures HistoryOf(after, k) == HistoryOf(start, k) + RowEntries(tick, b, keys[..r + 1], k) {
      assert HistoryOf(mid, k) == HistoryOf(start, k) + RowEntries(tick, b, keys[..r], k);
    }
  }
}
