/** The prefetch cache: a bounded map whose entries carry access stamps, and the recency list those stamps encode. */
module PrefetchCaches {
  import opened Machine

  const USIZE_MAX: nat := U64_MAX

  datatype Key = Key(table: string, rowId: u64)

  datatype CacheEntry<V> = CacheEntry(view: V, lastAccess: nat)

  // ---------------------------------------------------------------- the recency list

  /** Keys from least to most recently used. */
  type Recency = seq<Key>

  predicate NoDuplicates(order: Recency) {
    forall i, j :: 0 <= i < j < |order| ==> order[i] != order[j]
  }

  function IndexOf(order: Recency, k: Key): (i: nat)
    requires k in order
    ensures i < |order| && order[i] == k
  {
    if order[0] == k then 0 else IndexOf(order[1..], k) + 1
  }

  function Without(order: Recency, k: Key): Recency {
    if k in order then order[..IndexOf(order, k)] + order[IndexOf(order, k) + 1..] else order
  }

  function Promoted(order: Recency, k: Key): Recency {
    if k in order then Without(order, k) + [k] else order
  }

  /** At capacity the least recent key goes first, even when k itself is already there and no room is needed. */
  function AfterEviction(order: Recency, capacity: nat): Recency {
    if |order| >= capacity && order != [] then order[1..] else order
  }

  function Inserted(order: Recency, capacity: nat, k: Key): Recency {
    Without(AfterEviction(order, capacity), k) + [k]
  }

  /** Prefetching skips resident keys without promoting them. */
  function Prefetched(order: Recency, capacity: nat, keys: seq<Key>): Recency
    decreases |keys|
  {
    if keys == [] then order
    else
      var before := Prefetched(order, capacity, keys[..|keys| - 1]);
      var k := keys[|keys| - 1];
      if k in before then before else Inserted(before, capacity, k)
  }

  lemma WithoutMembers(order: Recency, k: Key)
    requires NoDuplicates(order)
    ensures forall x :: x in Without(order, k) <==> x in order && x != k
    ensures NoDuplicates(Without(order, k))
    ensures |Without(order, k)| == if k in order then |order| - 1 else |order|
  {
    if k in order {
      var i := IndexOf(order, k);
      assert order == order[..i] + [k] + order[i + 1..];
    }
  }

  /** A read moves its row to the recent end and leaves the others in their order. */
  lemma PromotedAt(order: Recency, k: Key, at: nat)
    requires NoDuplicates(order) && at < |order| && order[at] == k
    ensures Promoted(order, k) == order[..at] + order[at + 1..] + [k]
    ensures NoDuplicates(Promoted(order, k)) && forall x :: x in Promoted(order, k) <==> x in order
  {
    assert IndexOf(order, k) == at;
    WithoutMembers(order, k);
    hide IndexOf;
  }

  /** Size never exceeds max(1, capacity), so a cache of capacity zero holds one entry. */
  lemma InsertedSize(order: Recency, capacity: nat, k: Key)
    requires NoDuplicates(order) && |order| <= (if capacity == 0 then 1 else capacity)
    ensures NoDuplicates(Inserted(order, capacity, k)) && k in Inserted(order, capacity, k)
    ensures 1 <= |Inserted(order, capacity, k)| <= if capacity == 0 then 1 else capacity
  {
    WithoutMembers(AfterEviction(order, capacity), k);
    WithoutMembers(order, k);
  }

  /** Inserting an absent key at capacity drops exactly the least recent key and puts the new one last. */
  lemma InsertAtCapacity(order: Recency, capacity: nat, k: Key)
    requires NoDuplicates(order) && |order| == capacity > 0 && k !in order
    ensures Inserted(order, capacity, k) == order[1..] + [k]
  {
    WithoutMembers(order[1..], k);
  }

  /** Overwriting a resident key at capacity loses the least recent key although no room was needed, and the cache
      shrinks, unless that key is the one written. */
  lemma OverwriteAtCapacity(order: Recency, capacity: nat, k: Key)
    requires NoDuplicates(order) && |order| == capacity > 0 && k in order
    ensures |Inserted(order, capacity, k)| == if order[0] == k then capacity else capacity - 1
    ensures forall x :: x in Inserted(order, capacity, k) <==> x == k || (x in order && x != order[0])
  {
    WithoutMembers(order[1..], k);
    assert order == [order[0]] + order[1..];
    hide Without;
  }

  /** For any list and capacity, overwriting a resident key keeps all others exactly when there is room to spare or the
      key is the least recent one. */
  lemma OverwriteKeepsAllIff(order: Recency, capacity: nat, k: Key)
    requires NoDuplicates(order) && k in order
    ensures (forall x :: x in order ==> x in Inserted(order, capacity, k)) <==> |order| < capacity || order[0] == k
  {
    WithoutMembers(AfterEviction(order, capacity), k);
    assert order == [order[0]] + order[1..];
    assert order[0] in order && order[0] !in order[1..];
  }

  /** The last n keys, or all of them when there are fewer. */
  function Newest(order: Recency, n: nat): Recency {
    if |order| <= n then order else order[|order| - n..]
  }

  /** Prefetching distinct absent keys leaves the newest keys of the old list followed by the new ones. */
  lemma {:induction false} PrefetchClosedForm(order: Recency, capacity: nat, keys: seq<Key>)
    requires NoDuplicates(order) && |order| <= Bound(capacity)
    requires NoDuplicates(keys) && forall k :: k in keys ==> k !in order
    ensures Prefetched(order, capacity, keys) == Newest(order + keys, Bound(capacity))
    decreases |keys|
  {
    if keys == [] {
      assert order + keys == order;
    } else {
      var init, k := keys[..|keys| - 1], keys[|keys| - 1];
      assert NoDuplicates(init) && k !in init && k !in order && forall x :: x in init ==> x !in order;
      assert order + keys == order + init + [k];
      hide NoDuplicates, Inserted, Newest;
      PrefetchClosedForm(order, capacity, init);
      NewestAppend(order, init, capacity, k);
    }
  }

  lemma NewestAppend(order: Recency, init: seq<Key>, capacity: nat, k: Key)
    requires k !in order && k !in init
    ensures k !in Newest(order + init, Bound(capacity))
    ensures Inserted(Newest(order + init, Bound(capacity)), capacity, k) == Newest(order + init + [k], Bound(capacity))
  {
    var all := order + init;
    assert k !in all;
    NewestIsPart(all, capacity);
    InsertedMissing(all, capacity, k);
    hide Newest, Inserted;
  }

  lemma NewestIsPart(all: seq<Key>, capacity: nat)
    ensures forall k :: k in Newest(all, Bound(capacity)) ==> k in all
  {
  }

  /** As many distinct absent rows as fit are all resident after they are prefetched. */
  lemma PrefetchLeavesAllResident(order: Recency, capacity: nat, keys: seq<Key>)
    requires NoDuplicates(order) && |order| <= Bound(capacity)
    requires NoDuplicates(keys) && (forall k :: k in keys ==> k !in order) && |keys| <= Bound(capacity)
    ensures forall k :: k in keys ==> k in Prefetched(order, capacity, keys)
  {
    PrefetchClosedForm(order, capacity, keys);
    var all := order + keys;
    forall k | k in keys ensures k in Newest(all, Bound(capacity)) {
      var i :| 0 <= i < |keys| && keys[i] == k;
      assert all[|order| + i] == k;
      if |all| > Bound(capacity) { assert Newest(all, Bound(capacity))[|order| + i - (|all| - Bound(capacity))] == k; }
    }
  }

  /** The listed keys that a prefetch finds missing, in order: those not among the newest of the old keys and the ones
      missed before. A key can be found missing because an earlier one has pushed it out. */
  function Missed(order: Recency, capacity: nat, keys: seq<Key>): seq<Key> {
    if keys == [] then []
    else
      var before := Missed(order, capacity, keys[..|keys| - 1]);
      var k := keys[|keys| - 1];
      if k in Newest(order + before, Bound(capacity)) then before else before + [k]
  }

  lemma InsertedMissing(all: seq<Key>, capacity: nat, k: Key)
    requires k !in Newest(all, Bound(capacity))
    ensures Inserted(Newest(all, Bound(capacity)), capacity, k) == Newest(all + [k], Bound(capacity))
  {
  }

  /** Whatever is listed, resident, absent or repeated, a prefetch leaves the newest of the old and the missed keys. */
  lemma {:induction false} PrefetchLeavesNewest(order: Recency, capacity: nat, keys: seq<Key>)
    requires |order| <= Bound(capacity)
    ensures Prefetched(order, capacity, keys) == Newest(order + Missed(order, capacity, keys), Bound(capacity))
    decreases |keys|
  {
    if keys == [] {
      assert order + [] == order;
    } else {
      var init, k := keys[..|keys| - 1], keys[|keys| - 1];
      PrefetchLeavesNewest(order, capacity, init);
      hide Inserted, Newest;
      OneMoreKey(order, Missed(order, capacity, init), capacity, k);
    }
  }

  lemma OneMoreKey(order: Recency, missed: seq<Key>, capacity: nat, k: Key)
    ensures k !in Newest(order + missed, Bound(capacity)) ==>
      Inserted(Newest(order + missed, Bound(capacity)), capacity, k) == Newest(order + (missed + [k]), Bound(capacity))
  {
    assert order + missed + [k] == order + (missed + [k]);
    if k !in Newest(order + missed, Bound(capacity)) {
      InsertedMissing(order + missed, capacity, k);
    }
    hide Inserted, Newest;
  }

  /** A resident key that is not missed itself is lost exactly when too many others are missed for its place. */
  lemma ResidentLostIff(order: Recency, capacity: nat, keys: seq<Key>, k: Key)
    requires NoDuplicates(order) && |order| <= Bound(capacity)
    requires k in order && k !in Missed(order, capacity, keys)
    ensures k in Prefetched(order, capacity, keys) <==>
      |Missed(order, capacity, keys)| <= Bound(capacity) - |order| + IndexOf(order, k)
  {
    PrefetchLeavesNewest(order, capacity, keys);
    var missed := Missed(order, capacity, keys);
    NewestHolds(order, missed, capacity, k);
    hide Prefetched, Missed, Newest;
  }

  lemma NewestHolds(order: Recency, missed: seq<Key>, capacity: nat, k: Key)
    requires NoDuplicates(order) && k in order && k !in missed
    ensures k in Newest(order + missed, Bound(capacity)) <==> |missed| <= Bound(capacity) - |order| + IndexOf(order, k)
  {
    var all, i := order + missed, IndexOf(order, k);
    assert all[i] == k;
    assert forall j :: |order| <= j < |all| ==> all[j] == missed[j - |order|];
    assert forall j :: 0 <= j < |order| ==> all[j] == order[j];
    if |all| > Bound(capacity) && i >= |all| - Bound(capacity) {
      assert Newest(all, Bound(capacity))[i - (|all| - Bound(capacity))] == k;
    }
  }

  /** All resident and all listed keys stay exactly when there is room for the absent ones. */
  lemma PrefetchKeepsAllIff(order: Recency, capacity: nat, keys: seq<Key>)
    requires NoDuplicates(order) && |order| <= Bound(capacity)
    ensures (forall k :: k in order || k in keys ==> k in Prefetched(order, capacity, keys)) <==>
      |order| + |Absent(order, keys)| <= Bound(capacity)
  {
    var after := Prefetched(order, capacity, keys);
    PrefetchLeavesNewest(order, capacity, keys);
    DistinctKeys(order);
    if forall k :: k in order || k in keys ==> k in after {
      var wanted := (set k | k in order) + Absent(order, keys);
      assert |wanted| == |order| + |Absent(order, keys)|;
      assert wanted <= set k | k in after;
      SubsetSize(wanted, set k | k in after);
      SetSize(after);
    }
    if |order| + |Absent(order, keys)| <= Bound(capacity) {
      RoomForAll(order, capacity, keys);
      RoomIsWhole(order, capacity, keys, Missed(order, capacity, keys));
    }
  }

  function Absent(order: Recency, keys: seq<Key>): set<Key> {
    set k | k in keys && k !in order
  }

  lemma {:induction false} SetSize(keys: seq<Key>)
    ensures |set k | k in keys| <= |keys|
  {
    if keys != [] {
      SetSize(keys[1..]);
      assert (set k | k in keys) == (set k | k in keys[1..]) + {keys[0]};
    }
  }

  lemma {:induction false} DistinctKeys(keys: seq<Key>)
    requires NoDuplicates(keys)
    ensures |set k | k in keys| == |keys|
  {
    if keys != [] {
      DistinctKeys(keys[1..]);
      assert (set k | k in keys) == (set k | k in keys[1..]) + {keys[0]};
    }
  }

  lemma {:induction false} SubsetSize(a: set<Key>, b: set<Key>)
    requires a <= b
    ensures |a| <= |b|
  {
    assert b == a + (b - a);
  }

  /** These keys are the listed ones that are not in the order, each once. */
  ghost predicate JustAbsent(order: Recency, keys: seq<Key>, missed: seq<Key>) {
    |missed| == |Absent(order, keys)| &&
    (forall k :: k in keys ==> k in order || k in missed) &&
    (forall k :: k in missed ==> k in keys && k !in order)
  }

  lemma JustAbsentStep(order: Recency, keys: seq<Key>, missed: seq<Key>)
    requires keys != [] && JustAbsent(order, keys[..|keys| - 1], missed)
    ensures var k := keys[|keys| - 1]; JustAbsent(order, keys, if k in order + missed then missed else missed + [k])
  {
    var init, k := keys[..|keys| - 1], keys[|keys| - 1];
    AbsentStep(order, keys);
    assert keys == init + [k];
    hide Absent;
  }

  /** With room for the absent keys each of them is missed once, and nothing is pushed out. */
  lemma {:induction false} RoomForAll(order: Recency, capacity: nat, keys: seq<Key>)
    requires |order| + |Absent(order, keys)| <= Bound(capacity)
    ensures JustAbsent(order, keys, Missed(order, capacity, keys))
    decreases |keys|
  {
    if keys == [] {
      assert Absent(order, keys) == {};
    } else {
      AbsentStep(order, keys);
      var init := keys[..|keys| - 1];
      RoomForAll(order, capacity, init);
      var missed := Missed(order, capacity, init);
      RoomIsWhole(order, capacity, init, missed);
      JustAbsentStep(order, keys, missed);
      hide JustAbsent, Newest, Absent;
    }
  }

  lemma RoomIsWhole(order: Recency, capacity: nat, keys: seq<Key>, missed: seq<Key>)
    requires JustAbsent(order, keys, missed) && |order| + |Absent(order, keys)| <= Bound(capacity)
    ensures Newest(order + missed, Bound(capacity)) == order + missed
  {
    hide Absent;
  }

  lemma AbsentStep(order: Recency, keys: seq<Key>)
    requires keys != []
    ensures var init, k := keys[..|keys| - 1], keys[|keys| - 1];
      |Absent(order, keys)| == |Absent(order, init)| + (if k in order || k in init then 0 else 1)
  {
    var init, k := keys[..|keys| - 1], keys[|keys| - 1];
    assert keys == init + [k];
    if k in order || k in init {
      assert Absent(order, keys) == Absent(order, init);
    } else {
      assert Absent(order, keys) == Absent(order, init) + {k};
    }
  }

  /** A listed key can be lost: a resident key is skipped without being promoted, and the next key evicts it. */
  lemma PrefetchResidentWitness(a: Key, b: Key)
    requires a != b
    ensures Prefetched([a], 1, [a, b]) == [b]
  {
    assert [a, b][..1] == [a] && [a][..0] == [];
    assert Prefetched([a], 1, [a]) == [a];
  }

  // ---------------------------------------------------------------- the stamps encode the list

  type Entries<V> = map<Key, CacheEntry<V>>

  /** The list has exactly the cached keys, and stamps grow strictly along it. */
  ghost predicate Encodes<V>(entries: Entries<V>, order: Recency) {
    NoDuplicates(order) && (forall k :: k in order <==> k in entries) &&
    forall i, j :: 0 <= i < j < |order| ==> entries[order[i]].lastAccess < entries[order[j]].lastAccess
  }

  lemma FirstsAgree<V>(entries: Entries<V>, order: Recency, other: Recency)
    requires Encodes(entries, order) && Encodes(entries, other)
    ensures order == [] <==> other == []
    ensures order != [] && other != [] ==> order[0] == other[0]
  {
    assert other == [] || other[0] in entries;
    assert order == [] || order[0] in entries;
    if order != [] {
      var i :| 0 <= i < |other| && other[i] == order[0];
      var j :| 0 <= j < |order| && order[j] == other[0];
      assert i == 0;
    }
  }

  /** Stamps determine the list: it is not a choice of the proof. */
  lemma {:induction false} EncodesOneList<V>(entries: Entries<V>, order: Recency, other: Recency)
    requires Encodes(entries, order) && Encodes(entries, other)
    ensures order == other
    decreases |order|
  {
    FirstsAgree(entries, order, other);
    if order != [] {
      hide Encodes;
      Shorter(entries, order);
      Shorter(entries, other);
      EncodesOneList(entries - {order[0]}, order[1..], other[1..]);
      assert order == [order[0]] + order[1..] && other == [other[0]] + other[1..];
    }
  }

  lemma Shorter<V>(entries: Entries<V>, order: Recency)
    requires Encodes(entries, order) && order != []
    ensures Encodes(entries - {order[0]}, order[1..])
  {
    assert order == [order[0]] + order[1..];
  }

  /** A key stamped later than all others goes last. */
  lemma StampedLast<V>(entries: Entries<V>, order: Recency, k: Key, view: V, stamp: nat)
    requires Encodes(entries, order) && forall x :: x in entries ==> entries[x].lastAccess < stamp
    ensures Encodes(entries[k := CacheEntry(view, stamp)], Without(order, k) + [k])
  {
    WithoutMembers(order, k);
    WithoutOrdered(entries, order, k);
    var rest := Without(order, k);
    hide Without, Encodes;
    assert forall i :: 0 <= i < |rest| ==> rest[i] in rest;
    var all := rest + [k];
    forall x ensures x in all <==> x == k || x in rest {
    }
  }

  lemma WithoutOrdered<V>(entries: Entries<V>, order: Recency, k: Key)
    requires Encodes(entries, order)
    ensures var rest := Without(order, k);
      (forall x :: x in rest ==> x in entries) &&
      forall i, j :: 0 <= i < j < |rest| ==> entries[rest[i]].lastAccess < entries[rest[j]].lastAccess
  {
    WithoutMembers(order, k);
    if k in order {
      WithoutAt(order, k);
    }
    hide Without, NoDuplicates, IndexOf;
  }

  lemma WithoutAt(order: Recency, k: Key)
    requires k in order
    ensures |Without(order, k)| == |order| - 1
    ensures forall i :: 0 <= i < |order| - 1 ==>
      Without(order, k)[i] == order[if i < IndexOf(order, k) then i else i + 1]
  {
    var at := IndexOf(order, k);
    assert Without(order, k) == order[..at] + order[at + 1..];
    hide IndexOf, Without;
    CutAt(order, at, Without(order, k));
  }

  lemma CutAt(order: Recency, at: nat, rest: Recency)
    requires at < |order| && rest == order[..at] + order[at + 1..]
    ensures |rest| == |order| - 1
    ensures forall i :: 0 <= i < |rest| ==> rest[i] == order[if i < at then i else i + 1]
  {
  }

  /** No stamp is ahead of the counter, and the size is bounded. */
  predicate Sound<V>(entries: Entries<V>, counter: nat, capacity: nat) {
    counter <= USIZE_MAX &&
    (forall k :: k in entries ==> entries[k].lastAccess <= counter) &&
    |entries| <= Bound(capacity)
  }

  function Bound(capacity: nat): nat {
    if capacity == 0 then 1 else capacity
  }

  function Bump(counter: nat): nat {
    if counter >= USIZE_MAX then USIZE_MAX else counter + 1
  }

  lemma SoundStamp<V>(entries: Entries<V>, counter: nat, capacity: nat, k: Key, view: V)
    requires Sound(entries, counter, capacity) && (k in entries || |entries| < Bound(capacity))
    ensures Sound(entries[k := CacheEntry(view, Bump(counter))], Bump(counter), capacity)
  {
    var after := entries[k := CacheEntry(view, Bump(counter))];
    assert after.Keys == entries.Keys + {k};
  }

  lemma SoundRemove<V>(entries: Entries<V>, counter: nat, capacity: nat, k: Key)
    requires Sound(entries, counter, capacity) && k in entries
    ensures Sound(entries - {k}, counter, capacity) && |entries - {k}| == |entries| - 1
  {
    assert (entries - {k}).Keys == entries.Keys - {k};
  }

  lemma GetStep<V>(entries: Entries<V>, order: Recency, counter: nat, capacity: nat, k: Key)
    requires Sound(entries, counter, capacity) && k in entries
    ensures var after := entries[k := CacheEntry(entries[k].view, Bump(counter))];
      Sound(after, Bump(counter), capacity) && after.Keys == entries.Keys &&
      (Encodes(entries, order) && counter < USIZE_MAX ==> Encodes(after, Promoted(order, k)))
  {
    SoundStamp(entries, counter, capacity, k, entries[k].view);
    if Encodes(entries, order) && counter < USIZE_MAX {
      assert k in order;
      StampedLast(entries, order, k, entries[k].view, counter + 1);
    }
    hide Sound, Encodes, Without;
  }

  lemma EvictStep<V>(entries: Entries<V>, order: Recency, counter: nat, capacity: nat, victim: Key)
    requires Sound(entries, counter, capacity) && victim in entries
    requires forall k :: k in entries ==> entries[victim].lastAccess <= entries[k].lastAccess
    ensures Sound(entries - {victim}, counter, capacity) && |entries - {victim}| == |entries| - 1
    ensures Encodes(entries, order) ==> order != [] && Encodes(entries - {victim}, order[1..])
  {
    SoundRemove(entries, counter, capacity, victim);
    if Encodes(entries, order) {
      FirstIsLeast(entries, order, victim);
      Shorter(entries, order);
    }
    hide Sound, Encodes;
  }

  lemma InsertStep<V>(entries: Entries<V>, order: Recency, counter: nat, capacity: nat, k: Key, view: V)
    requires Sound(entries, counter, capacity) && |entries| < Bound(capacity)
    ensures Sound(entries[k := CacheEntry(view, Bump(counter))], Bump(counter), capacity)
    ensures Encodes(entries, order) && counter < USIZE_MAX ==>
      Encodes(entries[k := CacheEntry(view, Bump(counter))], Without(order, k) + [k])
  {
    SoundStamp(entries, counter, capacity, k, view);
    if Encodes(entries, order) && counter < USIZE_MAX {
      StampedLast(entries, order, k, view, counter + 1);
    }
    hide Sound, Encodes, Without;
  }

  // ---------------------------------------------------------------- the cache object

  class PrefetchCache<V(==)> {
    const capacity: nat
    var entries: Entries<V>
    var currentTick: u64
    var accessCounter: nat
    var dirty: bool
    ghost var order: Recency

    ghost predicate Valid()
      reads this
    {
      Sound(entries, accessCounter, capacity)
    }

    /** The stamps encode the recency list. This holds until the counter has saturated and is used again. */
    ghost predicate Ordered()
      reads this
    {
      Encodes(entries, order)
    }

    constructor (capacity: nat)
      ensures Valid() && Ordered() && this.capacity == capacity && order == [] && currentTick == 0
    {
      this.capacity := capacity;
      entries, currentTick, accessCounter, dirty, order := map[], 0, 0, false, [];
    }

    /** A hit returns the cached view and makes its key the most recent. */
    method Get(k: Key) returns (r: Option<V>)
      requires Valid()
      modifies this`entries, this`accessCounter, this`order
      ensures Valid()
      ensures r == if k in old(entries) then Some(old(entries)[k].view) else None
      ensures entries.Keys == old(entries).Keys && forall x :: x in entries ==> entries[x].view == old(entries)[x].view
      ensures old(Ordered()) && old(accessCounter) < USIZE_MAX ==> Ordered() && order == Promoted(old(order), k)
      ensures k !in old(entries) ==>
        entries == old(entries) && accessCounter == old(accessCounter) && order == old(order)
    {
      if k !in entries {
        return None;
      }
      GetStep(entries, order, accessCounter, capacity, k);
      hide Sound, Encodes, Promoted;
      var view := entries[k].view;
      accessCounter := Bump(accessCounter);
      order := Promoted(order, k);
      entries := entries[k := CacheEntry(view, accessCounter)];
      r := Some(view);
    }

    /** Remove an entry of least stamp. */
    method EvictLru()
      requires Valid()
      modifies this`entries, this`order
      ensures Valid()
      ensures |entries| == if |old(entries)| == 0 then 0 else |old(entries)| - 1
      ensures entries.Keys <= old(entries).Keys && forall x :: x in entries ==> entries[x] == old(entries)[x]
      ensures old(Ordered()) ==> Ordered() && order == if old(order) == [] then [] else old(order)[1..]
    {
      if entries == map[] {
        if Ordered() {
          EncodedSize(entries, order);
        }
        return;
      }
      var victim := FindLeast();
      EvictStep(entries, order, accessCounter, capacity, victim);
      hide Sound, Encodes;
      order := if order == [] then [] else order[1..];
      entries := entries - {victim};
    }

    method FindLeast() returns (victim: Key)
      requires entries != map[]
      ensures victim in entries && forall k :: k in entries ==> entries[victim].lastAccess <= entries[k].lastAccess
    {
      var remaining := entries.Keys;
      victim :| victim in remaining;
      remaining := remaining - {victim};
      while remaining != {}
        invariant victim in entries && remaining <= entries.Keys
        invariant forall k :: k in entries && k !in remaining ==> entries[victim].lastAccess <= entries[k].lastAccess
      {
        var k :| k in remaining;
        remaining := remaining - {k};
        if entries[k].lastAccess < entries[victim].lastAccess {
          victim := k;
        }
      }
    }

    /** Insert or overwrite a row's view, evicting first when the cache is at capacity. */
    method Insert(k: Key, view: V)
      requires Valid()
      modifies this`entries, this`accessCounter, this`order
      ensures Valid() && k in entries && entries[k].view == view
      ensures forall x :: x in entries && x != k ==> x in old(entries) && entries[x] == old(entries)[x]
      ensures |entries| <= Bound(capacity)
      ensures old(Ordered()) && old(accessCounter) < USIZE_MAX ==>
        Ordered() && order == Inserted(old(order), capacity, k)
      ensures accessCounter <= old(accessCounter) + 1
    {
      MakeRoom();
      InsertStep(entries, order, accessCounter, capacity, k, view);
      hide Sound, Encodes, Without, AfterEviction;
      accessCounter := Bump(accessCounter);
      order := Without(order, k) + [k];
      entries := entries[k := CacheEntry(view, accessCounter)];
    }

    /** At capacity the least recent entry goes. */
    method MakeRoom()
      requires Valid()
      modifies this`entries, this`order
      ensures Valid() && |entries| < Bound(capacity)
      ensures entries.Keys <= old(entries).Keys && forall x :: x in entries ==> entries[x] == old(entries)[x]
      ensures old(Ordered()) ==> Ordered() && order == AfterEviction(old(order), capacity)
    {
      if Ordered() {
        EncodedSize(entries, order);
      }
      hide Encodes;
      if |entries| >= capacity {
        EvictLru();
      }
    }

    /** Read the table's view once and cache it under every listed row that is not resident yet; a failed read changes
        nothing. */
    method Prefetch(table: string, rowIds: seq<u64>, read: Option<V>) returns (ok: bool)
      requires Valid()
      modifies this`entries, this`accessCounter, this`order
      ensures Valid() && (ok <==> read.Some?)
      ensures !ok ==> entries == old(entries) && accessCounter == old(accessCounter) && order == old(order)
      ensures ok ==> forall k :: k in entries ==>
        (k in old(entries) && entries[k] == old(entries)[k]) ||
          (k in KeysOf(table, rowIds) && entries[k].view == read.value)
      ensures ok && old(Ordered()) && old(accessCounter) + |rowIds| <= USIZE_MAX ==>
        Ordered() && order == Prefetched(old(order), capacity, KeysOf(table, rowIds))
    {
      if read.None? {
        return false;
      }
      var view := read.value;
      var keys := KeysOf(table, rowIds);
      for i := 0 to |keys|
        invariant Valid() && accessCounter <= old(accessCounter) + i
        invariant forall k :: k in entries ==>
          (k in old(entries) && entries[k] == old(entries)[k]) || (k in keys && entries[k].view == view)
        invariant old(Ordered()) && old(accessCounter) + |rowIds| <= USIZE_MAX ==>
          Ordered() && order == Prefetched(old(order), capacity, keys[..i])
      {
        assert keys[..i + 1][..i] == keys[..i];
        if keys[i] !in entries {
          Insert(keys[i], view);
        }
      }
      assert keys[..|keys|] == keys;
      ok := true;
    }

    method Clear()
      modifies this
      ensures Valid() && Ordered() && order == [] && accessCounter == 0 && !dirty && currentTick == old(currentTick)
    {
      entries, accessCounter, dirty, order := map[], 0, false, [];
    }

    /** Entries never outlive their tick. */
    method SetTick(tick: u64)
      requires Valid()
      modifies this
      ensures Valid() && currentTick == tick
      ensures if tick == old(currentTick) then entries == old(entries) && order == old(order)
              else Ordered() && order == []
    {
      if currentTick != tick {
        Clear();
        currentTick := tick;
      }
    }
  }

  function KeysOf(table: string, rowIds: seq<u64>): (keys: seq<Key>)
    ensures |keys| == |rowIds| && forall i :: 0 <= i < |keys| ==> keys[i].table == table && keys[i].rowId == rowIds[i]
  {
    seq(|rowIds|, (i: nat) requires i < |rowIds| => Key(table, rowIds[i]))
  }

  lemma FirstIsLeast<V>(entries: Entries<V>, order: Recency, victim: Key)
    requires Encodes(entries, order) && victim in entries
    requires forall k :: k in entries ==> entries[victim].lastAccess <= entries[k].lastAccess
    ensures order != [] && order[0] == victim
  {
    assert victim in order;
    assert order[0] in entries;
  }

  lemma {:induction false} EncodedSize<V>(entries: Entries<V>, order: Recency)
    requires Encodes(entries, order)
    ensures |entries| == |order|
    decreases |order|
  {
    if order == [] {
      assert forall k :: k !in entries;
      assert entries == map[];
    } else {
      Shorter(entries, order);
      EncodedSize(entries - {order[0]}, order[1..]);
      assert (entries - {order[0]}).Keys == entries.Keys - {order[0]};
    }
  }
}
