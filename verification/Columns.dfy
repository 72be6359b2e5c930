/** Column arrays with an optional validity bitmap, and the patch loops over them. */
module Columns {
  import opened Machine

  // ---------------------------------------------------------------- bits of a byte

  type BitIndex = i: nat | i < 8

  function Mask(i: BitIndex): bv8 {
    1 << i
  }

  predicate Bit(byte: bv8, i: BitIndex) {
    byte & Mask(i) != 0
  }

  lemma MaskTable()
    ensures Mask(0) == 1 && Mask(1) == 2 && Mask(2) == 4 && Mask(3) == 8
    ensures Mask(4) == 16 && Mask(5) == 32 && Mask(6) == 64 && Mask(7) == 128
  {
  }

  lemma SetBit(byte: bv8, i: BitIndex, j: BitIndex)
    ensures Bit(byte | Mask(i), j) <==> i == j || Bit(byte, j)
  {
    MaskTable();
  }

  lemma ClearBit(byte: bv8, i: BitIndex, j: BitIndex)
    ensures Bit(byte & !Mask(i), j) <==> i != j && Bit(byte, j)
  {
    MaskTable();
  }

  predicate BitAt(bytes: seq<bv8>, row: nat)
    requires row < 8 * |bytes|
  {
    Bit(bytes[row / 8], row % 8)
  }

  /** The byte of one row, after that row is marked valid or null. */
  function MarkedByte(byte: bv8, row: nat, valid: bool): bv8 {
    if valid then byte | Mask(row % 8) else byte & !Mask(row % 8)
  }

  lemma MarkedBytes(bytes: seq<bv8>, row: nat, valid: bool, i: nat)
    requires row < 8 * |bytes| && i < 8 * |bytes|
    ensures BitAt(bytes[row / 8 := MarkedByte(bytes[row / 8], row, valid)], i) <==>
      if i == row then valid else BitAt(bytes, i)
  {
    SetBit(bytes[row / 8], row % 8, i % 8);
    ClearBit(bytes[row / 8], row % 8, i % 8);
    hide Bit, Mask;
    if i / 8 == row / 8 {
      assert i == row <==> i % 8 == row % 8;
    }
  }

  lemma AllOnes(bytes: seq<bv8>, i: nat)
    requires i < 8 * |bytes| && bytes[i / 8] == 0xFF
    ensures BitAt(bytes, i)
  {
    MaskTable();
  }

  /** The byte whose bit i says whether element start + i exists and is true. */
  function PackByte(bools: seq<bool>, start: nat): bv8 {
    var at := (i: nat) => start + i < |bools| && bools[start + i];
    (if at(0) then Mask(0) else 0) | (if at(1) then Mask(1) else 0) |
    (if at(2) then Mask(2) else 0) | (if at(3) then Mask(3) else 0) |
    (if at(4) then Mask(4) else 0) | (if at(5) then Mask(5) else 0) |
    (if at(6) then Mask(6) else 0) | (if at(7) then Mask(7) else 0)
  }

  lemma PackByteBit(bools: seq<bool>, start: nat, i: BitIndex)
    ensures Bit(PackByte(bools, start), i) <==> start + i < |bools| && bools[start + i]
  {
    MaskTable();
  }

  /** A fresh bitmap for a list of validity flags. */
  function PackBits(bools: seq<bool>): (bytes: seq<bv8>)
    ensures |bytes| == (|bools| + 7) / 8
  {
    seq((|bools| + 7) / 8, (k: nat) => PackByte(bools, 8 * k))
  }

  // ---------------------------------------------------------------- columns

  /** A primitive array: a value slot per row, and a bitmap (least significant bit first) when rows may be null.
      The bitmap may be longer than the rows need, and its trailing bits are arbitrary. */
  datatype Primitive<+T> = Primitive(values: seq<T>, nulls: Option<seq<bv8>>)

  predicate Valid<T>(c: Primitive<T>) {
    c.nulls.Some? ==> 8 * |c.nulls.value| >= |c.values|
  }

  predicate IsNull<T>(c: Primitive<T>, row: nat)
    requires Valid(c) && row < |c.values|
  {
    c.nulls.Some? && !BitAt(c.nulls.value, row)
  }

  /** What a column means: one optional value per row. */
  function Denote<T>(c: Primitive<T>): (cells: seq<Option<T>>)
    requires Valid(c)
    ensures |cells| == |c.values|
  {
    seq(|c.values|, (i: nat) requires i < |c.values| => if IsNull(c, i) then None else Some(c.values[i]))
  }

  type Patches = seq<(nat, nat)>

  /** The plain patch loop over optional values, as used for boolean and string columns:
      each (target, source) pair in turn overwrites a cell, and a pair outside either side is skipped. */
  function PatchCells<T>(cells: seq<T>, source: seq<T>, patches: Patches): (r: seq<T>)
    ensures |r| == |cells|
  {
    if patches == [] then cells
    else PatchCell(PatchCells(cells, source, patches[..|patches| - 1]), source, patches[|patches| - 1])
  }

  function PatchCell<T>(cells: seq<T>, source: seq<T>, patch: (nat, nat)): (r: seq<T>)
    ensures |r| == |cells|
  {
    if patch.0 < |cells| && patch.1 < |source| then cells[patch.0 := source[patch.1]] else cells
  }

  /** The last of some patches that takes a row of the source to a place. */
  ghost predicate LastPatch<T>(source: seq<T>, patches: Patches, place: nat, k: int) {
    && 0 <= k < |patches| && patches[k].0 == place && patches[k].1 < |source|
    && forall j :: k < j < |patches| ==> !(patches[j].0 == place && patches[j].1 < |source|)
  }

  /** A patched cell is the source's row that the last patch for its place names; without such a patch it is the old
      one. Patches beyond the source or the cells do nothing. */
  lemma {:induction false} PatchCellsAt<T>(cells: seq<T>, source: seq<T>, patches: Patches, place: nat)
    requires place < |cells|
    ensures forall k :: LastPatch(source, patches, place, k) ==>
      PatchCells(cells, source, patches)[place] == source[patches[k].1]
    ensures (forall k :: !LastPatch(source, patches, place, k)) ==>
      PatchCells(cells, source, patches)[place] == cells[place]
  {
    if patches != [] {
      var n := |patches| - 1;
      var init := patches[..n];
      PatchCellsAt(cells, source, init, place);
      if patches[n].0 == place && patches[n].1 < |source| {
        assert LastPatch(source, patches, place, n);
      } else {
        forall k ensures LastPatch(source, patches, place, k) <==> LastPatch(source, init, place, k) {
        }
      }
      hide PatchCells;
    }
  }

  /** The loop for boolean and string columns. */
  method PatchOptions<T>(orig: seq<Option<T>>, source: seq<Option<T>>, patches: Patches)
    returns (r: seq<Option<T>>)
    ensures r == PatchCells(orig, source, patches)
  {
    r := orig;
    for k := 0 to |patches|
      invariant r == PatchCells(orig, source, patches[..k])
    {
      var (target, row) := patches[k];
      assert patches[..k + 1][..k] == patches[..k];
      if target < |r| && row < |source| {
        r := r[target := source[row]];
      }
    }
    assert patches[..|patches|] == patches;
  }

  /** The loop for primitive columns, on raw values and a copied bitmap, means the same as the plain loop. */
  method PatchPrimitive<T(0)>(orig: Primitive<T>, source: Primitive<T>, patches: Patches) returns (r: Primitive<T>)
    requires Valid(orig) && Valid(source)
    ensures Valid(r) && Denote(r) == PatchCells(Denote(orig), Denote(source), patches)
  {
    var len := |orig.values|;
    var numBytes := (len + 7) / 8;
    var values := new T[len](i requires 0 <= i < len => orig.values[i]);
    var nullBytes := new bv8[numBytes](i requires 0 <= i < numBytes =>
      if orig.nulls.Some? then orig.nulls.value[i] else 0xFF);
    ghost var cells := Denote(orig);
    CopyRepresents(orig, values[..], nullBytes[..]);

    hide BitAt, MarkedByte, IsNull;
    for k := 0 to |patches|
      invariant cells == PatchCells(Denote(orig), Denote(source), patches[..k])
      invariant |cells| == len && Represents(values[..], nullBytes[..], cells)
    {
      var (target, row) := patches[k];
      assert patches[..k + 1][..k] == patches[..k];
      if target < len && row < |source.values| {
        var byteIdx := target / 8;
        var valid := !IsNull(source, row);
        ghost var was, oldBytes := values[..], nullBytes[..];
        if valid {
          values[target] := source.values[row];
        }
        nullBytes[byteIdx] := MarkedByte(nullBytes[byteIdx], target, valid);
        assert nullBytes[..] == oldBytes[byteIdx := MarkedByte(oldBytes[byteIdx], target, valid)];
        assert values[..] == if valid then was[target := source.values[row]] else was;
        MarkRepresents(was, oldBytes, cells, source, patches[k]);
        cells := PatchCell(cells, Denote(source), patches[k]);
      }
    }
    assert patches[..|patches|] == patches;

    if exists i :: 0 <= i < numBytes && nullBytes[i] != 0xFF {
      var bytes := nullBytes[..];
      var bools := seq(len, (i: nat) requires i < len => BitAt(bytes, i));
      r := Primitive(values[..], Some(PackBits(bools)));
      PackRepresents(values[..], bytes, cells, bools);
    } else {
      r := Primitive(values[..], None);
      OnesRepresent(values[..], nullBytes[..], cells);
    }
  }

  /** Row i of the working buffers holds cell i. */
  ghost predicate Represents<T>(values: seq<T>, bytes: seq<bv8>, cells: seq<Option<T>>) {
    |values| == |cells| && |bytes| == (|cells| + 7) / 8 &&
    forall i :: 0 <= i < |cells| ==> cells[i] == if BitAt(bytes, i) then Some(values[i]) else None
  }

  lemma CopyRepresents<T>(orig: Primitive<T>, values: seq<T>, bytes: seq<bv8>)
    requires Valid(orig) && values == orig.values && |bytes| == (|values| + 7) / 8
    requires forall i :: 0 <= i < |bytes| ==> bytes[i] == if orig.nulls.Some? then orig.nulls.value[i] else 0xFF
    ensures Represents(values, bytes, Denote(orig))
  {
    forall i | 0 <= i < |values| ensures BitAt(bytes, i) <==> !IsNull(orig, i) {
      if orig.nulls.None? { AllOnes(bytes, i); }
    }
  }

  lemma MarkRepresents<T>(values: seq<T>, bytes: seq<bv8>, cells: seq<Option<T>>, source: Primitive<T>,
                          patch: (nat, nat))
    requires Valid(source) && Represents(values, bytes, cells)
    requires patch.0 < |cells| && patch.1 < |source.values|
    ensures var (target, row) := patch; var valid := !IsNull(source, row);
      Represents(if valid then values[target := source.values[row]] else values,
                 bytes[target / 8 := MarkedByte(bytes[target / 8], target, valid)],
                 PatchCell(cells, Denote(source), patch))
  {
    hide BitAt, MarkedByte, IsNull;
    var (target, row) := patch;
    var valid := !IsNull(source, row);
    var newValues := if valid then values[target := source.values[row]] else values;
    var newBytes := bytes[target / 8 := MarkedByte(bytes[target / 8], target, valid)];
    var newCells := PatchCell(cells, Denote(source), patch);
    forall i | 0 <= i < |cells|
      ensures newCells[i] == if BitAt(newBytes, i) then Some(newValues[i]) else None
    {
      MarkedBytes(bytes, target, valid, i);
    }
  }

  lemma PackRepresents<T>(values: seq<T>, bytes: seq<bv8>, cells: seq<Option<T>>, bools: seq<bool>)
    requires Represents(values, bytes, cells) && |bools| == |cells|
    requires forall i :: 0 <= i < |cells| ==> bools[i] == BitAt(bytes, i)
    ensures var r := Primitive(values, Some(PackBits(bools))); Valid(r) && Denote(r) == cells
  {
    var r := Primitive(values, Some(PackBits(bools)));
    forall i | 0 <= i < |cells| ensures IsNull(r, i) <==> !bools[i] {
      PackBitsAt(bools, i);
    }
    hide PackBits;
  }

  lemma PackBitsAt(bools: seq<bool>, i: nat)
    requires i < |bools|
    ensures BitAt(PackBits(bools), i) <==> bools[i]
  {
    PackByteBit(bools, 8 * (i / 8), i % 8);
    hide PackByte, Bit;
  }

  lemma OnesRepresent<T>(values: seq<T>, bytes: seq<bv8>, cells: seq<Option<T>>)
    requires Represents(values, bytes, cells) && forall i :: 0 <= i < |bytes| ==> bytes[i] == 0xFF
    ensures var r := Primitive(values, None); Valid(r) && Denote(r) == cells
  {
    forall i | 0 <= i < |cells| ensures BitAt(bytes, i) {
      AllOnes(bytes, i);
    }
  }
}
