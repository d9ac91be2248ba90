/**
 The contents of the two segment kinds that store values themselves, and their
 common reading view: a sequence of cells.
 */
module Segments {
  import opened Types
  import opened FixedWidth

  datatype StoredSegment =
    | ValueData(ty: DataType, values: seq<Value>, nulls: Option<seq<bool>>)
    | DictionaryData(ty: DataType, dictionary: seq<Value>, width: Width, ids: seq<nat>)
  {
    function Size(): nat {
      if ValueData? then |values| else |ids|
    }

    /** The shape every read relies on. */
    ghost predicate Readable() {
      && Size() <= MAX_UINT32
      && (ValueData? ==> nulls.Some? ==> |nulls.value| == |values|)
      && (DictionaryData? ==>
            && |dictionary| <= MAX_UINT32
            && forall i :: 0 <= i < |ids| ==> ids[i] <= |dictionary|)
    }

    predicate IsNull(i: nat)
      requires ValueData? && Readable() && i < |values|
    {
      nulls.Some? && nulls.value[i]
    }

    /** `get_typed_value` of either kind. */
    function CellAt(i: nat): Cell
      requires Readable() && i < Size()
    {
      if ValueData? then
        if IsNull(i) then Null else NonNull(values[i])
      else
        if ids[i] == NullValueId(dictionary) then Null else NonNull(dictionary[ids[i]])
    }

    ghost function Cells(): (cells: seq<Cell>)
      requires Readable()
      ensures |cells| == Size()
    {
      seq(Size(), i requires 0 <= i < Size() => CellAt(i))
    }
  }

  /** The in-band id of NULL: the dictionary size, as a 32-bit value id. */
  function NullValueId(dictionary: seq<Value>): (id: nat)
    ensures |dictionary| <= MAX_UINT32 ==> id == |dictionary|
  {
    |dictionary| % 0x1_0000_0000
  }

  /** The positions of the matching cells of one segment, by definition of the filter. */
  ghost function MatchPositions(chunkId: nat, cells: seq<Cell>, op: ScanType, v: Value): seq<RowID> {
    if cells == [] then []
    else
      var n := |cells| - 1;
      var found := MatchPositions(chunkId, cells[..n], op, v);
      if Matches(cells[n], op, v) then found + [RowID(chunkId, n)] else found
  }
}
