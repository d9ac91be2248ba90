/** The scan operator over value, dictionary and reference segments. */
module TableScans {
  import opened Types
  import opened Segments
  import opened Encoding
  import opened DictionaryScan
  import opened TableModel
  import opened ScanModel
  import opened ScanTheorems
  import opened ValueSegments
  import opened DictionarySegments
  import opened Storage

  /** The contents of the given tables now. */
  ghost function Contents(tables: set<Table>): Store<Table>
    reads tables
  {
    map t | t in tables :: t.model
  }

  /** The comparison of value ids that a scan type starts from. */
  function IdOperation(op: ScanType): (nat, nat) -> bool {
    match op
    case OpEquals => (l: nat, r: nat) => l == r
    case OpNotEquals => (l: nat, r: nat) => l != r
    case OpLessThan => (l: nat, r: nat) => l < r
    case OpLessThanEquals => (l: nat, r: nat) => l <= r
    case OpGreaterThan => (l: nat, r: nat) => l > r
    case OpGreaterThanEquals => (l: nat, r: nat) => l >= r
  }

  lemma {:induction false} EqualBoundsFindNothing(chunkId: nat, dictionary: seq<Value>, ids: seq<nat>, v: Value)
    requires LowerBoundId(dictionary, v) == UpperBoundId(dictionary, v)
    ensures IdPositions(chunkId, dictionary, ids, OpEquals, v) == []
  {
    if ids != [] {
      EqualBoundsFindNothing(chunkId, dictionary, ids[..|ids| - 1], v);
    }
  }

  /** On a stored chunk, selecting rows by one column is filtering the cells of its segment. */
  lemma StoredSelection<R>(store: Store<R>, self: R, t: TableData<R>, i: nat, column: nat, op: ScanType, v: Value)
    requires Scannable(store, t) && i < |t.chunks| && column < |t.schema.types| && t.chunks[i][column].Stored?
    ensures StoredChunk(t.schema.types, t.chunks[i])
    ensures PositionsOf(Select(ChunkEntries(store, self, t, i), Comparison(column, op, v)))
            == MatchPositions(i, t.chunks[i][column].seg.Cells(), op, v)
  {
    assert StoredChunk(t.schema.types, t.chunks[i]);
    var entries, cells := ChunkEntries(store, self, t, i), t.chunks[i][column].seg.Cells();
    forall k | 0 <= k < |entries|
      ensures entries[k].position == RowID(i, k) && entries[k].row[column] == cells[k]
    {
    }
    SelectionIsFilter(entries, cells, i, column, op, v);
  }

  lemma {:induction false} SelectionIsFilter<R>(
      entries: seq<Entry<R>>, cells: seq<Cell>, i: nat, column: nat, op: ScanType, v: Value)
    requires |entries| == |cells|
    requires forall k :: 0 <= k < |entries| ==>
               column < |entries[k].row| && entries[k].position == RowID(i, k) && entries[k].row[column] == cells[k]
    ensures PositionsOf(Select(entries, Comparison(column, op, v))) == MatchPositions(i, cells, op, v)
  {
    if entries != [] {
      var n := |entries| - 1;
      SelectionIsFilter(entries[..n], cells[..n], i, column, op, v);
    }
  }

  /** What collecting one chunk gives, for the cast search value: a throw needs a row. */
  ghost predicate CollectedChunk(v: Option<Value>, column: nat, op: ScanType, entries: seq<Entry<Table>>,
                                 r: Option<seq<ReferenceSegment>>)
  {
    if v.None? then r == if entries == [] then Some([]) else None
    else r.Some? && AllReferences(r.value) == AllFound(Kept(Select(entries, Comparison(column, op, v.value))))
  }

  /** What collecting the first `n` chunks gives. */
  ghost predicate CollectedUpTo(v: Option<Value>, column: nat, op: ScanType, lists: seq<seq<Entry<Table>>>, n: nat,
                                references: seq<ReferenceSegment>)
    requires n <= |lists|
  {
    if v.None? then references == [] && forall i :: 0 <= i < n ==> lists[i] == []
    else AllReferences(references) == AllFound(Survivors(lists[..n], Comparison(column, op, v.value)))
  }

  lemma CollectMore(v: Option<Value>, column: nat, op: ScanType, lists: seq<seq<Entry<Table>>>, n: nat,
                    before: seq<ReferenceSegment>, more: seq<ReferenceSegment>)
    requires n < |lists| && CollectedUpTo(v, column, op, lists, n, before)
    requires CollectedChunk(v, column, op, lists[n], Some(more))
    ensures CollectedUpTo(v, column, op, lists, n + 1, before + more)
  {
    if v.Some? {
      var test := Comparison(column, op, v.value);
      assert lists[..n + 1][..n] == lists[..n];
      var a, b := Survivors(lists[..n], test), Kept(Select(lists[n], test));
      assert Survivors(lists[..n + 1], test) == a + b;
      assert AllFound(a + b) == AllFound(a) + AllFound(b);
      assert AllReferences(before + more) == AllReferences(before) + AllReferences(more);
    }
  }

  /** The scan is the table made of all collected reference segments. */
  lemma ScanCollects(cast: Cast, store: Store<Table>, self: Table, t: TableData<Table>, q: Query,
                     references: seq<ReferenceSegment>)
    requires Scannable(store, t) && q.column < |t.schema.types|
    requires if q.search.Null? then references == []
             else CollectedUpTo(cast(t.schema.types[q.column], q.search.value), q.column, q.op,
                                EntryLists(store, self, t), |t.chunks|, references)
    ensures Scan(cast, store, self, t, q) == Some(ScanModel.FromReferences(t, AllReferences(references)))
  {
    var lists := EntryLists(store, self, t);
    assert lists[..|t.chunks|] == lists;
    assert AllFound<Table>([]) == AllReferences([]);
    if q.search.NonNull? && cast(t.schema.types[q.column], q.search.value).None? {
      forall i | 0 <= i < |t.chunks|
        ensures ChunkSize(t.chunks[i]) == 0
      {
        assert lists[i] == [];
      }
    }
  }

  lemma SelectNext<R>(entries: seq<Entry<R>>, n: nat, test: Test)
    requires n < |entries|
    ensures PositionsOf(Select(entries[..n + 1], test))
            == PositionsOf(Select(entries[..n], test))
               + (if test.Accepts(entries[n].row) then [entries[n].position] else [])
  {
    assert entries[..n + 1][..n] == entries[..n];
  }

  class TableScan {
    const columnId: nat
    const scanType: ScanType
    const searchValue: Cell

    constructor (columnId: nat, scanType: ScanType, searchValue: Cell)
      ensures Query() == ScanModel.Query.Query(columnId, scanType, searchValue)
    {
      this.columnId, this.scanType, this.searchValue := columnId, scanType, searchValue;
    }

    ghost function Query(): Query {
      ScanModel.Query.Query(columnId, scanType, searchValue)
    }

    /** The positions of the matching values; None when the search value cannot be cast. */
    method TablescanValueSegment(cast: Cast, segment: ValueSegment, chunkId: nat) returns (r: Option<seq<RowID>>)
      requires searchValue.NonNull? && segment.View().Readable()
      ensures var v := cast(segment.ty, searchValue.value);
              r == if v.None? then None else Some(MatchPositions(chunkId, segment.View().Cells(), scanType, v.value))
    {
      var searchVal := cast(segment.ty, searchValue.value);
      if searchVal.None? {
        return None;
      }
      var positions := [];
      ghost var cells := segment.View().Cells();
      for index := 0 to |segment.values|
        invariant positions == MatchPositions(chunkId, cells[..index], scanType, searchVal.value)
      {
        assert cells[..index + 1][..index] == cells[..index];
        if !segment.IsNull(index) && Compare(scanType, segment.values[index], searchVal.value) {
          positions := positions + [RowID(chunkId, index)];
        }
      }
      assert cells[..|segment.values|] == cells;
      return Some(positions);
    }

    /** The same positions, found by comparing value ids only. */
    method TablescanDictSegment(cast: Cast, segment: DictionarySegment, chunkId: nat) returns (r: Option<seq<RowID>>)
      requires searchValue.NonNull? && segment.View().Readable() && StrictlyAscending(segment.dictionary)
      ensures var v := cast(segment.ty, searchValue.value);
              r == if v.None? then None else Some(MatchPositions(chunkId, segment.View().Cells(), scanType, v.value))
    {
      var searchVal := cast(segment.ty, searchValue.value);
      if searchVal.None? {
        return None;
      }
      var scanOp := IdOperation(scanType);
      var lower := segment.LowerBound(searchVal.value);
      var upper := segment.UpperBound(searchVal.value);
      IdScanIsFilter(chunkId, segment.View(), scanType, searchVal.value);
      match scanType {
        case OpEquals =>
          if lower == upper {
            EqualBoundsFindNothing(chunkId, segment.dictionary, segment.View().ids, searchVal.value);
            return Some([]);
          }
        case OpNotEquals =>
          if lower == upper {
            scanOp := (l: nat, r: nat) => true;
          }
        case OpLessThanEquals =>
          scanOp := (l: nat, r: nat) => l < upper;
        case OpGreaterThan =>
          scanOp := (l: nat, r: nat) => l >= upper;
        case _ =>
      }
      assert forall id: nat :: scanOp(id, lower) <==> IdMatches(scanType, id, lower, upper);
      var positions := [];
      ghost var ids := segment.View().ids;
      for index := 0 to segment.attributeVector.Size()
        invariant positions == IdPositions(chunkId, segment.dictionary, ids[..index], scanType, searchVal.value)
      {
        assert ids[..index + 1][..index] == ids[..index];
        var valueId := segment.attributeVector.Get(index);
        if valueId != NullValueId(segment.dictionary) && scanOp(valueId, lower) {
          positions := positions + [RowID(chunkId, index)];
        }
      }
      assert ids[..segment.attributeVector.Size()] == ids;
      return Some(positions);
    }

    /** The cell of the scanned column at a position of a referenced table. */
    method ReadReferenced(table: Table, row: RowID) returns (cell: Cell)
      requires table.Valid() && HasRow(table.model, row) && columnId < |table.model.schema.types|
      ensures cell == RowAt(table.model, row)[columnId]
    {
      var chunk := table.chunks[row.chunkId];
      assert chunk.columns[columnId].View() == chunk.model[columnId];
      match chunk.columns[columnId]
      case ValueSeg(v) =>
        cell := if v.IsNull(row.chunkOffset) then Null else NonNull(v.values[row.chunkOffset]);
      case DictSeg(d) =>
        var valueId := d.attributeVector.Get(row.chunkOffset);
        cell := if valueId == NullValueId(d.dictionary) then Null else NonNull(d.dictionary[valueId]);
      case RefSeg(_) =>
        assert false;
    }

    /** The positions of the input list whose referenced cell matches; `entries` are the rows they name. */
    method TablescanReferenceSegment(cast: Cast, segment: ReferenceSegment, ty: DataType,
                                     ghost entries: seq<Entry<Table>>)
      returns (r: Option<seq<RowID>>)
      requires searchValue.NonNull? && segment.referencedTable.Valid()
      requires columnId < |segment.referencedTable.model.schema.types|
      requires |entries| == |segment.posList|
      requires forall k :: 0 <= k < |entries| ==>
                 && HasRow(segment.referencedTable.model, segment.posList[k])
                 && entries[k].position == segment.posList[k]
                 && entries[k].row == RowAt(segment.referencedTable.model, segment.posList[k])
      ensures var v := cast(ty, searchValue.value);
              r == if v.None? then None else Some(PositionsOf(Select(entries, Comparison(columnId, scanType, v.value))))
    {
      var searchVal := cast(ty, searchValue.value);
      if searchVal.None? {
        return None;
      }
      var positions := [];
      ghost var test := Comparison(columnId, scanType, searchVal.value);
      for index := 0 to segment.Size()
        invariant positions == PositionsOf(Select(entries[..index], test))
      {
        var cell := ReadReferenced(segment.referencedTable, segment.posList[index]);
        SelectNext(entries, index, test);
        if cell.NonNull? && Compare(scanType, cell.value, searchVal.value) {
          positions := positions + [segment.posList[index]];
        }
      }
      assert entries[..|entries|] == entries;
      return Some(positions);
    }

    /** Scans one non-empty chunk by the kind of its segment of the scanned column. */
    method ScanChunk(cast: Cast, input: Table, chunkId: nat, ghost tables: set<Table>) returns (r: Option<seq<RowID>>)
      requires searchValue.NonNull? && input.Valid() && chunkId < |input.chunks|
      requires forall t :: t in tables ==> t.Valid()
      requires Scannable(Contents(tables), input.model) && columnId < |input.model.schema.types|
      ensures var v := cast(input.model.schema.types[columnId], searchValue.value);
              r == if v.None? then None
                   else Some(PositionsOf(Select(ChunkEntries(Contents(tables), input, input.model, chunkId),
                                                Comparison(columnId, scanType, v.value))))
    {
      var chunk := input.chunks[chunkId];
      ghost var store := Contents(tables);
      ghost var v := cast(input.columnTypes[columnId], searchValue.value);
      assert chunk.columns[columnId].View() == chunk.model[columnId] == input.model.chunks[chunkId][columnId];
      if input.model.chunks[chunkId][columnId].Stored? && v.Some? {
        StoredSelection(store, input, input.model, chunkId, columnId, scanType, v.value);
      }
      match chunk.columns[columnId]
      case ValueSeg(segment) =>
        r := TablescanValueSegment(cast, segment, chunkId);
      case DictSeg(segment) =>
        r := TablescanDictSegment(cast, segment, chunkId);
      case RefSeg(segment) =>
        ghost var entries := ChunkEntries(store, input, input.model, chunkId);
        r := TablescanReferenceSegment(cast, segment, input.columnTypes[columnId], entries);
    }

    /** The reference segment to the matches of one chunk: none if there are none. */
    method CollectChunk(cast: Cast, input: Table, chunkId: nat, ghost tables: set<Table>)
      returns (r: Option<seq<ReferenceSegment>>)
      requires searchValue.NonNull? && input.Valid() && chunkId < |input.chunks|
      requires forall t :: t in tables ==> t.Valid()
      requires Scannable(Contents(tables), input.model) && columnId < |input.model.schema.types|
      ensures CollectedChunk(cast(input.model.schema.types[columnId], searchValue.value), columnId, scanType,
                             EntryLists(Contents(tables), input, input.model)[chunkId], r)
    {
      ghost var v := cast(input.model.schema.types[columnId], searchValue.value);
      ghost var entries := ChunkEntries(Contents(tables), input, input.model, chunkId);
      if input.chunks[chunkId].Size() == 0 {
        assert entries == [];
        return Some([]);
      }
      var positions := ScanChunk(cast, input, chunkId, tables);
      if positions.None? {
        return None;
      }
      ghost var test := Comparison(columnId, scanType, v.value);
      ghost var matches := Select(entries, test);
      if positions.value == [] {
        return Some([]);
      }
      SelectIsSubset(entries, test);
      assert matches[0] in matches;
      assert input.chunks[chunkId].columns[columnId].View() == input.model.chunks[chunkId][columnId];
      var target := input;
      match input.chunks[chunkId].columns[columnId] {
        case RefSeg(segment) => target := segment.referencedTable;
        case _ =>
      }
      assert matches[0].target == target;
      return Some([ReferenceSegment(target, columnId, positions.value)]);
    }

    /** The reference segments to the matches of all chunks; None when a chunk throws. */
    method CollectReferences(cast: Cast, input: Table, ghost tables: set<Table>)
      returns (r: Option<seq<ReferenceSegment>>)
      requires searchValue.NonNull? && input.Valid()
      requires forall t :: t in tables ==> t.Valid()
      requires Scannable(Contents(tables), input.model) && columnId < |input.model.schema.types|
      ensures var v := cast(input.model.schema.types[columnId], searchValue.value);
              var lists := EntryLists(Contents(tables), input, input.model);
              if r.Some? then CollectedUpTo(v, columnId, scanType, lists, |lists|, r.value)
              else v.None? && exists i :: 0 <= i < |lists| && lists[i] != []
    {
      var references: seq<ReferenceSegment> := [];
      ghost var lists := EntryLists(Contents(tables), input, input.model);
      ghost var v := cast(input.model.schema.types[columnId], searchValue.value);
      for chunkId := 0 to |input.chunks|
        invariant CollectedUpTo(v, columnId, scanType, lists, chunkId, references)
      {
        var found := CollectChunk(cast, input, chunkId, tables);
        if found.None? {
          assert lists[chunkId] != [];
          return None;
        }
        CollectMore(v, columnId, scanType, lists, chunkId, references, found.value);
        references := references + found.value;
      }
      return Some(references);
    }

    /** What the output table is made of; a search for NULL collects nothing. */
    method Collect(cast: Cast, input: Table, ghost tables: set<Table>) returns (r: Option<seq<ReferenceSegment>>)
      requires input.Valid() && forall t :: t in tables ==> t.Valid()
      requires Scannable(Contents(tables), input.model) && columnId < |input.model.schema.types|
      ensures Scan(cast, Contents(tables), input, input.model, Query())
              == if r.None? then None else Some(ScanModel.FromReferences(input.model, AllReferences(r.value)))
    {
      r := Some([]);
      if searchValue.NonNull? {
        r := CollectReferences(cast, input, tables);
      }
      if r.Some? {
        ScanCollects(cast, Contents(tables), input, input.model, Query(), r.value);
      } else {
        ghost var lists := EntryLists(Contents(tables), input, input.model);
        ghost var i :| 0 <= i < |lists| && lists[i] != [];
        assert ChunkSize(input.model.chunks[i]) > 0;
      }
    }

    /** `_on_execute`: scans chunk by chunk and returns a new table of references; None when the
        search value cannot be cast and some chunk is not empty. */
    method OnExecute(cast: Cast, input: Table, ghost tables: set<Table>) returns (r: Option<Table>)
      requires input.Valid() && forall t :: t in tables ==> t.Valid()
      requires Scannable(Contents(tables), input.model) && columnId < |input.model.schema.types|
      ensures var expected := old(Scan(cast, Contents(tables), input, input.model, Query()));
              && (r.Some? <==> expected.Some?)
              && (r.Some? ==> fresh(r.value) && fresh(r.value.Repr) && r.value.Valid())
              && (r.Some? ==> r.value.model == expected.value)
    {
      var references := Collect(cast, input, tables);
      if references.None? {
        return None;
      }
      var table := new Table.FromReferences(input, references.value);
      return Some(table);
    }
  }
}
