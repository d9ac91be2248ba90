/**
 Chunks, reference segments and tables as objects that share segments and refer to
 each other. Each object carries its contents as a value in `model`; every method ties
 the new contents to the specification of the operation on the old ones.
 */
module Storage {
  import opened Types
  import opened TableModel
  import opened ScanModel
  import opened ValueSegments
  import opened DictionarySegments

  /** A column of positions in another table, resolved through that table at read time. */
  datatype ReferenceSegment = ReferenceSegment(referencedTable: Table, referencedColumnId: nat, posList: seq<RowID>) {
    function Size(): nat {
      |posList|
    }

    function View(): SegmentData<Table> {
      Reference(referencedTable, referencedColumnId, posList)
    }

    /** The subscript operator: what the referenced table holds now. None when it reads past a
        dictionary, which happens exactly for a NULL of a dictionary segment. */
    function Subscript(chunkOffset: nat): (r: Option<Cell>)
      requires chunkOffset < |posList| && referencedTable.Valid()
      requires referencedColumnId < |referencedTable.model.schema.types|
      requires posList[chunkOffset].IsNullRow() || HasRow(referencedTable.model, posList[chunkOffset])
      reads referencedTable, referencedTable.Repr
      ensures var p := posList[chunkOffset];
              if p.chunkOffset == 0xFFFF_FFFF then r == Some(Null)
              else
                var cell := RowAt(referencedTable.model, p)[referencedColumnId];
                var segment := referencedTable.model.chunks[p.chunkId][referencedColumnId].seg;
                r == if cell.Null? && segment.DictionaryData? then None else Some(cell)
    {
      if posList[chunkOffset].IsNullRow() then Some(Null)
      else referencedTable.Subscript(posList[chunkOffset], referencedColumnId)
    }
  }

  /** A reference to one of the three segment kinds; matching on it is the dynamic cast. */
  datatype Segment =
    | ValueSeg(v: ValueSegment)
    | DictSeg(d: DictionarySegment)
    | RefSeg(r: ReferenceSegment)
  {
    function Footprint(): set<object> {
      match this
      case ValueSeg(v) => {v}
      case DictSeg(d) => {d.attributeVector.attributes}
      case RefSeg(_) => {}
    }

    function View(): SegmentData<Table>
      reads Footprint()
    {
      match this
      case ValueSeg(v) => Stored(v.View())
      case DictSeg(d) => Stored(d.View())
      case RefSeg(r) => r.View()
    }
  }

  class Chunk {
    var columns: seq<Segment>
    ghost var model: ChunkData<Table>
    ghost var Repr: set<object>

    ghost predicate Valid()
      reads this, Repr
      ensures Valid() ==> this in Repr
    {
      && this in Repr
      && |model| == |columns|
      && (forall c :: 0 <= c < |columns| ==>
            && columns[c].Footprint() <= Repr
            && this !in columns[c].Footprint()
            && columns[c].View() == model[c])
      && (forall c, d :: 0 <= c < d < |columns| && columns[c].ValueSeg? && columns[d].ValueSeg? ==>
            columns[c].v != columns[d].v)
    }

    constructor ()
      ensures Valid() && Repr == {this} && model == []
    {
      columns := [];
      model := [];
      Repr := {this};
    }

    /** Adds a column. A segment that never changes may be in the chunk already; a value segment may not. */
    method AddSegment(segment: Segment)
      requires Valid() && (segment.ValueSeg? ==> segment.v !in Repr)
      modifies this
      ensures Valid() && Repr == old(Repr) + segment.Footprint()
      ensures model == old(model) + [segment.View()]
    {
      columns := columns + [segment];
      model := model + [segment.View()];
      Repr := Repr + segment.Footprint();
    }

    function Size(): nat
      requires Valid()
      reads this, Repr
      ensures Size() == ChunkSize(model)
    {
      if columns == [] then 0
      else
        match columns[0]
        case ValueSeg(v) => |v.values|
        case DictSeg(d) => d.attributeVector.Size()
        case RefSeg(r) => r.Size()
    }

    /** Appends a cell to one column, by the kind of its segment. */
    method AppendToColumn(cast: Cast, c: nat, cell: Cell) returns (ok: bool)
      requires Valid() && c < |columns|
      modifies this`model, columns[c].Footprint()
      ensures Valid() && columns == old(columns)
      ensures var a := AppendCell(cast, old(model[c]), cell);
              ok == a.completed && model == old(model)[c := a.after]
    {
      ok := true;
      match columns[c]
      case ValueSeg(v) =>
        ok := v.Append(cast, cell);
        model := model[c := Stored(v.View())];
      case _ =>
        model := model[c := model[c]];
    }

    /** Appends a row; false when a segment throws, and then earlier columns have grown already. */
    method Append(cast: Cast, values: Row) returns (ok: bool)
      requires Valid() && |values| == |columns|
      modifies Repr
      ensures Valid() && Repr == old(Repr) && columns == old(columns)
      ensures Attempt(model, ok) == AppendColumns(cast, old(model), values, |values|)
    {
      ok := true;
      for i := 0 to |columns|
        invariant Valid() && Repr == old(Repr) && columns == old(columns)
        invariant ok && Attempt(model, ok) == AppendColumns(cast, old(model), values, i)
      {
        ok := AppendToColumn(cast, i, values[i]);
        assert Attempt(model, ok) == AppendColumns(cast, old(model), values, i + 1);
        if !ok {
          AppendStopped(cast, old(model), values, i + 1);
          return;
        }
      }
    }
  }

  /** Once an append has thrown, the remaining columns are not touched. */
  lemma {:induction false} AppendStopped<R>(cast: Cast, chunk: ChunkData<R>, row: Row, k: nat)
    requires k <= |chunk| == |row| && !AppendColumns(cast, chunk, row, k).completed
    ensures AppendColumns(cast, chunk, row, |row|) == AppendColumns(cast, chunk, row, k)
    decreases |row| - k
  {
    if k < |row| {
      AppendStopped(cast, chunk, row, k + 1);
    }
  }

  /** An append starts a new chunk exactly when the last one has the target size or its first column
      is compressed. */
  lemma AppendRowStartsChunkIff<R>(cast: Cast, t: TableData<R>, row: Row)
    requires CanAppendTo(t, row)
    ensures var n := |t.chunks|;
            var last := t.chunks[n - 1];
            |AppendRow(cast, t, row).after.chunks| ==
              if ChunkSize(last) == t.targetSize ||
                 (last[0].Stored? && last[0].seg.DictionaryData? && last[0].seg.ty == t.schema.types[0])
              then n + 1 else n
  {
  }

  // ----- Building chunks -----

  /** A chunk with one empty value segment per column. */
  method NewValueChunk(types: seq<DataType>, nullable: seq<bool>, ghost names: seq<string>) returns (chunk: Chunk)
    requires |names| == |types| == |nullable|
    ensures fresh(chunk) && fresh(chunk.Repr) && chunk.Valid()
    ensures chunk.model == EmptyChunk(Schema(names, types, nullable))
  {
    chunk := new Chunk();
    for c := 0 to |types|
      invariant fresh(chunk) && fresh(chunk.Repr) && chunk.Valid()
      invariant chunk.model == EmptyChunk<Table>(Schema(names, types, nullable))[..c]
    {
      var segment := new ValueSegment(types[c], nullable[c]);
      chunk.AddSegment(ValueSeg(segment));
    }
  }

  /** A chunk with one reference segment per column over one shared position list. */
  method NewReferenceChunk(segment: ReferenceSegment, columnCount: nat, ghost schema: Schema) returns (chunk: Chunk)
    requires columnCount == |schema.types|
    ensures fresh(chunk) && fresh(chunk.Repr) && chunk.Valid()
    ensures chunk.model == ReferencesTo(schema, Found(segment.referencedTable, segment.posList))
  {
    chunk := new Chunk();
    for c := 0 to columnCount
      invariant fresh(chunk) && fresh(chunk.Repr) && chunk.Valid()
      invariant chunk.model == ReferencesTo(schema, Found(segment.referencedTable, segment.posList))[..c]
    {
      chunk.AddSegment(RefSeg(ReferenceSegment(segment.referencedTable, c, segment.posList)));
    }
  }

  ghost function AllReferences(segments: seq<ReferenceSegment>): (found: seq<Found<Table>>)
    ensures |found| == |segments|
  {
    seq(|segments|, i requires 0 <= i < |segments| => Found(segments[i].referencedTable, segments[i].posList))
  }

  /** Compresses every column of a chunk into its own slot. */
  method CompressColumns(chunk: Chunk, ghost types: seq<DataType>) returns (slots: seq<DictionarySegment?>)
    requires chunk.Valid() && Compressible(types, chunk.model)
    ensures |slots| == |types|
    ensures forall c :: 0 <= c < |slots| ==>
              slots[c] != null && fresh(slots[c].attributeVector.attributes) &&
              Stored(slots[c].View()) == CompressedChunk(types, chunk.model)[c]
  {
    slots := seq(|chunk.columns|, _ => null);
    for k := 0 to |chunk.columns|
      invariant |slots| == |chunk.columns|
      invariant forall c :: 0 <= c < k ==>
                  slots[c] != null && fresh(slots[c].attributeVector.attributes) &&
                  Stored(slots[c].View()) == CompressedChunk(types, chunk.model)[c]
    {
      assert chunk.model[k].IsValues() && chunk.columns[k].View() == chunk.model[k];
      match chunk.columns[k]
      case ValueSeg(v) =>
        var segment := new DictionarySegment(v);
        slots := slots[k := segment];
      case _ =>
        assert false;
    }
  }

  ghost function AttributeArrays(segments: seq<DictionarySegment?>): set<object> {
    set c | 0 <= c < |segments| && segments[c] != null :: segments[c].attributeVector.attributes
  }

  /** Adds the finished segments to a new chunk, in column order. */
  method CollectColumns(segments: seq<DictionarySegment?>, ghost whole: ChunkData<Table>) returns (chunk: Chunk)
    requires |segments| == |whole|
    requires forall c :: 0 <= c < |segments| ==> segments[c] != null && Stored(segments[c].View()) == whole[c]
    ensures fresh(chunk) && chunk.Valid() && chunk.model == whole
    ensures chunk.Repr == {chunk} + AttributeArrays(segments)
  {
    chunk := new Chunk();
    for c := 0 to |segments|
      invariant fresh(chunk) && chunk.Valid() && chunk.model == whole[..c]
      invariant chunk.Repr == {chunk} + AttributeArrays(segments[..c])
    {
      assert AttributeArrays(segments[..c + 1])
               == AttributeArrays(segments[..c]) + {segments[c].attributeVector.attributes} by {
        forall d | 0 <= d <= c
          ensures segments[..c + 1][d] == segments[d] && (d < c ==> segments[..c][d] == segments[d])
        {
        }
      }
      chunk.AddSegment(DictSeg(segments[c]));
    }
    assert segments[..|segments|] == segments && whole[..|whole|] == whole;
  }

  class Table {
    var chunks: seq<Chunk>
    var columnNames: seq<string>
    var columnTypes: seq<DataType>
    var columnNullable: seq<bool>
    var targetChunkSize: nat
    ghost var model: TableData<Table>
    ghost var Repr: set<object>

    ghost predicate Valid()
      reads this, Repr
      ensures Valid() ==> this in Repr
    {
      && this in Repr
      && model.schema == Schema(columnNames, columnTypes, columnNullable)
      && |columnNames| == |columnTypes| == |columnNullable|
      && model.targetSize == targetChunkSize
      && |model.chunks| == |chunks|
      && (forall i :: 0 <= i < |chunks| ==>
            && chunks[i] in Repr && chunks[i].Repr <= Repr && this !in chunks[i].Repr
            && chunks[i].Valid()
            && chunks[i].model == model.chunks[i])
      && (forall i, j :: 0 <= i < j < |chunks| ==> chunks[i].Repr !! chunks[j].Repr)
    }

    constructor (targetChunkSize: nat)
      ensures Valid() && fresh(Repr) && model == NewTable(targetChunkSize)
    {
      var chunk := new Chunk();
      this.targetChunkSize := targetChunkSize;
      chunks := [chunk];
      columnNames, columnTypes, columnNullable := [], [], [];
      model := NewTable(targetChunkSize);
      Repr := {this} + chunk.Repr;
    }

    method AddColumnDefinition(name: string, ty: DataType, nullable: bool) returns (ok: bool)
      requires Valid()
      modifies this
      ensures Valid() && Repr == old(Repr) && chunks == old(chunks)
      ensures ok <==> TableModel.AddColumnDefinition(old(model), name, ty, nullable).Some?
      ensures model == if ok then TableModel.AddColumnDefinition(old(model), name, ty, nullable).value else old(model)
    {
      if name in columnNames {
        return false;
      }
      columnNames := columnNames + [name];
      columnTypes := columnTypes + [ty];
      columnNullable := columnNullable + [nullable];
      model := TableModel.AddColumnDefinition(model, name, ty, nullable).value;
      return true;
    }

    /** Adds a column to the single empty chunk; false when the name is taken. */
    method AddColumn(name: string, ty: DataType, nullable: bool) returns (ok: bool)
      requires Valid() && |chunks| > 0 && ChunkSize(model.chunks[0]) == 0
      modifies Repr
      ensures Valid() && fresh(Repr - old(Repr))
      ensures ok <==> TableModel.AddColumn(old(model), name, ty, nullable).Some?
      ensures model == if ok then TableModel.AddColumn(old(model), name, ty, nullable).value else old(model)
    {
      ok := AddColumnDefinition(name, ty, nullable);
      if ok {
        var segment := new ValueSegment(ty, nullable);
        AddToFirstChunk(segment);
      }
    }

    method AddToFirstChunk(segment: ValueSegment)
      requires Valid() && |chunks| > 0 && segment !in Repr
      modifies this, chunks[0]
      ensures Valid() && Repr == old(Repr) + {segment}
      ensures model == old(model).(chunks := old(model).chunks[0 := old(model).chunks[0] + [Stored(segment.View())]])
    {
      chunks[0].AddSegment(ValueSeg(segment));
      Repr := Repr + {segment};
      model := model.(chunks := model.chunks[0 := chunks[0].model]);
    }

    /** The subscript operator of the segment that holds a stored cell. */
    function Subscript(p: RowID, column: nat): (r: Option<Cell>)
      requires Valid() && HasRow(model, p) && column < |model.schema.types|
      reads this, Repr
      ensures var cell := RowAt(model, p)[column];
              r == if cell.Null? && model.chunks[p.chunkId][column].seg.DictionaryData? then None else Some(cell)
    {
      assert chunks[p.chunkId].columns[column].View() == chunks[p.chunkId].model[column];
      var segment := chunks[p.chunkId].columns[column];
      if segment.ValueSeg? then Some(segment.v.GetTypedValue(p.chunkOffset))
      else
        var value := segment.d.Subscript(p.chunkOffset);
        if value.Some? then Some(NonNull(value.value)) else None
    }

    method AddChunk(chunk: Chunk)
      requires Valid() && chunk.Valid() && chunk.Repr !! Repr
      modifies this
      ensures Valid() && Repr == old(Repr) + chunk.Repr && chunks == old(chunks) + [chunk]
      ensures model == old(model).(chunks := old(model).chunks + [chunk.model])
      ensures columnTypes == old(columnTypes)
    {
      chunks := chunks + [chunk];
      model := model.(chunks := model.chunks + [chunk.model]);
      Repr := Repr + chunk.Repr;
    }

    method CreateNewChunk()
      requires Valid()
      modifies this
      ensures Valid() && fresh(Repr - old(Repr))
      ensures |chunks| == old(|chunks|) + 1
      ensures model == TableModel.CreateNewChunk(old(model))
    {
      var chunk := NewValueChunk(columnTypes, columnNullable, columnNames);
      AddChunk(chunk);
    }

    method AppendToLastChunk(cast: Cast, values: Row) returns (ok: bool)
      requires Valid() && |chunks| > 0 && |values| == |model.chunks[|chunks| - 1]|
      modifies Repr
      ensures Valid() && Repr == old(Repr)
      ensures var n := old(|model.chunks|) - 1;
              var r := AppendColumns(cast, old(model).chunks[n], values, |values|);
              model == old(model).(chunks := old(model).chunks[n := r.after]) && ok == r.completed
    {
      var n := |chunks| - 1;
      ok := chunks[n].Append(cast, values);
      model := model.(chunks := model.chunks[n := chunks[n].model]);
    }

    /** Appends a row; false when a cell cannot be stored, which leaves the earlier columns extended. */
    method Append(cast: Cast, values: Row) returns (ok: bool)
      requires Valid() && CanAppendTo(model, values)
      modifies Repr
      ensures Valid() && fresh(Repr - old(Repr))
      ensures Attempt(model, ok) == AppendRow(cast, old(model), values)
      ensures var n := old(|model.chunks|);
              var last := old(model.chunks[|model.chunks| - 1]);
              |model.chunks| ==
                if ChunkSize(last) == old(targetChunkSize) ||
                   (last[0].Stored? && last[0].seg.DictionaryData? && last[0].seg.ty == old(columnTypes[0]))
                then n + 1 else n
    {
      var last := chunks[|chunks| - 1];
      assert last.columns[0].View() == last.model[0];
      var isDictionaryEncoded := last.columns[0].DictSeg? && last.columns[0].d.ty == columnTypes[0];
      if last.Size() == targetChunkSize || isDictionaryEncoded {
        CreateNewChunk();
      }
      AppendRowStartsChunkIff(cast, old(model), values);
      ok := AppendToLastChunk(cast, values);
    }

    method RowCount() returns (count: nat)
      requires Valid()
      ensures count == TableModel.RowCount(model.chunks)
    {
      count := 0;
      for i := 0 to |chunks|
        invariant count == TableModel.RowCount(model.chunks[..i])
      {
        count := count + chunks[i].Size();
        assert model.chunks[..i + 1][..i] == model.chunks[..i];
      }
      assert model.chunks[..|chunks|] == model.chunks;
    }

    method ReplaceChunk(chunkId: nat, chunk: Chunk)
      requires Valid() && chunkId < |chunks| && chunk.Valid() && chunk.Repr !! Repr
      modifies this
      ensures Valid() && Repr == old(Repr) + chunk.Repr
      ensures model == old(model).(chunks := old(model).chunks[chunkId := chunk.model])
    {
      chunks := chunks[chunkId := chunk];
      model := model.(chunks := model.chunks[chunkId := chunk.model]);
      Repr := Repr + chunk.Repr;
    }

    /** Replaces a chunk of value segments by one of dictionary segments, columns in schema order. */
    method CompressChunk(chunkId: nat)
      requires Valid() && chunkId < |chunks|
      requires Compressible(model.schema.types, model.chunks[chunkId])
      modifies this
      ensures Valid() && fresh(Repr - old(Repr))
      ensures model == TableModel.CompressChunk(old(model), chunkId)
    {
      var compressedSegments := CompressColumns(chunks[chunkId], columnTypes);
      var compressedChunk := CollectColumns(compressedSegments, CompressedChunk(columnTypes, model.chunks[chunkId]));
      ReplaceChunk(chunkId, compressedChunk);
    }

    /** The table with the columns of `other` and one chunk per reference segment, or one empty chunk. */
    constructor FromReferences(other: Table, segments: seq<ReferenceSegment>)
      requires other.Valid()
      ensures Valid() && fresh(Repr)
      ensures model == ScanModel.FromReferences(other.model, AllReferences(segments))
    {
      columnNames, columnTypes, columnNullable := other.columnNames, other.columnTypes, other.columnNullable;
      targetChunkSize := other.targetChunkSize;
      chunks := [];
      model := other.model.(chunks := []);
      Repr := {this};
      new;
      ghost var whole := ScanModel.FromReferences(other.model, AllReferences(segments));
      for i := 0 to |segments|
        invariant Valid() && fresh(Repr)
        invariant model == whole.(chunks := whole.chunks[..i])
      {
        var chunk := NewReferenceChunk(segments[i], |columnTypes|, model.schema);
        AddChunk(chunk);
      }
      if |segments| == 0 {
        var notNullable := seq(|columnTypes|, _ => false);
        var chunk := NewValueChunk(columnTypes, notNullable, columnNames);
        assert chunk.model == NoMatchChunk<Table>(model.schema);
        AddChunk(chunk);
      }
      assert model.chunks == whole.chunks;
    }
  }
}
