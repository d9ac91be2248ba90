/**
 The contents of tables as values, and what each table operation does to them. `R` is
 the type of references to tables: reference segments name the table they point into.
 */
module TableModel {
  import opened Types
  import opened Segments
  import opened Encoding

  datatype SegmentData<R> =
    | Stored(seg: StoredSegment)
    | Reference(target: R, column: nat, positions: seq<RowID>)
  {
    predicate IsValues() {
      Stored? && seg.ValueData?
    }

    predicate IsDictionaryOf(ty: DataType) {
      Stored? && seg.DictionaryData? && seg.ty == ty
    }

    function Size(): nat {
      if Stored? then seg.Size() else |positions|
    }
  }

  type ChunkData<R> = seq<SegmentData<R>>

  datatype Schema = Schema(names: seq<string>, types: seq<DataType>, nullable: seq<bool>) {
    predicate Valid() {
      |names| == |types| == |nullable|
    }
  }

  datatype TableData<R> = TableData(schema: Schema, targetSize: nat, chunks: seq<ChunkData<R>>)

  /** A chunk is as long as its first column. */
  function ChunkSize<R>(chunk: ChunkData<R>): nat {
    if chunk == [] then 0 else chunk[0].Size()
  }

  function RowCount<R>(chunks: seq<ChunkData<R>>): nat {
    if chunks == [] then 0 else RowCount(chunks[..|chunks| - 1]) + ChunkSize(chunks[|chunks| - 1])
  }

  function EmptySegment(ty: DataType, nullable: bool): StoredSegment {
    ValueData(ty, [], if nullable then Some([]) else None)
  }

  // ----- Operations -----

  ghost function NewTable<R>(targetSize: nat): TableData<R> {
    TableData(Schema([], [], []), targetSize, [[]])
  }

  /** `add_column_definition`: refused when the name is taken. */
  ghost function AddColumnDefinition<R>(
      t: TableData<R>, name: string, ty: DataType, nullable: bool): Option<TableData<R>>
  {
    if name in t.schema.names then None
    else Some(t.(schema := Schema(t.schema.names + [name], t.schema.types + [ty], t.schema.nullable + [nullable])))
  }

  /** `add_column`: the definition, and an empty segment in the first chunk. */
  ghost function AddColumn<R>(t: TableData<R>, name: string, ty: DataType, nullable: bool): Option<TableData<R>>
    requires t.chunks != []
  {
    match AddColumnDefinition(t, name, ty, nullable)
    case None => None
    case Some(defined) =>
      Some(defined.(chunks := t.chunks[0 := t.chunks[0] + [Stored(EmptySegment(ty, nullable))]]))
  }

  ghost function EmptyChunk<R>(schema: Schema): ChunkData<R>
    requires schema.Valid()
  {
    seq(|schema.types|, c requires 0 <= c < |schema.types| => Stored(EmptySegment(schema.types[c], schema.nullable[c])))
  }

  ghost function CreateNewChunk<R>(t: TableData<R>): TableData<R>
    requires t.schema.Valid()
  {
    t.(chunks := t.chunks + [EmptyChunk(t.schema)])
  }

  /** `ValueSegment::append`: None when it throws. */
  ghost function AppendValue(cast: Cast, vs: StoredSegment, cell: Cell): Option<StoredSegment>
    requires vs.ValueData?
  {
    if cell.Null? then
      if vs.nulls.None? then None
      else Some(vs.(nulls := Some(vs.nulls.value + [true]), values := vs.values + [Default(vs.ty)]))
    else
      match cast(vs.ty, cell.value)
      case None => None
      case Some(v) =>
        Some(vs.(values := vs.values + [v],
                 nulls := if vs.nulls.Some? then Some(vs.nulls.value + [false]) else None))
  }

  /** The outcome of an append: the new contents, and whether it completed or threw. */
  datatype Attempt<T> = Attempt(after: T, completed: bool)

  /** Appending one cell to one column: segments that are not value segments are skipped. */
  ghost function AppendCell<R>(cast: Cast, segment: SegmentData<R>, cell: Cell): Attempt<SegmentData<R>> {
    if !segment.IsValues() then Attempt(segment, true)
    else
      match AppendValue(cast, segment.seg, cell)
      case None => Attempt(segment, false)
      case Some(vs) => Attempt(Stored(vs), true)
  }

  /** `Chunk::append` on the first `k` columns; the first cell that cannot be stored stops it. */
  ghost function AppendColumns<R>(cast: Cast, chunk: ChunkData<R>, row: Row, k: nat): (r: Attempt<ChunkData<R>>)
    requires k <= |chunk| == |row|
    ensures |r.after| == |chunk|
    ensures forall c :: k <= c < |chunk| ==> r.after[c] == chunk[c]
  {
    if k == 0 then Attempt(chunk, true)
    else
      var r := AppendColumns(cast, chunk, row, k - 1);
      if !r.completed then r
      else
        var a := AppendCell(cast, chunk[k - 1], row[k - 1]);
        Attempt(r.after[k - 1 := a.after], a.completed)
  }

  /** The guard of `append`: only the last chunk's first column is looked at. */
  predicate NeedsNewChunk<R>(t: TableData<R>)
    requires t.chunks != [] && t.chunks[|t.chunks| - 1] != [] && t.schema.types != []
  {
    var last := t.chunks[|t.chunks| - 1];
    ChunkSize(last) == t.targetSize || last[0].IsDictionaryOf(t.schema.types[0])
  }

  ghost predicate CanAppendTo<R>(t: TableData<R>, row: Row) {
    && t.schema.Valid() && t.schema.types != [] && t.chunks != []
    && |t.chunks[|t.chunks| - 1]| == |t.schema.types| == |row|
  }

  ghost function AppendRow<R>(cast: Cast, t: TableData<R>, row: Row): Attempt<TableData<R>>
    requires CanAppendTo(t, row)
  {
    var t1 := if NeedsNewChunk(t) then CreateNewChunk(t) else t;
    var last := |t1.chunks| - 1;
    var r := AppendColumns(cast, t1.chunks[last], row, |row|);
    Attempt(t1.(chunks := t1.chunks[last := r.after]), r.completed)
  }

  /** What `compress_chunk` needs: one readable value segment of the right type per column. */
  ghost predicate Compressible<R>(types: seq<DataType>, chunk: ChunkData<R>) {
    && |chunk| == |types|
    && forall c :: 0 <= c < |types| ==> chunk[c].IsValues() && chunk[c].seg.Readable() && chunk[c].seg.ty == types[c]
  }

  ghost function CompressedChunk<R>(types: seq<DataType>, chunk: ChunkData<R>): (r: ChunkData<R>)
    requires Compressible(types, chunk)
    ensures |r| == |types|
  {
    seq(|types|, c requires 0 <= c < |types| => Stored(Encode(chunk[c].seg)))
  }

  ghost function CompressChunk<R>(t: TableData<R>, id: nat): TableData<R>
    requires id < |t.chunks| && Compressible(t.schema.types, t.chunks[id])
  {
    t.(chunks := t.chunks[id := CompressedChunk(t.schema.types, t.chunks[id])])
  }

  // ----- Well-formed tables -----

  /** Readable stored segments of the column types, all of one length. */
  ghost predicate StoredChunk<R>(types: seq<DataType>, chunk: ChunkData<R>) {
    && |chunk| == |types|
    && forall c :: 0 <= c < |types| ==>
         && chunk[c].Stored? && chunk[c].seg.Readable()
         && chunk[c].seg.ty == types[c]
         && chunk[c].seg.Size() == ChunkSize(chunk)
         && (chunk[c].seg.DictionaryData? ==> StrictlyAscending(chunk[c].seg.dictionary))
  }

  /** All columns are value segments, or all are dictionary segments. */
  ghost predicate UniformChunk<R>(schema: Schema, chunk: ChunkData<R>)
    requires schema.Valid() && StoredChunk(schema.types, chunk)
  {
    || (forall c :: 0 <= c < |chunk| ==>
          && chunk[c].seg.ValueData?
          && chunk[c].seg.nulls.Some? == schema.nullable[c]
          && NullsHoldDefault(chunk[c].seg))
    || (forall c :: 0 <= c < |chunk| ==> chunk[c].seg.DictionaryData?)
  }

  /** What every run of operations keeps. */
  ghost predicate WellFormed<R>(t: TableData<R>) {
    && t.schema.Valid()
    && t.chunks != []
    && forall i :: 0 <= i < |t.chunks| ==>
         StoredChunk(t.schema.types, t.chunks[i]) && UniformChunk(t.schema, t.chunks[i])
  }

  // ----- Reading rows -----

  ghost predicate HasRow<R>(t: TableData<R>, p: RowID) {
    && p.chunkId < |t.chunks|
    && StoredChunk(t.schema.types, t.chunks[p.chunkId])
    && p.chunkOffset < ChunkSize(t.chunks[p.chunkId])
  }

  ghost function RowAt<R>(t: TableData<R>, p: RowID): (row: Row)
    requires HasRow(t, p)
    ensures |row| == |t.schema.types|
  {
    seq(|t.schema.types|, c requires 0 <= c < |t.schema.types| => t.chunks[p.chunkId][c].seg.CellAt(p.chunkOffset))
  }

  /** Which rows `append` accepts: every cell can be stored in its column. */
  ghost predicate Acceptable(cast: Cast, schema: Schema, row: Row)
    requires schema.Valid() && |row| == |schema.types|
  {
    forall c :: 0 <= c < |row| ==> AcceptableCell(cast, schema, row, c)
  }

  ghost predicate AcceptableCell(cast: Cast, schema: Schema, row: Row, c: nat)
    requires schema.Valid() && c < |row| == |schema.types|
  {
    if row[c].Null? then schema.nullable[c] else cast(schema.types[c], row[c].value).Some?
  }

  /** The row as it is stored: each value in its column's type. */
  ghost function CastRow(cast: Cast, schema: Schema, row: Row): (r: Row)
    requires schema.Valid() && |row| == |schema.types| && Acceptable(cast, schema, row)
    ensures |r| == |row|
  {
    seq(|row|, c requires 0 <= c < |row| =>
      assert AcceptableCell(cast, schema, row, c);
      if row[c].Null? then Null else NonNull(cast(schema.types[c], row[c].value).value))
  }
}
