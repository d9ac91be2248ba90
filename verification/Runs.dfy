/**
 Runs of table operations. A log records the rows of each chunk as they were appended
 and whether the chunk was compressed; every reachable table is determined by its log.
 */
module Runs {
  import opened Types
  import opened Segments
  import opened Encoding
  import opened TableModel

  datatype Operation = Append(row: Row) | NewChunk | Compress(chunkId: nat)

  /** The last chunk takes one more row within the 32-bit chunk offset. */
  ghost predicate HasRoom<R>(t: TableData<R>, row: Row)
    requires CanAppendTo(t, row)
  {
    NeedsNewChunk(t) || ChunkSize(t.chunks[|t.chunks| - 1]) < MAX_UINT32
  }

  /** The operation completes: the row can be stored, the chunk is there and not compressed yet. */
  ghost predicate CanStep<R>(cast: Cast, t: TableData<R>, op: Operation) {
    t.schema.Valid() &&
    match op
    case Append(row) => CanAppendTo(t, row) && Acceptable(cast, t.schema, row) && HasRoom(t, row)
    case NewChunk => true
    case Compress(id) => id < |t.chunks| && Compressible(t.schema.types, t.chunks[id])
  }

  ghost function Step<R>(cast: Cast, t: TableData<R>, op: Operation): Option<TableData<R>> {
    if !CanStep(cast, t, op) then None else
    match op
    case Append(row) => Some(AppendRow(cast, t, row).after)
    case NewChunk => Some(CreateNewChunk(t))
    case Compress(id) => Some(CompressChunk(t, id))
  }

  ghost function Run<R>(cast: Cast, t: TableData<R>, ops: seq<Operation>): Option<TableData<R>> {
    if ops == [] then Some(t)
    else
      match Run(cast, t, ops[..|ops| - 1])
      case None => None
      case Some(before) => Step(cast, before, ops[|ops| - 1])
  }

  lemma RunPush<R>(cast: Cast, t: TableData<R>, ops: seq<Operation>, op: Operation)
    ensures Run(cast, t, ops + [op]) ==
              match Run(cast, t, ops)
              case None => None
              case Some(before) => Step(cast, before, op)
  {
    assert (ops + [op])[..|ops|] == ops;
  }

  /** Whatever has been run so far, the next operation of a run that completes can be run. */
  lemma {:induction false} RunStepsThrough<R>(cast: Cast, t: TableData<R>, ops: seq<Operation>, i: nat)
    requires i < |ops| && Run(cast, t, ops).Some?
    ensures Run(cast, t, ops[..i]).Some?
    ensures CanStep(cast, Run(cast, t, ops[..i]).value, ops[i])
    ensures Run(cast, t, ops[..i + 1]) == Step(cast, Run(cast, t, ops[..i]).value, ops[i])
  {
    var n := |ops| - 1;
    if i < n {
      RunStepsThrough(cast, t, ops[..n], i);
      assert ops[..n][..i] == ops[..i] && ops[..n][..i + 1] == ops[..i + 1];
    } else {
      assert ops[..i + 1] == ops;
    }
  }

  /** A row is acceptable when each column takes its cell. */
  lemma CellsFitIff(cast: Cast, schema: Schema, row: Row)
    requires schema.Valid() && |row| == |schema.types|
    ensures Acceptable(cast, schema, row) <==>
              forall c :: 0 <= c < |row| ==>
                if row[c].Null? then schema.nullable[c] else cast(schema.types[c], row[c].value).Some?
  {
    assert forall c :: 0 <= c < |row| ==>
        (AcceptableCell(cast, schema, row, c) <==>
          if row[c].Null? then schema.nullable[c] else cast(schema.types[c], row[c].value).Some?);
  }

  // ----- Logs -----

  datatype LogChunk = LogChunk(rows: seq<Row>, compressed: bool)

  ghost function LogRow(targetSize: nat, log: seq<LogChunk>, row: Row): seq<LogChunk>
    requires log != []
  {
    var last := log[|log| - 1];
    if |last.rows| == targetSize || last.compressed then log + [LogChunk([row], false)]
    else log[|log| - 1 := LogChunk(last.rows + [row], false)]
  }

  ghost function LogStep(
      cast: Cast, schema: Schema, targetSize: nat, log: seq<LogChunk>, op: Operation): (after: seq<LogChunk>)
    requires schema.Valid() && log != []
    ensures after != []
  {
    match op
    case Append(row) =>
      if |row| == |schema.types| && Acceptable(cast, schema, row)
      then LogRow(targetSize, log, CastRow(cast, schema, row)) else log
    case NewChunk => log + [LogChunk([], false)]
    case Compress(id) => if id < |log| then log[id := LogChunk(log[id].rows, true)] else log
  }

  ghost function LogRun(cast: Cast, schema: Schema, targetSize: nat, ops: seq<Operation>): (log: seq<LogChunk>)
    requires schema.Valid()
    ensures log != []
  {
    if ops == [] then [LogChunk([], false)]
    else LogStep(cast, schema, targetSize, LogRun(cast, schema, targetSize, ops[..|ops| - 1]), ops[|ops| - 1])
  }

  /** The cells of one column. */
  ghost function ColumnCells(rows: seq<Row>, c: nat): (cells: seq<Cell>)
    requires forall k :: 0 <= k < |rows| ==> c < |rows[k]|
    ensures |cells| == |rows|
  {
    seq(|rows|, k requires 0 <= k < |rows| => rows[k][c])
  }

  /** The rows fit the schema: one cell per column, NULL only where allowed. */
  ghost predicate RowsFit(schema: Schema, rows: seq<Row>)
    requires schema.Valid()
  {
    forall k :: 0 <= k < |rows| ==>
      && |rows[k]| == |schema.types|
      && forall c :: 0 <= c < |schema.types| && rows[k][c].Null? ==> schema.nullable[c]
  }

  ghost predicate LogChunkOk(schema: Schema, chunk: LogChunk)
    requires schema.Valid()
  {
    RowsFit(schema, chunk.rows) && |chunk.rows| <= MAX_UINT32
  }

  ghost predicate LogOk(schema: Schema, log: seq<LogChunk>)
    requires schema.Valid()
  {
    log != [] && forall i :: 0 <= i < |log| ==> LogChunkOk(schema, log[i])
  }

  /** The value segment that holds given cells. */
  ghost function StoreCells(ty: DataType, nullable: bool, cells: seq<Cell>): StoredSegment {
    ValueData(ty,
              seq(|cells|, i requires 0 <= i < |cells| => if cells[i].Null? then Default(ty) else cells[i].value),
              if nullable then Some(seq(|cells|, i requires 0 <= i < |cells| => cells[i].Null?)) else None)
  }

  ghost function ColumnSegment(schema: Schema, rows: seq<Row>, c: nat): (vs: StoredSegment)
    requires schema.Valid() && RowsFit(schema, rows) && c < |schema.types|
    ensures vs.ValueData? && vs.Size() == |rows| && vs.ty == schema.types[c]
    ensures |rows| <= MAX_UINT32 ==> vs.Readable()
  {
    StoreCells(schema.types[c], schema.nullable[c], ColumnCells(rows, c))
  }

  ghost function StoreChunk<R>(schema: Schema, chunk: LogChunk): (r: ChunkData<R>)
    requires schema.Valid() && LogChunkOk(schema, chunk)
    ensures |r| == |schema.types|
  {
    seq(|schema.types|, c requires 0 <= c < |schema.types| =>
      var vs := ColumnSegment(schema, chunk.rows, c);
      Stored(if chunk.compressed then Encode(vs) else vs))
  }

  /** The table a log stands for. */
  ghost function StoreLog<R>(schema: Schema, targetSize: nat, log: seq<LogChunk>): TableData<R>
    requires schema.Valid() && LogOk(schema, log)
  {
    TableData(schema, targetSize, seq(|log|, i requires 0 <= i < |log| => StoreChunk(schema, log[i])))
  }

  lemma StoreCellsReads(ty: DataType, nullable: bool, cells: seq<Cell>)
    requires |cells| <= MAX_UINT32 && (Null in cells ==> nullable)
    ensures var vs := StoreCells(ty, nullable, cells);
            vs.Readable() && NullsHoldDefault(vs) && vs.Cells() == cells
  {
  }

  lemma AppendValueStores(cast: Cast, ty: DataType, nullable: bool, cells: seq<Cell>, cell: Cell, stored: Cell)
    requires if cell.Null? then nullable && stored == Null
             else stored.NonNull? && cast(ty, cell.value) == Some(stored.value)
    ensures AppendValue(cast, StoreCells(ty, nullable, cells), cell) == Some(StoreCells(ty, nullable, cells + [stored]))
  {
    var before, after := StoreCells(ty, nullable, cells), StoreCells(ty, nullable, cells + [stored]);
    assert after.values == before.values + [if stored.Null? then Default(ty) else stored.value];
    if nullable {
      assert after.nulls.value == before.nulls.value + [stored.Null?];
    }
  }

  /** Appending a row to an uncompressed chunk column by column stores the extended log chunk. */
  lemma {:induction false} AppendColumnsStores<R>(cast: Cast, schema: Schema, rows: seq<Row>, row: Row, k: nat)
    requires schema.Valid() && RowsFit(schema, rows) && |rows| < MAX_UINT32
    requires |row| == |schema.types| && Acceptable(cast, schema, row) && k <= |row|
    ensures RowsFit(schema, rows + [CastRow(cast, schema, row)])
    ensures var r := AppendColumns<R>(cast, StoreChunk(schema, LogChunk(rows, false)), row, k);
            && r.completed
            && forall c :: 0 <= c < k ==>
                 r.after[c] == Stored(ColumnSegment(schema, rows + [CastRow(cast, schema, row)], c))
  {
    var stored := CastRow(cast, schema, row);
    forall c | 0 <= c < |row| && stored[c].Null?
      ensures schema.nullable[c]
    {
      assert AcceptableCell(cast, schema, row, c);
    }
    if k > 0 {
      AppendColumnsStores<R>(cast, schema, rows, row, k - 1);
      var c := k - 1;
      assert AcceptableCell(cast, schema, row, c);
      AppendValueStores(cast, schema.types[c], schema.nullable[c], ColumnCells(rows, c), row[c], stored[c]);
      assert ColumnCells(rows + [stored], c) == ColumnCells(rows, c) + [stored[c]];
    }
  }

  lemma AppendChunkStores<R>(cast: Cast, schema: Schema, rows: seq<Row>, row: Row)
    requires schema.Valid() && RowsFit(schema, rows) && |rows| < MAX_UINT32
    requires |row| == |schema.types| && Acceptable(cast, schema, row)
    ensures LogChunkOk(schema, LogChunk(rows + [CastRow(cast, schema, row)], false))
    ensures AppendColumns<R>(cast, StoreChunk(schema, LogChunk(rows, false)), row, |row|)
            == Attempt(StoreChunk(schema, LogChunk(rows + [CastRow(cast, schema, row)], false)), true)
  {
    AppendColumnsStores<R>(cast, schema, rows, row, |row|);
    var r := AppendColumns<R>(cast, StoreChunk(schema, LogChunk(rows, false)), row, |row|);
    var whole: ChunkData<R> := StoreChunk(schema, LogChunk(rows + [CastRow(cast, schema, row)], false));
    forall c | 0 <= c < |whole|
      ensures r.after[c] == whole[c]
    {
    }
    assert r.after == whole;
  }

  lemma EmptyChunkStores<R>(schema: Schema)
    requires schema.Valid()
    ensures EmptyChunk<R>(schema) == StoreChunk(schema, LogChunk([], false))
  {
  }

  lemma AppendStores<R>(cast: Cast, schema: Schema, targetSize: nat, log: seq<LogChunk>, row: Row)
    requires schema.Valid() && LogOk(schema, log)
    requires CanStep<R>(cast, StoreLog(schema, targetSize, log), Append(row))
    ensures var stored := LogRow(targetSize, log, CastRow(cast, schema, row));
            && LogOk(schema, stored)
            && AppendRow<R>(cast, StoreLog(schema, targetSize, log), row)
               == Attempt(StoreLog(schema, targetSize, stored), true)
  {
    var t: TableData<R> := StoreLog(schema, targetSize, log);
    var last := |log| - 1;
    var stored := CastRow(cast, schema, row);
    assert ChunkSize(t.chunks[last]) == |log[last].rows|;
    assert t.chunks[last][0].IsDictionaryOf(schema.types[0]) <==> log[last].compressed;
    var after := LogRow(targetSize, log, stored);
    if NeedsNewChunk(t) {
      EmptyChunkStores<R>(schema);
      AppendChunkStores<R>(cast, schema, [], row);
      assert [] + [stored] == [stored];
    } else {
      assert log[last] == LogChunk(log[last].rows, false);
      AppendChunkStores<R>(cast, schema, log[last].rows, row);
    }
    assert AppendRow(cast, t, row).after.chunks == StoreLog<R>(schema, targetSize, after).chunks;
  }

  lemma CompressStores<R>(schema: Schema, targetSize: nat, log: seq<LogChunk>, id: nat)
    requires schema.Valid() && LogOk(schema, log) && id < |log|
    requires Compressible(schema.types, StoreLog<R>(schema, targetSize, log).chunks[id])
    ensures LogOk(schema, log[id := LogChunk(log[id].rows, true)])
    ensures CompressChunk(StoreLog<R>(schema, targetSize, log), id)
            == StoreLog(schema, targetSize, log[id := LogChunk(log[id].rows, true)])
  {
    var t: TableData<R> := StoreLog(schema, targetSize, log);
    var after := log[id := LogChunk(log[id].rows, true)];
    var chunk: ChunkData<R> := CompressedChunk(schema.types, t.chunks[id]);
    forall c | 0 <= c < |schema.types|
      ensures chunk[c] == StoreChunk<R>(schema, after[id])[c]
    {
      assert t.chunks[id][c].IsValues();
    }
    assert chunk == StoreChunk<R>(schema, after[id]);
    assert CompressChunk(t, id).chunks == StoreLog<R>(schema, targetSize, after).chunks;
  }

  /** One operation on a stored log stores the log of that operation. */
  lemma StepStores<R>(cast: Cast, schema: Schema, targetSize: nat, log: seq<LogChunk>, op: Operation)
    requires schema.Valid() && LogOk(schema, log)
    requires CanStep<R>(cast, StoreLog(schema, targetSize, log), op)
    ensures var after := LogStep(cast, schema, targetSize, log, op);
            && LogOk(schema, after)
            && Step<R>(cast, StoreLog(schema, targetSize, log), op) == Some(StoreLog(schema, targetSize, after))
  {
    match op
    case Append(row) =>
      AppendStores<R>(cast, schema, targetSize, log, row);
    case NewChunk =>
      EmptyChunkStores<R>(schema);
      var after := log + [LogChunk([], false)];
      assert CreateNewChunk(StoreLog<R>(schema, targetSize, log)).chunks
               == StoreLog<R>(schema, targetSize, after).chunks;
    case Compress(id) =>
      CompressStores<R>(schema, targetSize, log, id);
  }

  /** A new table with its columns in place. */
  ghost function Initial<R>(schema: Schema, targetSize: nat): TableData<R>
    requires schema.Valid()
  {
    TableData(schema, targetSize, [EmptyChunk(schema)])
  }

  /** Adding columns one by one to a new table gives an initial table of the longer schema. */
  lemma AddColumnExtendsInitial<R>(schema: Schema, targetSize: nat, name: string, ty: DataType, nullable: bool)
    requires schema.Valid()
    ensures NewTable<R>(targetSize) == Initial(Schema([], [], []), targetSize)
    ensures AddColumn<R>(Initial(schema, targetSize), name, ty, nullable) ==
              if name in schema.names then None
              else
                var longer := Schema(schema.names + [name], schema.types + [ty], schema.nullable + [nullable]);
                Some(Initial(longer, targetSize))
  {
    var none: ChunkData<R> := EmptyChunk(Schema([], [], []));
    assert none == [];
    var longer := Schema(schema.names + [name], schema.types + [ty], schema.nullable + [nullable]);
    assert EmptyChunk<R>(schema) + [Stored(EmptySegment(ty, nullable))] == EmptyChunk(longer);
    var chunks: seq<ChunkData<R>> := [EmptyChunk(schema)];
    assert chunks[0 := EmptyChunk(longer)] == [EmptyChunk(longer)];
  }

  /** The first `n` columns of a schema, added one by one to a new table. */
  ghost function AddColumns<R>(schema: Schema, targetSize: nat, n: nat): (t: Option<TableData<R>>)
    requires schema.Valid() && n <= |schema.types|
    ensures t.Some? ==> t.value.chunks != []
  {
    if n == 0 then Some(NewTable(targetSize))
    else
      match AddColumns(schema, targetSize, n - 1)
      case None => None
      case Some(t) => AddColumn(t, schema.names[n - 1], schema.types[n - 1], schema.nullable[n - 1])
  }

  ghost function Columns(schema: Schema, n: nat): Schema
    requires schema.Valid() && n <= |schema.types|
  {
    Schema(schema.names[..n], schema.types[..n], schema.nullable[..n])
  }

  ghost predicate Distinct(names: seq<string>) {
    forall i, j :: 0 <= i < j < |names| ==> names[i] != names[j]
  }

  /** Adding the columns of a schema succeeds exactly when no name repeats, and then gives the initial table. */
  lemma {:induction false} AddColumnsGivesInitial<R>(schema: Schema, targetSize: nat, n: nat)
    requires schema.Valid() && n <= |schema.types|
    ensures AddColumns<R>(schema, targetSize, n)
            == if Distinct(schema.names[..n]) then Some(Initial(Columns(schema, n), targetSize)) else None
  {
    if n == 0 {
      AddColumnExtendsInitial<R>(Schema([], [], []), targetSize, "", IntType, false);
    } else {
      AddColumnsGivesInitial<R>(schema, targetSize, n - 1);
      var before := schema.names[..n - 1];
      assert schema.names[..n] == before + [schema.names[n - 1]];
      assert Distinct(schema.names[..n]) <==> Distinct(before) && schema.names[n - 1] !in before;
      AddColumnExtendsInitial<R>(Columns(schema, n - 1), targetSize,
                                 schema.names[n - 1], schema.types[n - 1], schema.nullable[n - 1]);
      assert schema.types[..n] == schema.types[..n - 1] + [schema.types[n - 1]];
      assert schema.nullable[..n] == schema.nullable[..n - 1] + [schema.nullable[n - 1]];
    }
  }

  /** Every run that completes leads to the table its log stands for. */
  lemma {:induction false} RunStoresLog<R>(cast: Cast, schema: Schema, targetSize: nat, ops: seq<Operation>)
    requires schema.Valid()
    requires Run<R>(cast, Initial(schema, targetSize), ops).Some?
    ensures var log := LogRun(cast, schema, targetSize, ops);
            && LogOk(schema, log)
            && Run<R>(cast, Initial(schema, targetSize), ops).value == StoreLog(schema, targetSize, log)
  {
    if ops == [] {
      EmptyChunkStores<R>(schema);
      assert StoreLog<R>(schema, targetSize, [LogChunk([], false)]).chunks == [EmptyChunk<R>(schema)];
    } else {
      var n := |ops| - 1;
      RunStoresLog<R>(cast, schema, targetSize, ops[..n]);
      StepStores<R>(cast, schema, targetSize, LogRun(cast, schema, targetSize, ops[..n]), ops[n]);
    }
  }

  /** A completed run of operations on a new table of the schema leads to `t`. */
  ghost predicate Reaches<R>(cast: Cast, schema: Schema, targetSize: nat, ops: seq<Operation>, t: TableData<R>)
    requires schema.Valid()
  {
    Run(cast, Initial(schema, targetSize), ops) == Some(t)
  }
}
