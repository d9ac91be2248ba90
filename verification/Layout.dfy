/** Where the rows of a run are: the chunks it makes, what closes them, and which are compressed. */
module Layout {
  import opened Types
  import opened Segments
  import opened Encoding
  import opened TableModel
  import opened ScanModel
  import opened AppendedColumns
  import opened Runs
  import opened RunTheorems
  import opened Stability

  ghost predicate IsCompressed<R>(chunk: ChunkData<R>) {
    forall c :: 0 <= c < |chunk| ==> chunk[c].Stored? && chunk[c].seg.DictionaryData?
  }

  // ----- Chunks and log -----

  lemma ChunkOfLog<R>(schema: Schema, chunk: LogChunk)
    requires schema.Valid() && schema.types != [] && LogChunkOk(schema, chunk)
    ensures ChunkSize<R>(StoreChunk(schema, chunk)) == |chunk.rows|
    ensures IsCompressed<R>(StoreChunk(schema, chunk)) <==> chunk.compressed
    ensures Compressible<R>(schema.types, StoreChunk(schema, chunk)) <==> !chunk.compressed
  {
    StoredChunkOfLog<R>(schema, chunk);
    var stored: ChunkData<R> := StoreChunk(schema, chunk);
    assert stored[0].seg.DictionaryData? <==> chunk.compressed;
    assert stored[0].IsValues() <==> !chunk.compressed;
  }

  lemma StepCompressesNamed(
      cast: Cast, schema: Schema, targetSize: nat, log: seq<LogChunk>, op: Operation, i: nat)
    requires schema.Valid() && log != [] && (op.Compress? ==> op.chunkId < |log|)
    ensures var after := LogStep(cast, schema, targetSize, log, op);
            && |log| <= |after|
            && (i < |after| ==> (after[i].compressed <==> (i < |log| && log[i].compressed) || op == Compress(i)))
  {
  }

  /** The log chunks that are compressed are those an operation names. */
  lemma {:induction false} CompressedWhenNamed<R>(
      cast: Cast, schema: Schema, targetSize: nat, ops: seq<Operation>, i: nat)
    requires schema.Valid() && Run<R>(cast, Initial(schema, targetSize), ops).Some?
    ensures Compress(i) in ops ==> i < |LogRun(cast, schema, targetSize, ops)|
    ensures i < |LogRun(cast, schema, targetSize, ops)| ==>
              (LogRun(cast, schema, targetSize, ops)[i].compressed <==> Compress(i) in ops)
  {
    if ops != [] {
      var n := |ops| - 1;
      CompressedWhenNamed<R>(cast, schema, targetSize, ops[..n], i);
      RunStoresLog<R>(cast, schema, targetSize, ops[..n]);
      StepCompressesNamed(cast, schema, targetSize, LogRun(cast, schema, targetSize, ops[..n]), ops[n], i);
      assert Compress(i) in ops <==> Compress(i) in ops[..n] || ops[n] == Compress(i);
    }
  }

  /** A chunk is made of dictionary segments exactly when an operation of the run has compressed it. */
  lemma ChunkCompressedIff<R>(cast: Cast, schema: Schema, targetSize: nat, ops: seq<Operation>, t: TableData<R>, i: nat)
    requires schema.Valid() && schema.types != [] && Reaches(cast, schema, targetSize, ops, t) && i < |t.chunks|
    ensures IsCompressed(t.chunks[i]) <==> Compress(i) in ops
  {
    RunStoresLog<R>(cast, schema, targetSize, ops);
    CompressedWhenNamed<R>(cast, schema, targetSize, ops, i);
    ChunkOfLog<R>(schema, LogRun(cast, schema, targetSize, ops)[i]);
  }

  // ----- One operation -----

  /** A chunk of a run's table, in terms of the log and of the operations. */
  lemma TableChunk<R>(cast: Cast, schema: Schema, targetSize: nat, ops: seq<Operation>, t: TableData<R>, i: nat)
    requires schema.Valid() && schema.types != [] && Reaches(cast, schema, targetSize, ops, t)
    requires i < |LogRun(cast, schema, targetSize, ops)|
    ensures var log := LogRun(cast, schema, targetSize, ops);
            && |t.chunks| == |log|
            && ChunkSize(t.chunks[i]) == |log[i].rows|
            && (log[i].compressed <==> Compress(i) in ops)
  {
    RunStoresLog<R>(cast, schema, targetSize, ops);
    CompressedWhenNamed<R>(cast, schema, targetSize, ops, i);
    ChunkOfLog<R>(schema, LogRun(cast, schema, targetSize, ops)[i]);
  }

  lemma AppendLogsRow<R>(
      cast: Cast, schema: Schema, targetSize: nat, ops: seq<Operation>, row: Row, t: TableData<R>, after: TableData<R>)
    requires schema.Valid() && Reaches(cast, schema, targetSize, ops, t)
    requires Reaches(cast, schema, targetSize, ops + [Append(row)], after)
    ensures |row| == |schema.types| && Acceptable(cast, schema, row)
    ensures var grown := LogRow(targetSize, LogRun(cast, schema, targetSize, ops), CastRow(cast, schema, row));
            LogOk(schema, grown) && after == StoreLog(schema, targetSize, grown)
  {
    RunStoresLog<R>(cast, schema, targetSize, ops);
    RunPush<R>(cast, Initial(schema, targetSize), ops, Append(row));
    AppendStores<R>(cast, schema, targetSize, LogRun(cast, schema, targetSize, ops), row);
  }

  ghost predicate OneRowMore<R>(t: TableData<R>, after: TableData<R>, startsChunk: bool)
    requires t.chunks != []
  {
    var n := |t.chunks|;
    if startsChunk then
      |after.chunks| == n + 1 && after.chunks[..n] == t.chunks && ChunkSize(after.chunks[n]) == 1
    else
      && |after.chunks| == n && after.chunks[..n - 1] == t.chunks[..n - 1]
      && ChunkSize(after.chunks[n - 1]) == ChunkSize(t.chunks[n - 1]) + 1
  }

  lemma LogRowLayout<R>(
      schema: Schema, targetSize: nat, log: seq<LogChunk>, row: Row, t: TableData<R>, after: TableData<R>)
    requires schema.Valid() && schema.types != [] && LogOk(schema, log) && LogOk(schema, LogRow(targetSize, log, row))
    requires t == StoreLog(schema, targetSize, log)
    requires after == StoreLog(schema, targetSize, LogRow(targetSize, log, row))
    ensures var last := log[|log| - 1];
            OneRowMore(t, after, |last.rows| == targetSize || last.compressed)
  {
    var grown := LogRow(targetSize, log, row);
    StoredChunkOfLog<R>(schema, log[|log| - 1]);
    StoredChunkOfLog<R>(schema, grown[|grown| - 1]);
  }

  lemma AppendIsOneRowMore<R>(
      cast: Cast, schema: Schema, targetSize: nat, ops: seq<Operation>, row: Row, t: TableData<R>, after: TableData<R>)
    requires schema.Valid() && schema.types != []
    requires Reaches(cast, schema, targetSize, ops, t) && Reaches(cast, schema, targetSize, ops + [Append(row)], after)
    ensures t.chunks != []
    ensures var log := LogRun(cast, schema, targetSize, ops);
            var last := log[|log| - 1];
            OneRowMore(t, after, |last.rows| == targetSize || last.compressed)
  {
    RunStoresLog<R>(cast, schema, targetSize, ops);
    AppendLogsRow(cast, schema, targetSize, ops, row, t, after);
    LogRowLayout(schema, targetSize, LogRun(cast, schema, targetSize, ops), CastRow(cast, schema, row), t, after);
  }

  /** An append starts a chunk when the last one has exactly the target size or is compressed, and
      otherwise makes the last one longer by one row; no other chunk changes. */
  lemma AppendLayout<R>(
      cast: Cast, schema: Schema, targetSize: nat, ops: seq<Operation>, row: Row, t: TableData<R>, after: TableData<R>)
    requires schema.Valid() && schema.types != []
    requires Reaches(cast, schema, targetSize, ops, t) && Reaches(cast, schema, targetSize, ops + [Append(row)], after)
    ensures t.chunks != []
    ensures var last := |t.chunks| - 1;
            OneRowMore(t, after, ChunkSize(t.chunks[last]) == targetSize || Compress(last) in ops)
  {
    AppendIsOneRowMore(cast, schema, targetSize, ops, row, t, after);
    TableChunk(cast, schema, targetSize, ops, t, |LogRun(cast, schema, targetSize, ops)| - 1);
  }

  /** A new chunk is empty and comes last; no other chunk changes. */
  lemma NewChunkLayout<R>(
      cast: Cast, schema: Schema, targetSize: nat, ops: seq<Operation>, t: TableData<R>, after: TableData<R>)
    requires schema.Valid() && schema.types != []
    requires Reaches(cast, schema, targetSize, ops, t) && Reaches(cast, schema, targetSize, ops + [NewChunk], after)
    ensures |after.chunks| == |t.chunks| + 1 && after.chunks[..|t.chunks|] == t.chunks
    ensures ChunkSize(after.chunks[|t.chunks|]) == 0 && !IsCompressed(after.chunks[|t.chunks|])
  {
    RunStoresLog<R>(cast, schema, targetSize, ops);
    RunStoresLog<R>(cast, schema, targetSize, ops + [NewChunk]);
    assert (ops + [NewChunk])[..|ops|] == ops;
    ChunkOfLog<R>(schema, LogChunk([], false));
  }

  /** Compression keeps the size of its chunk and changes no other. */
  lemma CompressLayout<R>(
      cast: Cast, schema: Schema, targetSize: nat, ops: seq<Operation>, id: nat, t: TableData<R>, after: TableData<R>)
    requires schema.Valid() && schema.types != []
    requires Reaches(cast, schema, targetSize, ops, t) && Reaches(cast, schema, targetSize, ops + [Compress(id)], after)
    ensures id < |after.chunks| == |t.chunks|
    ensures forall i :: 0 <= i < |t.chunks| && i != id ==> after.chunks[i] == t.chunks[i]
    ensures ChunkSize(after.chunks[id]) == ChunkSize(t.chunks[id])
    ensures !IsCompressed(t.chunks[id]) && IsCompressed(after.chunks[id])
  {
    RunStoresLog<R>(cast, schema, targetSize, ops);
    RunStoresLog<R>(cast, schema, targetSize, ops + [Compress(id)]);
    RunPush<R>(cast, Initial(schema, targetSize), ops, Compress(id));
    assert (ops + [Compress(id)])[..|ops|] == ops;
    var log, grown := LogRun(cast, schema, targetSize, ops), LogRun(cast, schema, targetSize, ops + [Compress(id)]);
    ChunkOfLog<R>(schema, log[id]);
    ChunkOfLog<R>(schema, grown[id]);
  }

  // ----- Closed chunks -----

  /** Operation `j` starts a new chunk after chunk `i`, or compresses it, while it is the last one. */
  ghost predicate Closes<R>(cast: Cast, schema: Schema, targetSize: nat, ops: seq<Operation>, i: nat, j: nat)
    requires schema.Valid()
  {
    && j < |ops| && (ops[j] == NewChunk || ops[j] == Compress(i))
    && var before := Run<R>(cast, Initial(schema, targetSize), ops[..j]);
       before.Some? && |before.value.chunks| == i + 1
  }

  lemma PrefixLogGrows(cast: Cast, schema: Schema, targetSize: nat, ops: seq<Operation>, j: nat)
    requires schema.Valid() && j <= |ops|
    ensures GrowsTo(LogRun(cast, schema, targetSize, ops[..j]), LogRun(cast, schema, targetSize, ops))
  {
    assert ops[..j] + ops[j..] == ops;
    LogOnlyGrows(cast, schema, targetSize, ops[..j], ops[j..]);
  }

  lemma ChunksAreNeverRemoved<R>(
      cast: Cast, schema: Schema, targetSize: nat, ops: seq<Operation>, j: nat, before: TableData<R>, t: TableData<R>)
    requires schema.Valid() && j <= |ops|
    requires Reaches(cast, schema, targetSize, ops[..j], before) && Reaches(cast, schema, targetSize, ops, t)
    ensures |before.chunks| <= |t.chunks|
  {
    RunStoresLog<R>(cast, schema, targetSize, ops[..j]);
    RunStoresLog<R>(cast, schema, targetSize, ops);
    PrefixLogGrows(cast, schema, targetSize, ops, j);
  }

  /** A compression of the chunk that is still the last one came when it was the last one. */
  lemma CompressedWhileLast<R>(cast: Cast, schema: Schema, targetSize: nat, ops: seq<Operation>, t: TableData<R>)
    returns (j: nat)
    requires schema.Valid() && Reaches(cast, schema, targetSize, ops, t)
    requires t.chunks != [] && Compress(|t.chunks| - 1) in ops
    ensures Closes<R>(cast, schema, targetSize, ops, |t.chunks| - 1, j)
  {
    var i := |t.chunks| - 1;
    j :| 0 <= j < |ops| && ops[j] == Compress(i);
    RunStepsThrough<R>(cast, Initial(schema, targetSize), ops, j);
    var before := Run<R>(cast, Initial(schema, targetSize), ops[..j]).value;
    ChunksAreNeverRemoved(cast, schema, targetSize, ops, j, before, t);
  }

  /** What the last operation of a run does to a chunk that was not the last one before. */
  lemma OlderChunksKeepSize<R>(
      cast: Cast, schema: Schema, targetSize: nat, ops: seq<Operation>, op: Operation,
      t: TableData<R>, after: TableData<R>)
    requires schema.Valid() && schema.types != []
    requires Reaches(cast, schema, targetSize, ops, t) && Reaches(cast, schema, targetSize, ops + [op], after)
    ensures 0 < |t.chunks| <= |after.chunks| <= |t.chunks| + 1
    ensures forall i :: 0 <= i < |t.chunks| - 1 ==> ChunkSize(after.chunks[i]) == ChunkSize(t.chunks[i])
    ensures |after.chunks| > |t.chunks| ==>
              var last := |t.chunks| - 1;
              && ChunkSize(after.chunks[last]) == ChunkSize(t.chunks[last])
              && (op.NewChunk? || ChunkSize(t.chunks[last]) == targetSize || Compress(last) in ops)
  {
    RunStoresLog<R>(cast, schema, targetSize, ops);
    match op
    case Append(row) =>
      AppendLayout(cast, schema, targetSize, ops, row, t, after);
      assert forall i :: 0 <= i < |t.chunks| - 1 ==> after.chunks[i] == after.chunks[..|t.chunks| - 1][i];
    case NewChunk =>
      NewChunkLayout(cast, schema, targetSize, ops, t, after);
    case Compress(id) =>
      CompressLayout(cast, schema, targetSize, ops, id, t, after);
  }

  /** Every chunk but the last has exactly the target size, unless a new chunk or a compression
      closed it while it was the last. */
  lemma {:induction false} ClosedChunksAreFull<R>(
      cast: Cast, schema: Schema, targetSize: nat, ops: seq<Operation>, t: TableData<R>, i: nat)
    requires schema.Valid() && schema.types != [] && Reaches(cast, schema, targetSize, ops, t)
    requires i < |t.chunks| - 1
    ensures ChunkSize(t.chunks[i]) == targetSize || exists j :: Closes<R>(cast, schema, targetSize, ops, i, j)
  {
    if ops != [] {
      var n := |ops| - 1;
      RunStepsThrough<R>(cast, Initial(schema, targetSize), ops, n);
      var before := Run<R>(cast, Initial(schema, targetSize), ops[..n]).value;
      assert ops[..n] + [ops[n]] == ops;
      OlderChunksKeepSize(cast, schema, targetSize, ops[..n], ops[n], before, t);
      if i < |before.chunks| - 1 {
        ClosedChunksAreFull(cast, schema, targetSize, ops[..n], before, i);
        if j :| Closes<R>(cast, schema, targetSize, ops[..n], i, j) {
          ClosedStaysClosed<R>(cast, schema, targetSize, ops, n, i, j);
        }
      } else if ops[n].NewChunk? {
        assert Closes<R>(cast, schema, targetSize, ops, i, n);
      } else if ChunkSize(before.chunks[i]) != targetSize {
        var j := CompressedWhileLast(cast, schema, targetSize, ops[..n], before);
        ClosedStaysClosed<R>(cast, schema, targetSize, ops, n, i, j);
      }
    }
  }

  lemma ClosedStaysClosed<R>(
      cast: Cast, schema: Schema, targetSize: nat, ops: seq<Operation>, n: nat, i: nat, j: nat)
    requires schema.Valid() && n <= |ops| && Closes<R>(cast, schema, targetSize, ops[..n], i, j)
    ensures Closes<R>(cast, schema, targetSize, ops, i, j)
  {
    assert ops[..n][..j] == ops[..j];
  }

  // ----- Which operations complete -----

  /** A chunk can be compressed exactly once, and a new chunk can always be made. */
  lemma CompressCompletesIff<R>(
      cast: Cast, schema: Schema, targetSize: nat, ops: seq<Operation>, id: nat, t: TableData<R>)
    requires schema.Valid() && schema.types != [] && Reaches(cast, schema, targetSize, ops, t)
    ensures Run<R>(cast, Initial(schema, targetSize), ops + [Compress(id)]).Some? <==>
              id < |t.chunks| && Compress(id) !in ops
    ensures Run<R>(cast, Initial(schema, targetSize), ops + [NewChunk]).Some?
  {
    RunPush<R>(cast, Initial(schema, targetSize), ops, Compress(id));
    RunPush<R>(cast, Initial(schema, targetSize), ops, NewChunk);
    RunStoresLog<R>(cast, schema, targetSize, ops);
    if id < |t.chunks| {
      TableChunk(cast, schema, targetSize, ops, t, id);
      ChunkOfLog<R>(schema, LogRun(cast, schema, targetSize, ops)[id]);
    }
  }

  lemma RoomIff<R>(schema: Schema, targetSize: nat, log: seq<LogChunk>, row: Row, t: TableData<R>)
    requires schema.Valid() && schema.types != [] && LogOk(schema, log) && t == StoreLog(schema, targetSize, log)
    requires |row| == |schema.types|
    ensures CanAppendTo(t, row)
    ensures var last := log[|log| - 1];
            HasRoom(t, row) <==> |last.rows| < 0xFFFF_FFFF || |last.rows| == targetSize || last.compressed
  {
    var last := |log| - 1;
    ChunkOfLog<R>(schema, log[last]);
    assert t.chunks[last][0].IsDictionaryOf(schema.types[0]) <==> log[last].compressed;
  }

  lemma AppendStepsIff<R>(cast: Cast, schema: Schema, targetSize: nat, ops: seq<Operation>, row: Row, t: TableData<R>)
    requires schema.Valid() && schema.types != [] && Reaches(cast, schema, targetSize, ops, t)
    ensures var last := LogRun(cast, schema, targetSize, ops)[|LogRun(cast, schema, targetSize, ops)| - 1];
            Run<R>(cast, Initial(schema, targetSize), ops + [Append(row)]).Some? <==>
              && |row| == |schema.types| && Acceptable(cast, schema, row)
              && (|last.rows| < 0xFFFF_FFFF || |last.rows| == targetSize || last.compressed)
  {
    RunPush<R>(cast, Initial(schema, targetSize), ops, Append(row));
    RunStoresLog<R>(cast, schema, targetSize, ops);
    if |row| == |schema.types| {
      RoomIff(schema, targetSize, LogRun(cast, schema, targetSize, ops), row, t);
    }
  }

  /** A row can be appended exactly when it has one cell per column, which the column takes, and the
      last chunk has a 32-bit offset left, or is full or compressed, so that a new one takes the row. */
  lemma AppendCompletesIff<R>(
      cast: Cast, schema: Schema, targetSize: nat, ops: seq<Operation>, row: Row, t: TableData<R>)
    requires schema.Valid() && schema.types != [] && Reaches(cast, schema, targetSize, ops, t)
    ensures t.chunks != []
    ensures var last := |t.chunks| - 1;
            Run<R>(cast, Initial(schema, targetSize), ops + [Append(row)]).Some? <==>
              && |row| == |schema.types|
              && (forall c :: 0 <= c < |row| ==>
                    if row[c].Null? then schema.nullable[c] else cast(schema.types[c], row[c].value).Some?)
              && (ChunkSize(t.chunks[last]) < 0xFFFF_FFFF || ChunkSize(t.chunks[last]) == targetSize
                  || Compress(last) in ops)
  {
    TableChunk(cast, schema, targetSize, ops, t, |LogRun(cast, schema, targetSize, ops)| - 1);
    AppendStepsIff(cast, schema, targetSize, ops, row, t);
    if |row| == |schema.types| {
      CellsFitIff(cast, schema, row);
    }
  }

  // ----- Appended rows -----

  function RowsAppended(ops: seq<Operation>): seq<Row> {
    if ops == [] then []
    else RowsAppended(ops[..|ops| - 1]) + if ops[|ops| - 1].Append? then [ops[|ops| - 1].row] else []
  }

  /** What a table stores for a row: cell by cell the NULL, where one is allowed, or the cast value. */
  ghost predicate StoredRowFor(cast: Cast, schema: Schema, appended: Row, stored: Row)
    requires schema.Valid()
  {
    && |appended| == |stored| == |schema.types|
    && forall c :: 0 <= c < |stored| ==>
         StoredFor(cast, schema.types[c], appended[c], stored[c]) && (stored[c].Null? ==> schema.nullable[c])
  }

  lemma CastRowIsStored(cast: Cast, schema: Schema, row: Row)
    requires schema.Valid() && |row| == |schema.types| && Acceptable(cast, schema, row)
    ensures StoredRowFor(cast, schema, row, CastRow(cast, schema, row))
  {
    forall c | 0 <= c < |row|
      ensures StoredFor(cast, schema.types[c], row[c], CastRow(cast, schema, row)[c])
      ensures row[c].Null? ==> schema.nullable[c]
    {
      assert AcceptableCell(cast, schema, row, c);
    }
  }

  /** The rows of a run are those its append operations name, each stored cell by cell. */
  lemma {:induction false} AppendedRowsAreStored<R>(cast: Cast, schema: Schema, targetSize: nat, ops: seq<Operation>)
    requires schema.Valid() && Run<R>(cast, Initial(schema, targetSize), ops).Some?
    ensures |AppendedRows(cast, schema, ops)| == |RowsAppended(ops)|
    ensures forall k :: 0 <= k < |RowsAppended(ops)| ==>
              StoredRowFor(cast, schema, RowsAppended(ops)[k], AppendedRows(cast, schema, ops)[k])
  {
    if ops != [] {
      var n := |ops| - 1;
      AppendedRowsAreStored<R>(cast, schema, targetSize, ops[..n]);
      RunStoresLog<R>(cast, schema, targetSize, ops[..n]);
      if ops[n].Append? {
        CastRowIsStored(cast, schema, ops[n].row);
      }
    }
  }

  // ----- Column types -----

  /** The values of a column whose cells have its type, placeholders included. */
  lemma StoredCellsHoldType(ty: DataType, nullable: bool, cells: seq<Cell>)
    requires forall k :: 0 <= k < |cells| && cells[k].NonNull? ==> TypeOf(cells[k].value) == ty
    ensures HoldsType(ty, StoreCells(ty, nullable, cells).values)
  {
  }

  lemma CellHoldsType(vs: StoredSegment, k: nat)
    requires vs.ValueData? && vs.Readable() && HoldsType(vs.ty, vs.values) && k < |vs.values|
    ensures Encode(vs).Readable()
    ensures vs.CellAt(k).NonNull? ==> TypeOf(vs.CellAt(k).value) == vs.ty
    ensures Encode(vs).CellAt(k).NonNull? ==> TypeOf(Encode(vs).CellAt(k).value) == vs.ty
  {
    NarrowingIsLossless(vs);
    if Encode(vs).CellAt(k).NonNull? {
      assert Encode(vs).CellAt(k).value in DictionaryOf(vs);
    }
  }

  lemma LoggedCellsHoldType(cast: Cast, schema: Schema, targetSize: nat, ops: seq<Operation>, i: nat, c: nat)
    requires Typed(cast) && schema.Valid() && LogOk(schema, LogRun(cast, schema, targetSize, ops))
    requires i < |LogRun(cast, schema, targetSize, ops)| && c < |schema.types|
    ensures HoldsType(schema.types[c], ColumnSegment(schema, LogRun(cast, schema, targetSize, ops)[i].rows, c).values)
  {
    LogIsSearchable(cast, schema, targetSize, ops);
    var cells := ColumnCells(LogRun(cast, schema, targetSize, ops)[i].rows, c);
    forall k | 0 <= k < |cells| && cells[k].NonNull?
      ensures TypeOf(cells[k].value) == schema.types[c]
    {
      assert SearchableRow(cast, schema, LogRun(cast, schema, targetSize, ops)[i].rows[k]);
      assert Searchable(cast, schema.types[c], cells[k]);
    }
    StoredCellsHoldType(schema.types[c], schema.nullable[c], cells);
  }

  /** Every cell a run's table shows has the type of its column, compressed or not, misread or not. */
  lemma CellsHaveColumnType<R>(
      cast: Cast, schema: Schema, targetSize: nat, ops: seq<Operation>, t: TableData<R>, p: RowID, c: nat)
    requires Typed(cast) && schema.Valid() && schema.types != [] && Reaches(cast, schema, targetSize, ops, t)
    requires HasRow(t, p) && t.schema == schema && c < |schema.types|
    ensures RowAt(t, p)[c].NonNull? ==>
              match schema.types[c]
              case IntType => RowAt(t, p)[c].value.Int?
              case LongType => RowAt(t, p)[c].value.Long?
              case FloatType => RowAt(t, p)[c].value.Float?
              case DoubleType => RowAt(t, p)[c].value.Double?
              case StringType => RowAt(t, p)[c].value.Text?
  {
    RunStoresLog<R>(cast, schema, targetSize, ops);
    var chunk := LogRun(cast, schema, targetSize, ops)[p.chunkId];
    StoredChunkOfLog<R>(schema, chunk);
    LoggedCellsHoldType(cast, schema, targetSize, ops, p.chunkId, c);
    CellHoldsType(ColumnSegment(schema, chunk.rows, c), p.chunkOffset);
  }

  // ----- Runs of appends only -----

  ghost predicate AppendsOnly(ops: seq<Operation>) {
    forall k :: 0 <= k < |ops| ==> ops[k].Append?
  }

  lemma {:induction false} RowsOfAppendsOnly(ops: seq<Operation>)
    requires AppendsOnly(ops)
    ensures |RowsAppended(ops)| == |ops| && forall k :: 0 <= k < |ops| ==> RowsAppended(ops)[k] == ops[k].row
  {
    if ops != [] {
      RowsOfAppendsOnly(ops[..|ops| - 1]);
    }
  }

  /** The rows of `n` full chunks. */
  ghost function Full(n: nat, size: nat): nat {
    if n == 0 then 0 else Full(n - 1, size) + size
  }

  lemma {:induction false} FullIsProduct(n: nat, size: nat)
    ensures Full(n, size) == n * size
  {
    if n > 0 {
      FullIsProduct(n - 1, size);
    }
  }

  lemma {:induction false} FullGrows(a: nat, b: nat, size: nat)
    ensures a < b ==> Full(a, size) + size <= Full(b, size)
  {
    if a < b - 1 {
      FullGrows(a, b - 1, size);
    }
  }

  lemma Division(k: nat, size: nat)
    requires size >= 1
    ensures k == (k / size) * size + k % size
  {
  }

  lemma FullChunks(k: nat, size: nat, i: nat, j: nat)
    requires k == Full(i, size) + j && j < size
    ensures k / size == i && k % size == j
  {
    Division(k, size);
    FullIsProduct(k / size, size);
    FullGrows(k / size, i, size);
    FullGrows(i, k / size, size);
  }

  lemma {:induction false} FullLength<T>(lists: seq<seq<T>>, size: nat)
    requires forall m :: 0 <= m < |lists| ==> |lists[m]| == size
    ensures |Concat(lists)| == Full(|lists|, size)
  {
    if lists != [] {
      FullLength(lists[..|lists| - 1], size);
    }
  }

  /** Where an element of a concatenation is when all lists but the last have one size. */
  lemma {:induction false} FindInFull<T>(lists: seq<seq<T>>, size: nat, k: nat) returns (i: nat, j: nat)
    requires k < |Concat(lists)|
    requires forall m :: 0 <= m < |lists| - 1 ==> |lists[m]| == size
    ensures i < |lists| && j < |lists[i]| && k == Full(i, size) + j
    ensures Concat(lists)[k] == lists[i][j]
  {
    var n := |lists| - 1;
    FullLength(lists[..n], size);
    if k < |Concat(lists[..n])| {
      i, j := FindInFull(lists[..n], size, k);
    } else {
      i, j := n, k - |Concat(lists[..n])|;
    }
  }

  lemma {:induction false} LastChunkHasRow<R>(
      cast: Cast, schema: Schema, targetSize: nat, ops: seq<Operation>, t: TableData<R>)
    requires schema.Valid() && schema.types != [] && Reaches(cast, schema, targetSize, ops, t)
    requires ops != [] && AppendsOnly(ops)
    ensures t.chunks != [] && ChunkSize(t.chunks[|t.chunks| - 1]) >= 1
  {
    var n := |ops| - 1;
    RunStepsThrough<R>(cast, Initial(schema, targetSize), ops, n);
    assert ops[..n] + [ops[n]] == ops;
    var before := Run<R>(cast, Initial(schema, targetSize), ops[..n]).value;
    AppendLayout(cast, schema, targetSize, ops[..n], ops[n].row, before, t);
  }

  /** The log of a run of appends: full chunks, and a last one that holds the rest. */
  lemma AppendsFillChunks<R>(cast: Cast, schema: Schema, targetSize: nat, ops: seq<Operation>, t: TableData<R>)
    requires schema.Valid() && schema.types != [] && Reaches(cast, schema, targetSize, ops, t)
    requires targetSize >= 1 && AppendsOnly(ops)
    ensures var log := LogRun(cast, schema, targetSize, ops);
            && LogOk(schema, log) && t == StoreLog(schema, targetSize, log)
            && (forall i :: 0 <= i < |log| ==> !log[i].compressed && |log[i].rows| <= targetSize)
            && (forall i :: 0 <= i < |log| - 1 ==> |log[i].rows| == targetSize)
            && (|log| > 1 ==> |log[|log| - 1].rows| >= 1)
  {
    RunStoresLog<R>(cast, schema, targetSize, ops);
    var log := LogRun(cast, schema, targetSize, ops);
    LogChunksWithinTarget(cast, schema, targetSize, ops);
    forall i | 0 <= i < |log|
      ensures !log[i].compressed && ChunkSize(t.chunks[i]) == |log[i].rows|
    {
      TableChunk(cast, schema, targetSize, ops, t, i);
    }
    forall i | 0 <= i < |log| - 1
      ensures |log[i].rows| == targetSize
    {
      ClosedChunksAreFull(cast, schema, targetSize, ops, t, i);
    }
    if ops == [] {
      assert |log| == 1;
    } else {
      LastChunkHasRow(cast, schema, targetSize, ops, t);
    }
  }

  lemma AppendsAreLogged<R>(cast: Cast, schema: Schema, targetSize: nat, ops: seq<Operation>, k: nat)
    requires schema.Valid() && Run<R>(cast, Initial(schema, targetSize), ops).Some? && AppendsOnly(ops) && k < |ops|
    ensures var rows := Concat(LogRows(LogRun(cast, schema, targetSize, ops)));
            |rows| == |ops| && StoredRowFor(cast, schema, ops[k].row, rows[k])
  {
    AppendedRowsAreStored<R>(cast, schema, targetSize, ops);
    RowsOfAppendsOnly(ops);
    LogHoldsAppendedRows(cast, schema, targetSize, ops);
  }

  /** A run of n appends and nothing else, with a target of at least one, puts row `k` at offset
      `k % target` of chunk `k / target`, stored cell by cell. */
  lemma AppendsLayout<R>(cast: Cast, schema: Schema, targetSize: nat, ops: seq<Operation>, t: TableData<R>, k: nat)
    requires schema.Valid() && schema.types != [] && Reaches(cast, schema, targetSize, ops, t)
    requires targetSize >= 1 && AppendsOnly(ops) && k < |ops|
    ensures var p := RowID(k / targetSize, k % targetSize);
            HasRow(t, p) && StoredRowFor(cast, schema, ops[k].row, RowAt(t, p))
  {
    AppendsFillChunks(cast, schema, targetSize, ops, t);
    AppendsAreLogged<R>(cast, schema, targetSize, ops, k);
    var log := LogRun(cast, schema, targetSize, ops);
    var i, j := FindInFull(LogRows(log), targetSize, k);
    FullChunks(k, targetSize, i, j);
    StoredRowReads<R>(schema, targetSize, log, i, j);
  }

  /** Such a run makes one chunk per started `target` rows, and no chunk that stays empty. */
  lemma AppendsChunkCount<R>(cast: Cast, schema: Schema, targetSize: nat, ops: seq<Operation>, t: TableData<R>)
    requires schema.Valid() && schema.types != [] && Reaches(cast, schema, targetSize, ops, t)
    requires targetSize >= 1 && AppendsOnly(ops)
    ensures |t.chunks| == if ops == [] then 1 else (|ops| - 1) / targetSize + 1
  {
    AppendsFillChunks(cast, schema, targetSize, ops, t);
    var log := LogRun(cast, schema, targetSize, ops);
    if ops != [] {
      AppendsAreLogged<R>(cast, schema, targetSize, ops, 0);
      LastChunkHasRow(cast, schema, targetSize, ops, t);
      StoredChunkOfLog<R>(schema, log[|log| - 1]);
      var lists, full := LogRows(log), |log| - 1;
      FullLength(lists[..full], targetSize);
      FullChunks(|ops| - 1, targetSize, full, |lists[full]| - 1);
    }
  }
}
