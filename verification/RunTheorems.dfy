/** What every run of table operations guarantees, and scans of the tables it reaches. */
module RunTheorems {
  import opened Types
  import opened Encoding
  import opened TableModel
  import opened ScanModel
  import opened ScanTheorems
  import opened ScanChains
  import opened Runs

  // ----- Every run keeps the table well formed -----

  lemma ColumnSegmentReads(schema: Schema, rows: seq<Row>, c: nat)
    requires schema.Valid() && RowsFit(schema, rows) && |rows| <= MAX_UINT32 && c < |schema.types|
    ensures var vs := ColumnSegment(schema, rows, c);
            vs.Readable() && NullsHoldDefault(vs) && vs.Cells() == ColumnCells(rows, c)
  {
    StoreCellsReads(schema.types[c], schema.nullable[c], ColumnCells(rows, c));
  }

  lemma StoredChunkOfLog<R>(schema: Schema, chunk: LogChunk)
    requires schema.Valid() && LogChunkOk(schema, chunk)
    ensures StoredChunk<R>(schema.types, StoreChunk(schema, chunk))
    ensures UniformChunk<R>(schema, StoreChunk(schema, chunk))
    ensures schema.types != [] ==> ChunkSize<R>(StoreChunk(schema, chunk)) == |chunk.rows|
  {
    forall c | 0 <= c < |schema.types|
      ensures var vs := ColumnSegment(schema, chunk.rows, c);
              vs.Readable() && NullsHoldDefault(vs) && Encode(vs).Readable()
    {
      ColumnSegmentReads(schema, chunk.rows, c);
      NarrowingIsLossless(ColumnSegment(schema, chunk.rows, c));
    }
  }

  lemma StoredLogIsWellFormed<R>(schema: Schema, targetSize: nat, log: seq<LogChunk>)
    requires schema.Valid() && LogOk(schema, log)
    ensures WellFormed<R>(StoreLog(schema, targetSize, log))
  {
    forall i | 0 <= i < |log|
      ensures StoredChunk<R>(schema.types, StoreChunk(schema, log[i]))
      ensures UniformChunk<R>(schema, StoreChunk(schema, log[i]))
    {
      StoredChunkOfLog<R>(schema, log[i]);
    }
  }

  /** Every run keeps the table well formed: at least one chunk, in each chunk one segment per
      column, all readable, of one length and of one kind. */
  lemma RunKeepsWellFormed<R>(cast: Cast, schema: Schema, targetSize: nat, ops: seq<Operation>, t: TableData<R>)
    requires schema.Valid() && Reaches(cast, schema, targetSize, ops, t)
    ensures WellFormed(t)
  {
    RunStoresLog<R>(cast, schema, targetSize, ops);
    StoredLogIsWellFormed<R>(schema, targetSize, LogRun(cast, schema, targetSize, ops));
  }

  // ----- A table refines a sequence of rows -----

  ghost function LogRows(log: seq<LogChunk>): seq<seq<Row>> {
    seq(|log|, i requires 0 <= i < |log| => log[i].rows)
  }

  /** The rows appended by a run, in order, each as its columns store it. */
  ghost function AppendedRows(cast: Cast, schema: Schema, ops: seq<Operation>): seq<Row>
    requires schema.Valid()
  {
    if ops == [] then []
    else
      var n := |ops| - 1;
      AppendedRows(cast, schema, ops[..n]) +
      match ops[n]
      case Append(row) =>
        if |row| == |schema.types| && Acceptable(cast, schema, row) then [CastRow(cast, schema, row)] else []
      case _ => []
  }

  lemma ConcatPush<T>(lists: seq<seq<T>>, last: seq<T>)
    ensures Concat(lists + [last]) == Concat(lists) + last
  {
  }

  lemma LogRowAppends(targetSize: nat, log: seq<LogChunk>, row: Row)
    requires log != []
    ensures Concat(LogRows(LogRow(targetSize, log, row))) == Concat(LogRows(log)) + [row]
  {
    var n := |log| - 1;
    var after := LogRow(targetSize, log, row);
    if |after| == |log| {
      assert LogRows(after) == LogRows(log)[..n] + [log[n].rows + [row]];
      ConcatPush(LogRows(log)[..n], log[n].rows + [row]);
      assert LogRows(log)[..n] + [log[n].rows] == LogRows(log);
      ConcatPush(LogRows(log)[..n], log[n].rows);
    } else {
      assert LogRows(after) == LogRows(log) + [[row]];
      ConcatPush(LogRows(log), [row]);
    }
  }

  /** Append adds one row at the end; a new chunk and compression leave the logged rows alone. */
  lemma {:induction false} LogHoldsAppendedRows(cast: Cast, schema: Schema, targetSize: nat, ops: seq<Operation>)
    requires schema.Valid()
    ensures Concat(LogRows(LogRun(cast, schema, targetSize, ops))) == AppendedRows(cast, schema, ops)
  {
    if ops == [] {
      assert LogRows(LogRun(cast, schema, targetSize, ops)) == [[]];
      ConcatOfEmpty<Row>();
    } else {
      var n := |ops| - 1;
      LogHoldsAppendedRows(cast, schema, targetSize, ops[..n]);
      var before := LogRun(cast, schema, targetSize, ops[..n]);
      var after := LogRun(cast, schema, targetSize, ops);
      match ops[n]
      case Append(row) =>
        if |row| == |schema.types| && Acceptable(cast, schema, row) {
          LogRowAppends(targetSize, before, CastRow(cast, schema, row));
        }
      case NewChunk =>
        assert LogRows(after) == LogRows(before) + [[]];
        ConcatPush(LogRows(before), []);
      case Compress(id) =>
        assert LogRows(after) == LogRows(before);
    }
  }

  // ----- Every stored value can be searched for -----

  /** The cell is NULL or the cast of some value, which a scan can search for. */
  ghost predicate Searchable(cast: Cast, ty: DataType, cell: Cell) {
    cell.NonNull? ==> exists x :: cast(ty, x) == Some(cell.value)
  }

  ghost predicate SearchableRow(cast: Cast, schema: Schema, row: Row)
    requires schema.Valid()
  {
    |row| == |schema.types| && forall c :: 0 <= c < |row| ==> Searchable(cast, schema.types[c], row[c])
  }

  lemma CastRowIsSearchable(cast: Cast, schema: Schema, row: Row)
    requires schema.Valid() && |row| == |schema.types| && Acceptable(cast, schema, row)
    ensures SearchableRow(cast, schema, CastRow(cast, schema, row))
  {
    var stored := CastRow(cast, schema, row);
    forall c | 0 <= c < |row|
      ensures Searchable(cast, schema.types[c], stored[c])
    {
      assert AcceptableCell(cast, schema, row, c);
      if row[c].NonNull? {
        assert cast(schema.types[c], row[c].value) == Some(stored[c].value);
      }
    }
  }

  /** Every row a run has logged is the cast of an appended one. */
  lemma {:induction false} LogIsSearchable(cast: Cast, schema: Schema, targetSize: nat, ops: seq<Operation>)
    requires schema.Valid()
    ensures forall i, k :: 0 <= i < |LogRun(cast, schema, targetSize, ops)| &&
                           0 <= k < |LogRun(cast, schema, targetSize, ops)[i].rows| ==>
              SearchableRow(cast, schema, LogRun(cast, schema, targetSize, ops)[i].rows[k])
  {
    if ops != [] {
      var n := |ops| - 1;
      LogIsSearchable(cast, schema, targetSize, ops[..n]);
      match ops[n]
      case Append(row) =>
        if |row| == |schema.types| && Acceptable(cast, schema, row) {
          CastRowIsSearchable(cast, schema, row);
        }
      case _ =>
    }
  }

  // ----- What a run's table shows -----

  /** A compressed chunk is safe when each column is; an uncompressed one always is. */
  ghost predicate SafeChunk(schema: Schema, chunk: LogChunk)
    requires schema.Valid() && LogChunkOk(schema, chunk)
  {
    chunk.compressed ==>
      forall c :: 0 <= c < |schema.types| ==> PlaceholderSafe(schema.types[c], ColumnCells(chunk.rows, c))
  }

  ghost predicate SafeLog(schema: Schema, log: seq<LogChunk>)
    requires schema.Valid()
  {
    LogOk(schema, log) && forall i :: 0 <= i < |log| ==> SafeChunk(schema, log[i])
  }

  /** One cell of a stored log: what was appended, unless it was compressed and is misread. */
  lemma StoredCellReads(schema: Schema, chunk: LogChunk, k: nat, c: nat)
    requires schema.Valid() && LogChunkOk(schema, chunk) && k < |chunk.rows| && c < |schema.types|
    ensures var vs := ColumnSegment(schema, chunk.rows, c);
            && vs.Readable() && Encode(vs).Readable()
            && vs.CellAt(k) == chunk.rows[k][c]
            && (Encode(vs).CellAt(k) == chunk.rows[k][c] <==> !Misread(schema.types[c], ColumnCells(chunk.rows, c), k))
  {
    var vs := ColumnSegment(schema, chunk.rows, c);
    ColumnSegmentReads(schema, chunk.rows, c);
    assert vs.Cells()[k] == ColumnCells(chunk.rows, c)[k];
    DecodingDiffersWhereMisread(vs, k);
  }

  ghost predicate MisreadRow(schema: Schema, chunk: LogChunk, k: nat)
    requires schema.Valid() && LogChunkOk(schema, chunk) && k < |chunk.rows|
  {
    exists c :: 0 <= c < |schema.types| && Misread(schema.types[c], ColumnCells(chunk.rows, c), k)
  }

  /** A row of a stored log reads as appended exactly when it is not a misread row of a compressed chunk. */
  lemma StoredRowReads<R>(schema: Schema, targetSize: nat, log: seq<LogChunk>, i: nat, k: nat)
    requires schema.Valid() && schema.types != [] && LogOk(schema, log) && i < |log| && k < |log[i].rows|
    ensures HasRow<R>(StoreLog(schema, targetSize, log), RowID(i, k))
    ensures RowAt<R>(StoreLog(schema, targetSize, log), RowID(i, k)) == log[i].rows[k] <==>
              !(log[i].compressed && MisreadRow(schema, log[i], k))
  {
    StoredChunkOfLog<R>(schema, log[i]);
    var t: TableData<R> := StoreLog(schema, targetSize, log);
    var row := RowAt(t, RowID(i, k));
    forall c | 0 <= c < |schema.types|
      ensures row[c] == log[i].rows[k][c] <==>
                !(log[i].compressed && Misread(schema.types[c], ColumnCells(log[i].rows, c), k))
    {
      StoredCellReads(schema, log[i], k, c);
    }
  }

  lemma SafeMeansNoMisread(schema: Schema, chunk: LogChunk)
    requires schema.Valid() && LogChunkOk(schema, chunk) && chunk.compressed
    ensures SafeChunk(schema, chunk) <==> forall k :: 0 <= k < |chunk.rows| ==> !MisreadRow(schema, chunk, k)
  {
    if !SafeChunk(schema, chunk) {
      var c :| 0 <= c < |schema.types| && !PlaceholderSafe(schema.types[c], ColumnCells(chunk.rows, c));
      var k := MisreadWhenUnsafe(schema.types[c], ColumnCells(chunk.rows, c));
      assert MisreadRow(schema, chunk, k);
    }
  }

  lemma StoredChunkReads<R>(store: Store<R>, self: R, schema: Schema, targetSize: nat, log: seq<LogChunk>, i: nat)
    requires schema.Valid() && schema.types != [] && LogOk(schema, log) && i < |log|
    requires Scannable(store, StoreLog(schema, targetSize, log))
    ensures |ChunkEntries(store, self, StoreLog(schema, targetSize, log), i)| == |log[i].rows|
    ensures RowsOf(ChunkEntries(store, self, StoreLog(schema, targetSize, log), i)) == log[i].rows <==>
              SafeChunk(schema, log[i])
  {
    StoredChunkOfLog<R>(schema, log[i]);
    var t := StoreLog(schema, targetSize, log);
    var shown := RowsOf(ChunkEntries(store, self, t, i));
    forall k | 0 <= k < |log[i].rows|
      ensures shown[k] == log[i].rows[k] <==> !(log[i].compressed && MisreadRow(schema, log[i], k))
    {
      StoredRowReads<R>(schema, targetSize, log, i, k);
    }
    if log[i].compressed {
      SafeMeansNoMisread(schema, log[i]);
    }
  }

  lemma {:induction false} ConcatRows<R>(lists: seq<seq<Entry<R>>>, rows: seq<seq<Row>>)
    requires |lists| == |rows| && forall i :: 0 <= i < |rows| ==> |lists[i]| == |rows[i]|
    ensures |Concat(lists)| == |Concat(rows)|
    ensures RowsOf(Concat(lists)) == Concat(rows) <==> forall i :: 0 <= i < |rows| ==> RowsOf(lists[i]) == rows[i]
  {
    if lists != [] {
      var n := |lists| - 1;
      ConcatRows(lists[..n], rows[..n]);
      assert RowsOf(Concat(lists)) == RowsOf(Concat(lists[..n])) + RowsOf(lists[n]);
      var a, b := RowsOf(Concat(lists[..n])), Concat(rows[..n]);
      if a + RowsOf(lists[n]) == b + rows[n] {
        assert a == (a + RowsOf(lists[n]))[..|a|] && b == (b + rows[n])[..|b|];
        assert RowsOf(lists[n]) == (a + RowsOf(lists[n]))[|a|..] && rows[n] == (b + rows[n])[|b|..];
      }
      forall i | 0 <= i < n
        ensures lists[..n][i] == lists[i] && rows[..n][i] == rows[i]
      {
      }
    }
  }

  /** The rows of a table, chunk by chunk. */
  ghost function ShownRows<R>(store: Store<R>, self: R, t: TableData<R>): (rows: seq<seq<Row>>)
    requires Scannable(store, t)
    ensures |rows| == |t.chunks| && Concat(rows) == Rows(store, self, t)
  {
    var lists := EntryLists(store, self, t);
    var rows := seq(|t.chunks|, i requires 0 <= i < |t.chunks| => RowsOf(lists[i]));
    ConcatRows(lists, rows);
    rows
  }

  lemma StoredLogIsScannable<R>(store: Store<R>, schema: Schema, targetSize: nat, log: seq<LogChunk>)
    requires schema.Valid() && schema.types != [] && LogOk(schema, log)
    ensures Scannable(store, StoreLog<R>(schema, targetSize, log))
  {
    StoredLogIsWellFormed<R>(schema, targetSize, log);
  }

  /** A run's table shows exactly the appended rows if and only if every chunk it compressed
      was safe: no column had both a NULL and a value not greater than its type's default. */
  lemma RunShowsAppendedRowsIffSafe<R>(cast: Cast, schema: Schema, targetSize: nat, ops: seq<Operation>,
                                       t: TableData<R>, store: Store<R>, self: R)
    requires schema.Valid() && schema.types != [] && Reaches(cast, schema, targetSize, ops, t)
    ensures Scannable(store, t)
    ensures |Rows(store, self, t)| == |AppendedRows(cast, schema, ops)|
    ensures Rows(store, self, t) == AppendedRows(cast, schema, ops) <==>
              SafeLog(schema, LogRun(cast, schema, targetSize, ops))
  {
    RunStoresLog<R>(cast, schema, targetSize, ops);
    var log := LogRun(cast, schema, targetSize, ops);
    StoredLogIsScannable(store, schema, targetSize, log);
    forall i | 0 <= i < |log|
      ensures |EntryLists(store, self, t)[i]| == |LogRows(log)[i]|
      ensures RowsOf(EntryLists(store, self, t)[i]) == LogRows(log)[i] <==> SafeChunk(schema, log[i])
    {
      StoredChunkReads(store, self, schema, targetSize, log, i);
    }
    ConcatRows(EntryLists(store, self, t), LogRows(log));
    LogHoldsAppendedRows(cast, schema, targetSize, ops);
  }

  // ----- Sizes -----

  lemma {:induction false} LogChunksWithinTarget(cast: Cast, schema: Schema, targetSize: nat, ops: seq<Operation>)
    requires schema.Valid() && targetSize >= 1
    ensures forall chunk :: chunk in LogRun(cast, schema, targetSize, ops) ==> |chunk.rows| <= targetSize
  {
    if ops != [] {
      LogChunksWithinTarget(cast, schema, targetSize, ops[..|ops| - 1]);
    }
  }

  /** The chunks of a run stay within the target size exactly when that is at least one or nothing
      is appended: with a target of zero the first row already exceeds it. */
  lemma ChunksWithinTargetIff<R>(cast: Cast, schema: Schema, targetSize: nat, ops: seq<Operation>, t: TableData<R>)
    requires schema.Valid() && schema.types != [] && Reaches(cast, schema, targetSize, ops, t)
    ensures (forall i :: 0 <= i < |t.chunks| ==> ChunkSize(t.chunks[i]) <= targetSize) <==>
              targetSize >= 1 || CountAppends(ops) == 0
  {
    RunStoresLog<R>(cast, schema, targetSize, ops);
    LogHoldsAppendedRows(cast, schema, targetSize, ops);
    EveryAppendAddsRow<R>(cast, schema, targetSize, ops);
    var log := LogRun(cast, schema, targetSize, ops);
    forall i | 0 <= i < |log|
      ensures ChunkSize(t.chunks[i]) == |LogRows(log)[i]|
    {
      StoredChunkOfLog<R>(schema, log[i]);
    }
    ConcatIsEmpty(LogRows(log));
    if targetSize >= 1 {
      LogChunksWithinTarget(cast, schema, targetSize, ops);
    }
  }

  function CountAppends(ops: seq<Operation>): nat {
    if ops == [] then 0
    else CountAppends(ops[..|ops| - 1]) + if ops[|ops| - 1].Append? then 1 else 0
  }

  lemma {:induction false} EveryAppendAddsRow<R>(cast: Cast, schema: Schema, targetSize: nat, ops: seq<Operation>)
    requires schema.Valid() && Run<R>(cast, Initial(schema, targetSize), ops).Some?
    ensures |AppendedRows(cast, schema, ops)| == CountAppends(ops)
  {
    if ops != [] {
      EveryAppendAddsRow<R>(cast, schema, targetSize, ops[..|ops| - 1]);
      RunStoresLog<R>(cast, schema, targetSize, ops[..|ops| - 1]);
    }
  }

  lemma {:induction false} RowCountIsLength<R, T>(chunks: seq<ChunkData<R>>, lists: seq<seq<T>>)
    requires |chunks| == |lists| && forall i :: 0 <= i < |chunks| ==> |lists[i]| == ChunkSize(chunks[i])
    ensures RowCount(chunks) == |Concat(lists)|
  {
    if chunks != [] {
      RowCountIsLength(chunks[..|chunks| - 1], lists[..|lists| - 1]);
    }
  }

  /** The row count after any run is the number of its appends, whatever it compressed. */
  lemma RunCountsAppends<R>(cast: Cast, schema: Schema, targetSize: nat, ops: seq<Operation>, t: TableData<R>)
    requires schema.Valid() && schema.types != [] && Reaches(cast, schema, targetSize, ops, t)
    ensures RowCount(t.chunks) == CountAppends(ops) == |AppendedRows(cast, schema, ops)|
  {
    RunStoresLog<R>(cast, schema, targetSize, ops);
    var log := LogRun(cast, schema, targetSize, ops);
    forall i | 0 <= i < |log|
      ensures |LogRows(log)[i]| == ChunkSize(t.chunks[i])
    {
      StoredChunkOfLog<R>(schema, log[i]);
    }
    RowCountIsLength(t.chunks, LogRows(log));
    LogHoldsAppendedRows(cast, schema, targetSize, ops);
    EveryAppendAddsRow<R>(cast, schema, targetSize, ops);
  }

  // ----- End to end -----

  /** For any run of operations and any chain of scans, whatever was compressed and when, the
      result is the appended rows filtered by all queries, each reference pointing into the base. */
  lemma ScansOfRunsFilterAppendedRows<R>(
      cast: Cast, schema: Schema, targetSize: nat, ops: seq<Operation>,
      store: Store<R>, base: R, selfs: seq<R>, qs: seq<Query>, other: R)
    requires schema.Valid() && schema.types != []
    requires base in store && Reaches(cast, schema, targetSize, ops, store[base])
    requires |selfs| == |qs| && if qs == [] then other == base else selfs[0] == base
    requires AllCastable(cast, schema.types, qs)
    requires SafeLog(schema, LogRun(cast, schema, targetSize, ops))
    ensures Scannable(store, store[base]) && store[base].schema == schema
    ensures Rows(store, other, Chain(cast, store, selfs, store[base], qs))
            == FilterAll(cast, schema.types, qs, AppendedRows(cast, schema, ops))
    ensures RefersTo(store, base, Entries(store, other, Chain(cast, store, selfs, store[base], qs)))
  {
    RunStoresLog<R>(cast, schema, targetSize, ops);
    RunKeepsWellFormed(cast, schema, targetSize, ops, store[base]);
    RunShowsAppendedRowsIffSafe(cast, schema, targetSize, ops, store[base], store, base);
    ChainIsConjunction(cast, store, selfs, store[base], qs, base, other);
    ChainRefersToBase(cast, store, selfs, base, qs, other);
  }
}
