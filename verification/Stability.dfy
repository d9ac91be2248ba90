/** Row positions, and the scan results that hold them, stay meaningful while their table changes. */
module Stability {
  import opened Types
  import opened TableModel
  import opened ScanModel
  import opened ScanTheorems
  import opened ScanAlgebra
  import opened Runs
  import opened RunTheorems

  ghost predicate GrowsTo(before: seq<LogChunk>, after: seq<LogChunk>) {
    && |before| <= |after|
    && forall i :: 0 <= i < |before| ==>
         && before[i].rows <= after[i].rows
         && (before[i].compressed ==> after[i] == before[i])
  }

  lemma LogStepGrows(cast: Cast, schema: Schema, targetSize: nat, log: seq<LogChunk>, op: Operation)
    requires schema.Valid() && log != []
    ensures GrowsTo(log, LogStep(cast, schema, targetSize, log, op))
  {
  }

  lemma GrowsToTransitive(a: seq<LogChunk>, b: seq<LogChunk>, c: seq<LogChunk>)
    requires GrowsTo(a, b) && GrowsTo(b, c)
    ensures GrowsTo(a, c)
  {
  }

  lemma {:induction false} LogOnlyGrows(
      cast: Cast, schema: Schema, targetSize: nat, ops: seq<Operation>, more: seq<Operation>)
    requires schema.Valid()
    ensures GrowsTo(LogRun(cast, schema, targetSize, ops), LogRun(cast, schema, targetSize, ops + more))
  {
    if more == [] {
      assert ops + more == ops;
    } else {
      var n := |more| - 1;
      LogOnlyGrows(cast, schema, targetSize, ops, more[..n]);
      assert (ops + more)[..|ops| + n] == ops + more[..n];
      var log := LogRun(cast, schema, targetSize, ops + more[..n]);
      LogStepGrows(cast, schema, targetSize, log, more[n]);
      GrowsToTransitive(LogRun(cast, schema, targetSize, ops), log, LogRun(cast, schema, targetSize, ops + more));
    }
  }

  /** The position has been compressed between two logs, and its row is misread. */
  ghost predicate MisreadSince(schema: Schema, before: seq<LogChunk>, after: seq<LogChunk>, p: RowID)
    requires schema.Valid() && LogOk(schema, after)
  {
    && p.chunkId < |before| && p.chunkId < |after| && p.chunkOffset < |after[p.chunkId].rows|
    && !before[p.chunkId].compressed && after[p.chunkId].compressed
    && MisreadRow(schema, after[p.chunkId], p.chunkOffset)
  }

  lemma SameChunkSameRow<R>(schema: Schema, targetSize: nat, log: seq<LogChunk>, grown: seq<LogChunk>, i: nat, k: nat)
    requires schema.Valid() && schema.types != [] && LogOk(schema, log) && LogOk(schema, grown)
    requires i < |log| && i < |grown| && log[i] == grown[i] && k < |log[i].rows|
    ensures HasRow<R>(StoreLog(schema, targetSize, log), RowID(i, k))
    ensures HasRow<R>(StoreLog(schema, targetSize, grown), RowID(i, k))
    ensures RowAt<R>(StoreLog(schema, targetSize, log), RowID(i, k))
            == RowAt<R>(StoreLog(schema, targetSize, grown), RowID(i, k))
  {
    StoredChunkOfLog<R>(schema, log[i]);
  }

  /** A row position keeps its row through any later operations; what it reads changes exactly
      when its chunk has been compressed since and the row is misread. */
  lemma RowStaysUnlessMisread<R>(
      cast: Cast, schema: Schema, targetSize: nat, ops: seq<Operation>, more: seq<Operation>,
      t: TableData<R>, later: TableData<R>, p: RowID)
    requires schema.Valid() && schema.types != []
    requires Reaches(cast, schema, targetSize, ops, t) && Reaches(cast, schema, targetSize, ops + more, later)
    requires HasRow(t, p)
    ensures LogOk(schema, LogRun(cast, schema, targetSize, ops + more))
    ensures HasRow(later, p)
    ensures RowAt(later, p) == RowAt(t, p) <==>
              !MisreadSince(schema, LogRun(cast, schema, targetSize, ops),
                            LogRun(cast, schema, targetSize, ops + more), p)
  {
    RunStoresLog<R>(cast, schema, targetSize, ops);
    RunStoresLog<R>(cast, schema, targetSize, ops + more);
    LogOnlyGrows(cast, schema, targetSize, ops, more);
    var log, grown := LogRun(cast, schema, targetSize, ops), LogRun(cast, schema, targetSize, ops + more);
    var i, k := p.chunkId, p.chunkOffset;
    StoredChunkOfLog<R>(schema, log[i]);
    StoredRowReads<R>(schema, targetSize, log, i, k);
    StoredRowReads<R>(schema, targetSize, grown, i, k);
    if log[i].compressed {
      SameChunkSameRow<R>(schema, targetSize, log, grown, i, k);
    }
  }

  // ----- Scan results -----

  /** Some row of the result is a row of `base` that has been compressed since and is misread. */
  ghost predicate ShowsMisread<R>(
      schema: Schema, before: seq<LogChunk>, after: seq<LogChunk>, base: R, out: TableData<R>)
    requires schema.Valid() && LogOk(schema, after)
  {
    exists i :: 0 <= i < |out.chunks| && ChunkShowsMisread(schema, before, after, base, out.chunks[i])
  }

  ghost predicate ChunkShowsMisread<R>(
      schema: Schema, before: seq<LogChunk>, after: seq<LogChunk>, base: R, chunk: ChunkData<R>)
    requires schema.Valid() && LogOk(schema, after)
  {
    && chunk != [] && chunk[0].Reference? && chunk[0].target == base
    && exists k :: 0 <= k < |chunk[0].positions| && MisreadSince(schema, before, after, chunk[0].positions[k])
  }

  /** Later operations on the base leave every row in place, and change what a position reads
      exactly at the rows misread since. */
  ghost predicate BaseMoves<R>(
      schema: Schema, before: seq<LogChunk>, after: seq<LogChunk>, t: TableData<R>, later: TableData<R>)
    requires schema.Valid()
  {
    && t.schema == later.schema == schema && LogOk(schema, after)
    && forall p :: HasRow(t, p) ==>
         HasRow(later, p) && (RowAt(later, p) == RowAt(t, p) <==> !MisreadSince(schema, before, after, p))
  }

  lemma OperationsMoveBase<R>(
      cast: Cast, schema: Schema, targetSize: nat, ops: seq<Operation>, more: seq<Operation>,
      t: TableData<R>, later: TableData<R>)
    requires schema.Valid() && schema.types != []
    requires Reaches(cast, schema, targetSize, ops, t) && Reaches(cast, schema, targetSize, ops + more, later)
    ensures BaseMoves(schema, LogRun(cast, schema, targetSize, ops), LogRun(cast, schema, targetSize, ops + more),
                      t, later)
  {
    RunStoresLog<R>(cast, schema, targetSize, ops);
    RunStoresLog<R>(cast, schema, targetSize, ops + more);
    forall p | HasRow(t, p)
      ensures HasRow(later, p)
      ensures RowAt(later, p) == RowAt(t, p) <==>
                !MisreadSince(schema, LogRun(cast, schema, targetSize, ops),
                              LogRun(cast, schema, targetSize, ops + more), p)
    {
      RowStaysUnlessMisread(cast, schema, targetSize, ops, more, t, later, p);
    }
  }

  lemma MovedChunkReads<R>(
      schema: Schema, before: seq<LogChunk>, after: seq<LogChunk>,
      store: Store<R>, base: R, moved: TableData<R>, self: R, out: TableData<R>, i: nat)
    requires schema.Valid() && base in store && BaseMoves(schema, before, after, store[base], moved)
    requires Scannable(store, out) && OnlyReferences(out) && i < |out.chunks|
    requires Scannable(store[base := moved], out)
    ensures |ChunkEntries(store[base := moved], self, out, i)| == |ChunkEntries(store, self, out, i)|
    ensures RowsOf(ChunkEntries(store[base := moved], self, out, i)) == RowsOf(ChunkEntries(store, self, out, i)) <==>
              !ChunkShowsMisread(schema, before, after, base, out.chunks[i])
  {
    var chunk := out.chunks[i];
    var a, b := RowsOf(ChunkEntries(store[base := moved], self, out, i)), RowsOf(ChunkEntries(store, self, out, i));
    if chunk[0].Reference? && chunk[0].target == base {
      forall k | 0 <= k < |chunk[0].positions|
        ensures a[k] == b[k] <==> !MisreadSince(schema, before, after, chunk[0].positions[k])
      {
        assert HasRow(store[base], chunk[0].positions[k]);
      }
    }
  }

  /** A scan result taken at any moment can still be read after any later operations on its base,
      and reads the same rows exactly when none of them has been compressed since and is misread. */
  lemma ResultReadsSameIff<R>(
      cast: Cast, schema: Schema, targetSize: nat, ops: seq<Operation>, more: seq<Operation>,
      store: Store<R>, base: R, after: TableData<R>, out: TableData<R>, self: R)
    requires schema.Valid() && schema.types != []
    requires base in store && Reaches(cast, schema, targetSize, ops, store[base])
    requires Reaches(cast, schema, targetSize, ops + more, after)
    requires Scannable(store, out) && OnlyReferences(out)
    ensures Scannable(store[base := after], out)
    ensures LogOk(schema, LogRun(cast, schema, targetSize, ops + more))
    ensures Rows(store[base := after], self, out) == Rows(store, self, out) <==>
              !ShowsMisread(schema, LogRun(cast, schema, targetSize, ops),
                            LogRun(cast, schema, targetSize, ops + more), base, out)
  {
    OperationsMoveBase(cast, schema, targetSize, ops, more, store[base], after);
    var log, grown := LogRun(cast, schema, targetSize, ops), LogRun(cast, schema, targetSize, ops + more);
    var later := store[base := after];
    MovedResultIsScannable(schema, log, grown, store, base, after, out);
    forall i | 0 <= i < |out.chunks|
      ensures |EntryLists(later, self, out)[i]| == |ShownRows(store, self, out)[i]|
      ensures RowsOf(EntryLists(later, self, out)[i]) == ShownRows(store, self, out)[i] <==>
                !ChunkShowsMisread(schema, log, grown, base, out.chunks[i])
    {
      MovedChunkReads(schema, log, grown, store, base, after, self, out, i);
    }
    ConcatRows(EntryLists(later, self, out), ShownRows(store, self, out));
  }

  lemma MovedResultIsScannable<R>(
      schema: Schema, before: seq<LogChunk>, after: seq<LogChunk>,
      store: Store<R>, base: R, moved: TableData<R>, out: TableData<R>)
    requires schema.Valid() && base in store && BaseMoves(schema, before, after, store[base], moved)
    requires Scannable(store, out)
    ensures Scannable(store[base := moved], out)
  {
    forall i | 0 <= i < |out.chunks| && !StoredChunk(out.schema.types, out.chunks[i])
      ensures ReferenceChunk(store[base := moved], out.schema.types, out.chunks[i])
    {
    }
  }

  /** A result that shows no row misread since reads and scans as before. */
  lemma ScanResultsStayStable<R>(
      cast: Cast, schema: Schema, targetSize: nat, ops: seq<Operation>, more: seq<Operation>,
      store: Store<R>, base: R, after: TableData<R>, out: TableData<R>, q: Query, self: R)
    requires schema.Valid() && schema.types != []
    requires base in store && Reaches(cast, schema, targetSize, ops, store[base])
    requires Reaches(cast, schema, targetSize, ops + more, after)
    requires Scannable(store, out) && OnlyReferences(out) && q.column < |out.schema.types|
    requires LogOk(schema, LogRun(cast, schema, targetSize, ops + more))
    requires !ShowsMisread(schema, LogRun(cast, schema, targetSize, ops),
                           LogRun(cast, schema, targetSize, ops + more), base, out)
    ensures Scannable(store[base := after], out)
    ensures Rows(store[base := after], self, out) == Rows(store, self, out)
    ensures Scan(cast, store[base := after], self, out, q) == Scan(cast, store, self, out, q)
  {
    var log, grown := LogRun(cast, schema, targetSize, ops), LogRun(cast, schema, targetSize, ops + more);
    OperationsMoveBase(cast, schema, targetSize, ops, more, store[base], after);
    forall i | 0 <= i < |out.chunks| && out.chunks[i][0].Reference? && out.chunks[i][0].target == base
      ensures forall k :: 0 <= k < |out.chunks[i][0].positions| ==>
                !MisreadSince(schema, log, grown, out.chunks[i][0].positions[k])
    {
      assert !ChunkShowsMisread(schema, log, grown, base, out.chunks[i]);
    }
    StableReads(cast, store, store[base := after], self, out, q);
  }

  /** The chunks compressed between two logs were safe when they were. */
  ghost predicate CompressedSafely(schema: Schema, before: seq<LogChunk>, after: seq<LogChunk>)
    requires schema.Valid()
  {
    && LogOk(schema, after)
    && forall i :: 0 <= i < |before| && i < |after| && !before[i].compressed ==> SafeChunk(schema, after[i])
  }

  /** Safe compressions misread no row of any result. */
  lemma SafeCompressionsMisreadNothing<R>(
      schema: Schema, before: seq<LogChunk>, after: seq<LogChunk>, base: R, out: TableData<R>)
    requires schema.Valid() && CompressedSafely(schema, before, after)
    ensures !ShowsMisread(schema, before, after, base, out)
  {
    forall p
      ensures !MisreadSince(schema, before, after, p)
    {
      if p.chunkId < |before| && p.chunkId < |after| && after[p.chunkId].compressed && !before[p.chunkId].compressed {
        SafeMeansNoMisread(schema, after[p.chunkId]);
      }
    }
  }
}
