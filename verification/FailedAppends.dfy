/** What an append that throws leaves behind. */
module FailedAppends {
  import opened Types
  import opened TableModel
  import opened ScanModel
  import opened Runs
  import opened RunTheorems

  /** A chunk that takes appends: one value segment per column, of its type and nullability. */
  ghost predicate OpenChunk<R>(schema: Schema, chunk: ChunkData<R>)
    requires schema.Valid()
  {
    && |chunk| == |schema.types|
    && forall c :: 0 <= c < |chunk| ==>
         && chunk[c].IsValues() && chunk[c].seg.ty == schema.types[c]
         && chunk[c].seg.nulls.Some? == schema.nullable[c]
  }

  ghost predicate PrefixAcceptable(cast: Cast, schema: Schema, row: Row, k: nat)
    requires schema.Valid() && k <= |row| == |schema.types|
  {
    forall c :: 0 <= c < k ==> AcceptableCell(cast, schema, row, c)
  }

  lemma AppendCellChecks<R>(cast: Cast, schema: Schema, chunk: ChunkData<R>, row: Row, c: nat)
    requires schema.Valid() && OpenChunk(schema, chunk) && c < |row| == |chunk|
    ensures var a := AppendCell(cast, chunk[c], row[c]);
            && (a.completed <==> AcceptableCell(cast, schema, row, c))
            && (if a.completed then a.after.Stored? && a.after.Size() == chunk[c].Size() + 1 else a.after == chunk[c])
  {
  }

  /** A column has one more entry if the row is fine up to it, and is untouched otherwise. */
  ghost predicate GrewIfFine<R>(cast: Cast, schema: Schema, chunk: ChunkData<R>, row: Row, c: nat,
                                after: SegmentData<R>)
    requires schema.Valid() && c < |row| == |chunk| == |schema.types|
  {
    if PrefixAcceptable(cast, schema, row, c + 1) then after.Stored? && after.Size() == chunk[c].Size() + 1
    else after == chunk[c]
  }

  lemma {:induction false} AppendColumnsStopAtBadCell<R>(
      cast: Cast, schema: Schema, chunk: ChunkData<R>, row: Row, k: nat)
    requires schema.Valid() && OpenChunk(schema, chunk) && k <= |row| == |chunk|
    ensures var r := AppendColumns(cast, chunk, row, k);
            && (r.completed <==> PrefixAcceptable(cast, schema, row, k))
            && forall c :: 0 <= c < k ==> GrewIfFine(cast, schema, chunk, row, c, r.after[c])
  {
    if k > 0 {
      AppendColumnsStopAtBadCell(cast, schema, chunk, row, k - 1);
      AppendCellChecks(cast, schema, chunk, row, k - 1);
      assert PrefixAcceptable(cast, schema, row, k) <==>
             PrefixAcceptable(cast, schema, row, k - 1) && AcceptableCell(cast, schema, row, k - 1);
      var before, r := AppendColumns(cast, chunk, row, k - 1), AppendColumns(cast, chunk, row, k);
      forall c | 0 <= c < k
        ensures GrewIfFine(cast, schema, chunk, row, c, r.after[c])
      {
        if c < k - 1 {
          assert r.after[c] == before.after[c];
        }
      }
    }
  }

  /** The table whose last chunk `append` writes to. */
  ghost function OpenTable<R>(t: TableData<R>): TableData<R>
    requires WellFormed(t) && t.schema.types != []
  {
    if NeedsNewChunk(t) then CreateNewChunk(t) else t
  }

  /** Looking only at the first column of the last chunk suffices to find an open chunk. */
  lemma AppendWritesToOpenChunk<R>(t: TableData<R>)
    requires WellFormed(t) && t.schema.types != []
    ensures WellFormed(OpenTable(t))
    ensures OpenChunk(t.schema, OpenTable(t).chunks[|OpenTable(t).chunks| - 1])
  {
    var last := |t.chunks| - 1;
    assert StoredChunk(t.schema.types, t.chunks[last]) && UniformChunk(t.schema, t.chunks[last]);
    var added: ChunkData<R> := EmptyChunk(t.schema);
    assert StoredChunk(t.schema.types, added) && UniformChunk(t.schema, added);
  }

  /** After an append to the open chunk, in terms of what each column did. */
  lemma OpenChunkAfterAppend<R>(cast: Cast, t: TableData<R>, row: Row)
    requires WellFormed(t) && CanAppendTo(t, row)
    ensures WellFormed(OpenTable(t)) && |row| == |OpenTable(t).chunks[|OpenTable(t).chunks| - 1]|
    ensures var last := |OpenTable(t).chunks| - 1;
            var chunk, r := OpenTable(t).chunks[last], AppendRow(cast, t, row);
            && r.after == OpenTable(t).(chunks := OpenTable(t).chunks[last := r.after.chunks[last]])
            && |r.after.chunks[last]| == |row|
            && (r.completed <==> Acceptable(cast, t.schema, row))
            && forall c :: 0 <= c < |row| ==> GrewIfFine(cast, t.schema, chunk, row, c, r.after.chunks[last][c])
  {
    AppendWritesToOpenChunk(t);
    AppendColumnsStopAtBadCell(cast, t.schema, OpenTable(t).chunks[|OpenTable(t).chunks| - 1], row, |row|);
  }

  lemma TornChunkIsNotStored<R>(cast: Cast, schema: Schema, chunk: ChunkData<R>, row: Row, after: ChunkData<R>,
                                bad: nat)
    requires schema.Valid() && StoredChunk(schema.types, chunk) && bad < |row| == |chunk| == |after|
    requires !AcceptableCell(cast, schema, row, bad) && AcceptableCell(cast, schema, row, 0)
    requires GrewIfFine(cast, schema, chunk, row, 0, after[0]) && GrewIfFine(cast, schema, chunk, row, bad, after[bad])
    ensures !StoredChunk(schema.types, after)
  {
  }

  lemma FirstBadCellChangesNothing<R>(cast: Cast, schema: Schema, chunk: ChunkData<R>, row: Row, after: ChunkData<R>)
    requires schema.Valid() && |row| == |chunk| == |after| == |schema.types| > 0
    requires !AcceptableCell(cast, schema, row, 0)
    requires forall c :: 0 <= c < |row| ==> GrewIfFine(cast, schema, chunk, row, c, after[c])
    ensures after == chunk
  {
  }

  lemma LaterBadCellTears<R>(cast: Cast, t: TableData<R>, row: Row)
    requires WellFormed(t) && CanAppendTo(t, row)
    requires !Acceptable(cast, t.schema, row) && AcceptableCell(cast, t.schema, row, 0)
    ensures !WellFormed(AppendRow(cast, t, row).after)
  {
    OpenChunkAfterAppend(cast, t, row);
    var last := |OpenTable(t).chunks| - 1;
    var bad :| 0 <= bad < |row| && !AcceptableCell(cast, t.schema, row, bad);
    TornChunkIsNotStored(cast, t.schema, OpenTable(t).chunks[last], row,
                         AppendRow(cast, t, row).after.chunks[last], bad);
  }

  lemma FirstBadCellIsHarmless<R>(cast: Cast, t: TableData<R>, row: Row)
    requires WellFormed(t) && CanAppendTo(t, row) && !AcceptableCell(cast, t.schema, row, 0)
    ensures AppendRow(cast, t, row).after == OpenTable(t) && WellFormed(OpenTable(t))
  {
    OpenChunkAfterAppend(cast, t, row);
    var last := |OpenTable(t).chunks| - 1;
    FirstBadCellChangesNothing(cast, t.schema, OpenTable(t).chunks[last], row,
                               AppendRow(cast, t, row).after.chunks[last]);
    assert AppendRow(cast, t, row).after.chunks == OpenTable(t).chunks;
  }

  lemma AppendCompletesOrTears<R>(cast: Cast, t: TableData<R>, row: Row)
    requires WellFormed(t) && CanAppendTo(t, row)
    ensures AppendRow(cast, t, row).completed <==> Acceptable(cast, t.schema, row)
    ensures !Acceptable(cast, t.schema, row) ==>
              (WellFormed(AppendRow(cast, t, row).after) <==> !AcceptableCell(cast, t.schema, row, 0))
  {
    OpenChunkAfterAppend(cast, t, row);
    if !Acceptable(cast, t.schema, row) {
      if AcceptableCell(cast, t.schema, row, 0) {
        LaterBadCellTears(cast, t, row);
      } else {
        FirstBadCellIsHarmless(cast, t, row);
      }
    }
  }

  /** Append completes exactly when each column takes its cell: a NULL where one is allowed, or a value
      that can be cast. When it throws, the columns before the bad cell have already grown: the table
      is still well formed only if the very first cell is bad. */
  lemma FailedAppendTearsRow<R>(cast: Cast, t: TableData<R>, row: Row)
    requires WellFormed(t) && CanAppendTo(t, row)
    ensures AppendRow(cast, t, row).completed <==>
              forall c :: 0 <= c < |row| ==>
                if row[c].Null? then t.schema.nullable[c] else cast(t.schema.types[c], row[c].value).Some?
    ensures !AppendRow(cast, t, row).completed ==>
              (WellFormed(AppendRow(cast, t, row).after) <==>
                if row[0].Null? then !t.schema.nullable[0] else cast(t.schema.types[0], row[0].value).None?)
  {
    AppendCompletesOrTears(cast, t, row);
    CellsFitIff(cast, t.schema, row);
    assert AcceptableCell(cast, t.schema, row, 0) <==>
           if row[0].Null? then t.schema.nullable[0] else cast(t.schema.types[0], row[0].value).Some?;
  }

  /** A NULL in the second column, where none is allowed, tears the row of a new two-column table. */
  lemma NullInSecondColumnTears<R>(cast: Cast, v: Value)
    requires cast(IntType, v).Some?
    ensures var schema := Schema(["a", "b"], [IntType, StringType], [false, false]);
            var t: TableData<R> := Initial(schema, 2);
            && WellFormed(t) && CanAppendTo(t, [NonNull(v), Null])
            && !AppendRow(cast, t, [NonNull(v), Null]).completed
            && !WellFormed(AppendRow(cast, t, [NonNull(v), Null]).after)
  {
    var schema := Schema(["a", "b"], [IntType, StringType], [false, false]);
    RunKeepsWellFormed<R>(cast, schema, 2, [], Initial(schema, 2));
    var row: Row := [NonNull(v), Null];
    FailedAppendTearsRow<R>(cast, Initial(schema, 2), row);
    assert !AcceptableCell(cast, schema, row, 1) && AcceptableCell(cast, schema, row, 0);
  }

  // ----- Appends to tables of references -----

  /** A chunk as the constructor for position lists makes it. */
  ghost predicate OnlyReferenceColumns<R>(chunk: ChunkData<R>) {
    forall c :: 0 <= c < |chunk| ==> chunk[c].Reference?
  }

  lemma {:induction false} ReferencesTakeNoCells<R>(cast: Cast, chunk: ChunkData<R>, row: Row, k: nat)
    requires k <= |chunk| == |row| && OnlyReferenceColumns(chunk)
    ensures AppendColumns(cast, chunk, row, k) == Attempt(chunk, true)
  {
    if k > 0 {
      ReferencesTakeNoCells(cast, chunk, row, k - 1);
      assert chunk[k - 1 := chunk[k - 1]] == chunk;
    }
  }

  /** Appending to a table whose last chunk holds references completes but drops the row, unless
      that chunk has exactly the target size. */
  lemma AppendToReferencesDropsRow<R>(cast: Cast, t: TableData<R>, row: Row)
    requires CanAppendTo(t, row) && OnlyReferenceColumns(t.chunks[|t.chunks| - 1])
    ensures AppendRow(cast, t, row) == Attempt(t, true) <==> ChunkSize(t.chunks[|t.chunks| - 1]) != t.targetSize
  {
    var last := |t.chunks| - 1;
    if ChunkSize(t.chunks[last]) != t.targetSize {
      ReferencesTakeNoCells(cast, t.chunks[last], row, |row|);
      assert t.chunks[last := t.chunks[last]] == t.chunks;
    } else {
      assert |AppendRow(cast, t, row).after.chunks| == |t.chunks| + 1;
    }
  }

  /** The constructor for position lists makes such a table: of the columns of any table, with a row
      of it in its only chunk, and unless the target size is one an append to it is lost. */
  lemma BuiltFromReferencesDropsRow<R>(cast: Cast, t: TableData<R>, target: R, p: RowID, row: Row)
    requires t.schema.Valid() && t.schema.types != [] && |row| == |t.schema.types|
    ensures var built := FromReferences(t, [Found(target, [p])]);
            && CanAppendTo(built, row)
            && (AppendRow(cast, built, row) == Attempt(built, true) <==> t.targetSize != 1)
  {
    AppendToReferencesDropsRow(cast, FromReferences(t, [Found(target, [p])]), row);
  }
}
