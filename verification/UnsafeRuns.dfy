/** A compression that is not safe always makes some scan lose rows. */
module UnsafeRuns {
  import opened Types
  import opened Encoding
  import opened TableModel
  import opened ScanModel
  import opened ScanTheorems
  import opened Runs
  import opened RunTheorems

  ghost predicate MisreadAt(schema: Schema, log: seq<LogChunk>, c: nat, i: nat, k: nat)
    requires schema.Valid() && LogOk(schema, log) && c < |schema.types| && i < |log|
  {
    log[i].compressed && k < |log[i].rows| && Misread(schema.types[c], ColumnCells(log[i].rows, c), k)
  }

  /** No misread cell of the column has a smaller appended value. */
  ghost predicate NoneSmaller(schema: Schema, log: seq<LogChunk>, c: nat, v: Value)
    requires schema.Valid() && LogOk(schema, log) && c < |schema.types|
  {
    forall i, k :: 0 <= i < |log| && 0 <= k && MisreadAt(schema, log, c, i, k) ==> !Less(log[i].rows[k][c].value, v)
  }

  /** Among the misread cells of a column, one with the smallest appended value. */
  lemma SmallestMisread(schema: Schema, log: seq<LogChunk>, c: nat) returns (found: bool, i: nat, k: nat)
    requires schema.Valid() && LogOk(schema, log) && c < |schema.types|
    ensures if found then
              i < |log| && MisreadAt(schema, log, c, i, k) && NoneSmaller(schema, log, c, log[i].rows[k][c].value)
            else forall i', k' :: 0 <= i' < |log| && 0 <= k' ==> !MisreadAt(schema, log, c, i', k')
  {
    found, i, k := false, 0, 0;
    LessIsTotalOrder();
    for n := 0 to |log|
      invariant found ==> i < n && MisreadAt(schema, log, c, i, k)
      invariant forall i', k' :: 0 <= i' < n && 0 <= k' && MisreadAt(schema, log, c, i', k') ==>
                  found && !Less(log[i'].rows[k'][c].value, log[i].rows[k][c].value)
    {
      if m :| 0 <= m && MisreadAt(schema, log, c, n, m) {
        forall k' | 0 <= k' && MisreadAt(schema, log, c, n, k')
          ensures log[n].rows[k'][c] == log[n].rows[m][c]
        {
          var cells := ColumnCells(log[n].rows, c);
          assert cells[k'] == log[n].rows[k'][c] && cells[m] == log[n].rows[m][c];
        }
        if !found || Less(log[n].rows[m][c].value, log[i].rows[k][c].value) {
          found, i, k := true, n, m;
        }
      }
    }
  }

  /** What a stored cell reads: the appended one, or for a misread one NULL or a greater value. */
  lemma StoredCellShows<R>(schema: Schema, targetSize: nat, log: seq<LogChunk>, i: nat, k: nat, c: nat)
    requires schema.Valid() && schema.types != [] && LogOk(schema, log)
    requires i < |log| && k < |log[i].rows| && c < |schema.types|
    ensures HasRow<R>(StoreLog(schema, targetSize, log), RowID(i, k))
    ensures var shown, appended := RowAt<R>(StoreLog(schema, targetSize, log), RowID(i, k))[c], log[i].rows[k][c];
            if MisreadAt(schema, log, c, i, k)
            then appended.NonNull? && (shown.Null? || Less(appended.value, shown.value))
            else shown == appended
  {
    StoredChunkOfLog<R>(schema, log[i]);
    StoredCellReads(schema, log[i], k, c);
    if MisreadAt(schema, log, c, i, k) {
      var vs := ColumnSegment(schema, log[i].rows, c);
      ColumnSegmentReads(schema, log[i].rows, c);
      assert vs.Cells()[k] == log[i].rows[k][c];
      MisreadDecodesToNext(vs, k);
    }
  }

  lemma {:induction false} FilterRowsConcat(a: seq<Row>, b: seq<Row>, test: Test)
    ensures FilterRows(a + b, test) == FilterRows(a, test) + FilterRows(b, test)
  {
    if b == [] {
      assert a + b == a;
    } else {
      var n := |b| - 1;
      FilterRowsConcat(a, b[..n], test);
      assert (a + b)[..|a| + n] == a + b[..n];
    }
  }

  /** If the shown rows pass a test only where the appended ones do, fewer pass, and strictly fewer if one is lost. */
  lemma {:induction false} FilterShrinks(shown: seq<Row>, appended: seq<Row>, test: Test)
    requires |shown| == |appended|
    requires forall k :: 0 <= k < |shown| ==> test.Accepts(shown[k]) ==> test.Accepts(appended[k])
    ensures |FilterRows(shown, test)| <= |FilterRows(appended, test)|
    ensures (exists k :: 0 <= k < |shown| && test.Accepts(appended[k]) && !test.Accepts(shown[k])) ==>
              |FilterRows(shown, test)| < |FilterRows(appended, test)|
  {
    if shown != [] {
      var n := |shown| - 1;
      FilterShrinks(shown[..n], appended[..n], test);
      if k :| 0 <= k < |shown| && test.Accepts(appended[k]) && !test.Accepts(shown[k]) {
        if k < n {
          assert test.Accepts(appended[..n][k]) && !test.Accepts(shown[..n][k]);
        }
      }
    }
  }

  lemma {:induction false} FilterOfConcatShrinks(shown: seq<seq<Row>>, appended: seq<seq<Row>>, test: Test, lost: int)
    requires |shown| == |appended|
    requires forall i :: 0 <= i < |shown| ==> |FilterRows(shown[i], test)| <= |FilterRows(appended[i], test)|
    requires 0 <= lost < |shown| ==> |FilterRows(shown[lost], test)| < |FilterRows(appended[lost], test)|
    ensures |FilterRows(Concat(shown), test)| <= |FilterRows(Concat(appended), test)|
    ensures 0 <= lost < |shown| ==> |FilterRows(Concat(shown), test)| < |FilterRows(Concat(appended), test)|
  {
    if shown != [] {
      var n := |shown| - 1;
      FilterOfConcatShrinks(shown[..n], appended[..n], test, lost);
      FilterRowsConcat(Concat(shown[..n]), shown[n], test);
      FilterRowsConcat(Concat(appended[..n]), appended[n], test);
    }
  }

  lemma ShownRowsOfStoredChunk<R>(store: Store<R>, self: R, schema: Schema, targetSize: nat, log: seq<LogChunk>,
                                  j: nat, m: nat)
    requires schema.Valid() && schema.types != [] && LogOk(schema, log) && j < |log| && m < |log[j].rows|
    requires Scannable(store, StoreLog<R>(schema, targetSize, log))
    ensures HasRow<R>(StoreLog(schema, targetSize, log), RowID(j, m))
    ensures var shown := ShownRows(store, self, StoreLog(schema, targetSize, log))[j];
            |shown| == |log[j].rows| && shown[m] == RowAt<R>(StoreLog(schema, targetSize, log), RowID(j, m))
  {
    StoredChunkOfLog<R>(schema, log[j]);
  }

  /** A stored cell that shows the smallest misread value was appended with it, and is not misread. */
  lemma ShowsSmallestOnlyIfKept<R>(schema: Schema, targetSize: nat, log: seq<LogChunk>, c: nat, v: Value,
                                   j: nat, m: nat)
    requires schema.Valid() && schema.types != [] && LogOk(schema, log) && c < |schema.types|
    requires NoneSmaller(schema, log, c, v) && j < |log| && m < |log[j].rows|
    ensures HasRow<R>(StoreLog(schema, targetSize, log), RowID(j, m))
    ensures RowAt<R>(StoreLog(schema, targetSize, log), RowID(j, m))[c] == NonNull(v) ==>
              log[j].rows[m][c] == NonNull(v) && !MisreadAt(schema, log, c, j, m)
  {
    StoredCellShows<R>(schema, targetSize, log, j, m, c);
    if MisreadAt(schema, log, c, j, m) {
      assert !Less(log[j].rows[m][c].value, v);
    }
  }

  /** Searching for the smallest misread value of a column finds too few rows in its chunk, and in none too many. */
  lemma ChunkLosesMisread<R>(store: Store<R>, self: R, schema: Schema, targetSize: nat, log: seq<LogChunk>,
                             c: nat, i: nat, k: nat, j: nat)
    requires schema.Valid() && schema.types != [] && LogOk(schema, log) && c < |schema.types|
    requires Scannable(store, StoreLog<R>(schema, targetSize, log))
    requires i < |log| && j < |log| && MisreadAt(schema, log, c, i, k)
    requires NoneSmaller(schema, log, c, log[i].rows[k][c].value)
    ensures var test := Comparison(c, OpEquals, log[i].rows[k][c].value);
            var shown := ShownRows(store, self, StoreLog(schema, targetSize, log))[j];
            && |FilterRows(shown, test)| <= |FilterRows(log[j].rows, test)|
            && (j == i ==> |FilterRows(shown, test)| < |FilterRows(log[j].rows, test)|)
  {
    var v := log[i].rows[k][c].value;
    var test := Comparison(c, OpEquals, v);
    var t := StoreLog<R>(schema, targetSize, log);
    var shown := ShownRows(store, self, t)[j];
    StoredChunkOfLog<R>(schema, log[j]);
    forall m | 0 <= m < |log[j].rows|
      ensures test.Accepts(shown[m]) ==> test.Accepts(log[j].rows[m]) && !MisreadAt(schema, log, c, j, m)
    {
      ShowsSmallestOnlyIfKept<R>(schema, targetSize, log, c, v, j, m);
      ShownRowsOfStoredChunk(store, self, schema, targetSize, log, j, m);
    }
    FilterShrinks(shown, log[j].rows, test);
    if j == i {
      assert log[i].rows[k][c] == ColumnCells(log[i].rows, c)[k];
      assert test.Accepts(log[i].rows[k]) && !test.Accepts(shown[k]);
    }
  }

  /** Some cell of an unsafe log is misread. */
  lemma UnsafeLogMisreads(schema: Schema, log: seq<LogChunk>) returns (c: nat, i: nat, k: nat)
    requires schema.Valid() && LogOk(schema, log) && !SafeLog(schema, log)
    ensures c < |schema.types| && i < |log| && MisreadAt(schema, log, c, i, k)
    ensures NoneSmaller(schema, log, c, log[i].rows[k][c].value)
  {
    var u :| 0 <= u < |log| && !SafeChunk(schema, log[u]);
    c :| 0 <= c < |schema.types| && !PlaceholderSafe(schema.types[c], ColumnCells(log[u].rows, c));
    var m := MisreadWhenUnsafe(schema.types[c], ColumnCells(log[u].rows, c));
    assert MisreadAt(schema, log, c, u, m);
    var found;
    found, i, k := SmallestMisread(schema, log, c);
  }

  /** The table of an unsafe log finds too few rows when searched for some misread value. */
  lemma UnsafeLogLosesMatches<R>(store: Store<R>, self: R, schema: Schema, targetSize: nat, log: seq<LogChunk>)
    returns (c: nat, i: nat, k: nat)
    requires schema.Valid() && schema.types != [] && LogOk(schema, log) && !SafeLog(schema, log)
    requires Scannable(store, StoreLog<R>(schema, targetSize, log))
    ensures c < |schema.types| && i < |log| && MisreadAt(schema, log, c, i, k)
    ensures log[i].rows[k][c].NonNull?
    ensures var test := Comparison(c, OpEquals, log[i].rows[k][c].value);
            |FilterRows(Rows(store, self, StoreLog(schema, targetSize, log)), test)|
            < |FilterRows(Concat(LogRows(log)), test)|
  {
    c, i, k := UnsafeLogMisreads(schema, log);
    assert log[i].rows[k][c] == ColumnCells(log[i].rows, c)[k];
    var test := Comparison(c, OpEquals, log[i].rows[k][c].value);
    var shown := ShownRows(store, self, StoreLog(schema, targetSize, log));
    forall j | 0 <= j < |log|
      ensures |FilterRows(shown[j], test)| <= |FilterRows(LogRows(log)[j], test)|
      ensures j == i ==> |FilterRows(shown[j], test)| < |FilterRows(LogRows(log)[j], test)|
    {
      ChunkLosesMisread(store, self, schema, targetSize, log, c, i, k, j);
    }
    FilterOfConcatShrinks(shown, LogRows(log), test, i);
  }

  // ----- Scans of unsafe runs -----

  /** The scan succeeds and shows what the query asks for of the given rows. */
  ghost predicate AnswersFrom<R>(cast: Cast, store: Store<R>, self: R, t: TableData<R>, q: Query, other: R,
                                 rows: seq<Row>)
    requires Scannable(store, t) && Castable(cast, t.schema.types, q)
  {
    var out := Scan(cast, store, self, t, q);
    && out.Some?
    && Scannable(store, out.value)
    && Rows(store, other, out.value) == Answer(cast, t.schema.types, q, rows)
  }

  /** After an unsafe compression some scan, for a value that was appended, shows too few rows. */
  lemma UnsafeRunLosesMatches<R>(cast: Cast, schema: Schema, targetSize: nat, ops: seq<Operation>, t: TableData<R>,
                                 store: Store<R>, self: R, other: R)
    returns (q: Query)
    requires schema.Valid() && schema.types != [] && Reaches(cast, schema, targetSize, ops, t)
    requires KnownAs(store, t, self) && !SafeLog(schema, LogRun(cast, schema, targetSize, ops))
    ensures Scannable(store, t) && t.schema == schema && Castable(cast, schema.types, q)
    ensures Scan(cast, store, self, t, q).Some? && Scannable(store, Scan(cast, store, self, t, q).value)
    ensures |Rows(store, other, Scan(cast, store, self, t, q).value)|
            < |Answer(cast, schema.types, q, AppendedRows(cast, schema, ops))|
  {
    RunStoresLog<R>(cast, schema, targetSize, ops);
    var log := LogRun(cast, schema, targetSize, ops);
    StoredLogIsScannable(store, schema, targetSize, log);
    var c, i, k := UnsafeLogLosesMatches(store, self, schema, targetSize, log);
    LogIsSearchable(cast, schema, targetSize, ops);
    LogHoldsAppendedRows(cast, schema, targetSize, ops);
    var cell := log[i].rows[k][c];
    assert SearchableRow(cast, schema, log[i].rows[k]) && Searchable(cast, schema.types[c], cell);
    var x :| cast(schema.types[c], x) == Some(cell.value);
    q := Query(c, OpEquals, NonNull(x));
    ScanIsFilter(cast, store, self, t, q, other);
  }

  /** Every scan of a run's table answers from the appended rows if and only if every chunk it
      compressed was safe. */
  lemma ScansAnswerRightIffSafe<R>(cast: Cast, schema: Schema, targetSize: nat, ops: seq<Operation>, t: TableData<R>,
                                   store: Store<R>, self: R, other: R)
    requires schema.Valid() && schema.types != [] && Reaches(cast, schema, targetSize, ops, t)
    requires KnownAs(store, t, self)
    ensures Scannable(store, t) && t.schema == schema
    ensures SafeLog(schema, LogRun(cast, schema, targetSize, ops)) <==>
              forall q :: Castable(cast, schema.types, q) ==>
                AnswersFrom(cast, store, self, t, q, other, AppendedRows(cast, schema, ops))
  {
    RunStoresLog<R>(cast, schema, targetSize, ops);
    RunShowsAppendedRowsIffSafe(cast, schema, targetSize, ops, t, store, self);
    if SafeLog(schema, LogRun(cast, schema, targetSize, ops)) {
      forall q | Castable(cast, schema.types, q)
        ensures AnswersFrom(cast, store, self, t, q, other, AppendedRows(cast, schema, ops))
      {
        ScanIsFilter(cast, store, self, t, q, other);
      }
    } else {
      var q := UnsafeRunLosesMatches(cast, schema, targetSize, ops, t, store, self, other);
      assert !AnswersFrom(cast, store, self, t, q, other, AppendedRows(cast, schema, ops));
    }
  }
}
