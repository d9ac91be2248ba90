/**
 The engine as its callers use it: a table is created, filled, compressed and scanned
 through its methods, and the objects do what the theorems say of their contents.
 */
module Engine {
  import opened Types
  import opened TableModel
  import opened ScanModel
  import opened ScanTheorems
  import opened ScanChains
  import opened Runs
  import opened RunTheorems
  import opened Stability
  import opened Sessions
  import opened Storage
  import opened TableScans

  lemma NextColumn<R>(schema: Schema, targetSize: nat, c: nat)
    requires schema.Valid() && c < |schema.names| && AddColumns<R>(schema, targetSize, c).Some?
    ensures ChunkSize(AddColumns<R>(schema, targetSize, c).value.chunks[0]) == 0
    ensures AddColumns<R>(schema, targetSize, c + 1).None? ==> !Distinct(schema.names)
  {
    AddColumnsGivesInitial<R>(schema, targetSize, c);
    AddColumnsGivesInitial<R>(schema, targetSize, c + 1);
    assert forall i :: 0 <= i <= c ==> schema.names[..c + 1][i] == schema.names[i];
  }

  /** A new table with the given columns, added one by one; None when a name is taken. */
  method CreateTable(names: seq<string>, types: seq<DataType>, nullable: seq<bool>, targetChunkSize: nat)
    returns (r: Option<Table>)
    requires |names| == |types| == |nullable|
    ensures r.Some? <==> Distinct(names)
    ensures r.Some? ==> fresh(r.value) && fresh(r.value.Repr) && r.value.Valid()
    ensures r.Some? ==> r.value.model == Initial(Schema(names, types, nullable), targetChunkSize)
  {
    ghost var schema := Schema(names, types, nullable);
    var table := new Table(targetChunkSize);
    for c := 0 to |names|
      invariant table.Valid() && fresh(table) && fresh(table.Repr)
      invariant AddColumns(schema, targetChunkSize, c) == Some(table.model)
    {
      NextColumn<Table>(schema, targetChunkSize, c);
      var ok := table.AddColumn(names[c], types[c], nullable[c]);
      if !ok {
        return None;
      }
    }
    AddColumnsGivesInitial<Table>(schema, targetChunkSize, |names|);
    assert names[..|names|] == names && Columns(schema, |names|) == schema;
    return Some(table);
  }

  method ExecuteOne(cast: Cast, table: Table, op: Operation)
    requires table.Valid() && Step(cast, table.model, op).Some?
    modifies table.Repr
    ensures table.Valid() && fresh(table.Repr - old(table.Repr))
    ensures Step(cast, old(table.model), op) == Some(table.model)
  {
    match op
    case Append(row) =>
      var ok := table.Append(cast, row);
    case NewChunk =>
      table.CreateNewChunk();
    case Compress(id) =>
      table.CompressChunk(id);
  }

  /** Runs operations on a table, one after the other. */
  method Execute(cast: Cast, table: Table, ops: seq<Operation>)
    requires table.Valid() && Run(cast, table.model, ops).Some?
    modifies table.Repr
    ensures table.Valid() && fresh(table.Repr - old(table.Repr))
    ensures Run(cast, old(table.model), ops) == Some(table.model)
  {
    for i := 0 to |ops|
      invariant table.Valid() && fresh(table.Repr - old(table.Repr))
      invariant Run(cast, old(table.model), ops[..i]) == Some(table.model)
    {
      RunStepsThrough(cast, old(table.model), ops, i);
      ExecuteOne(cast, table, ops[i]);
    }
    assert ops[..|ops|] == ops;
  }

  // ----- A NULL read by the subscript operator -----

  const NULLABLE_INT := Schema(["a"], [IntType], [true])

  /** The table with one row, a NULL, in a chunk that may have been compressed. */
  ghost function OneNull<R>(compressed: bool): TableData<R> {
    assert LogChunkOk(NULLABLE_INT, LogChunk([[Null]], compressed));
    StoreLog(NULLABLE_INT, 2, [LogChunk([[Null]], compressed)])
  }

  /** It reads as NULL either way. */
  lemma OneNullReads<R>(compressed: bool)
    ensures HasRow(OneNull<R>(compressed), RowID(0, 0)) && RowAt(OneNull<R>(compressed), RowID(0, 0)) == [Null]
    ensures OneNull<R>(compressed).chunks[0][0].seg.DictionaryData? <==> compressed
  {
    var log := [LogChunk([[Null]], compressed)];
    assert LogChunkOk(NULLABLE_INT, log[0]);
    StoredRowReads<R>(NULLABLE_INT, 2, log, 0, 0);
  }

  lemma OneNullIsAppended<R>(cast: Cast)
    ensures Step<R>(cast, Initial(NULLABLE_INT, 2), Append([Null])) == Some(OneNull(false))
  {
    RunStoresLog<R>(cast, NULLABLE_INT, 2, []);
    var log, row: Row := [LogChunk([], false)], [Null];
    assert CastRow(cast, NULLABLE_INT, row) == row && log[0].rows + [row] == [row];
    assert LogStep(cast, NULLABLE_INT, 2, log, Append(row)) == [LogChunk([row], false)];
    StepStores<R>(cast, NULLABLE_INT, 2, log, Append(row));
  }

  lemma OneNullIsCompressed<R>(cast: Cast)
    ensures Step<R>(cast, OneNull(false), Compress(0)) == Some(OneNull(true))
  {
    var log := [LogChunk([[Null]], false)];
    assert LogChunkOk(NULLABLE_INT, log[0]);
    StoredLogIsWellFormed<R>(NULLABLE_INT, 2, log);
    assert OneNull<R>(false).chunks[0][0].IsValues();
    assert LogStep(cast, NULLABLE_INT, 2, log, Compress(0)) == [LogChunk([[Null]], true)];
    StepStores<R>(cast, NULLABLE_INT, 2, log, Compress(0));
  }

  method NewTableWithNull(cast: Cast) returns (table: Table)
    ensures fresh(table) && fresh(table.Repr) && table.Valid() && table.model == OneNull(false)
  {
    var created := CreateTable(["a"], [IntType], [true], 2);
    table := created.value;
    OneNullIsAppended<Table>(cast);
    ExecuteOne(cast, table, Append([Null]));
  }

  /** Before compression the subscript operator reads the NULL; afterwards it reads past the dictionary,
      although the row is still NULL. */
  method SubscriptLosesNull(cast: Cast) returns (table: Table, before: Option<Cell>, after: Option<Cell>)
    ensures before == Some(Null) && after == None
    ensures table.Valid() && HasRow(table.model, RowID(0, 0)) && RowAt(table.model, RowID(0, 0)) == [Null]
  {
    table := NewTableWithNull(cast);
    OneNullReads<Table>(false);
    before := table.Subscript(RowID(0, 0), 0);
    OneNullIsCompressed<Table>(cast);
    ExecuteOne(cast, table, Compress(0));
    OneNullReads<Table>(true);
    after := table.Subscript(RowID(0, 0), 0);
  }

  // ----- Scans -----

  ghost function QueriesOf(scans: seq<TableScan>): seq<Query> {
    seq(|scans|, i requires 0 <= i < |scans| => scans[i].Query())
  }

  /** The table shows the rows that satisfy the queries. */
  ghost predicate Shows<R>(cast: Cast, store: Store<R>, self: R, t: TableData<R>, qs: seq<Query>, rows: seq<Row>) {
    && Scannable(store, t) && KnownAs(store, t, self) && AllCastable(cast, t.schema.types, qs)
    && Rows(store, self, t) == FilterAll(cast, t.schema.types, qs, rows)
  }

  /** One more scan filters by one more query. */
  lemma ScanShowsNext<R>(
      cast: Cast, store: Store<R>, self: R, t: TableData<R>, qs: seq<Query>, rows: seq<Row>,
      q: Query, out: TableData<R>, other: R)
    requires Shows(cast, store, self, t, qs, rows) && Castable(cast, t.schema.types, q)
    requires Scan(cast, store, self, t, q) == Some(out)
    ensures out.schema == t.schema && Shows(cast, store, other, out, qs + [q], rows)
  {
    ScanSelects(cast, store, self, t, q, other);
    ReferencesAreKnown(store, out, other);
    ScanIsFilter(cast, store, self, t, q, other);
    FilterAllPush(cast, t.schema.types, qs, q, rows);
  }

  method ScanNext(cast: Cast, base: Table, input: Table, scan: TableScan, ghost qs: seq<Query>, ghost rows: seq<Row>)
    returns (output: Table)
    requires base.Valid() && input.Valid() && Shows(cast, Contents({base}), input, input.model, qs, rows)
    requires Castable(cast, input.model.schema.types, scan.Query())
    ensures fresh(output) && fresh(output.Repr) && output.Valid() && output.model.schema == input.model.schema
    ensures Shows(cast, Contents({base}), output, output.model, qs + [scan.Query()], rows)
  {
    var r := scan.OnExecute(cast, input, {base});
    output := r.value;
    ScanShowsNext(cast, Contents({base}), input, input.model, qs, rows, scan.Query(), output.model, output);
  }

  lemma NoScanShowsAll<R>(cast: Cast, store: Store<R>, self: R, t: TableData<R>)
    requires Scannable(store, t) && KnownAs(store, t, self)
    ensures Shows(cast, store, self, t, [], Rows(store, self, t))
  {
    FilterAllOfNothing(cast, t.schema.types, Rows(store, self, t));
  }

  /** Scans a table, then the result of that, and so on. */
  method ExecuteScans(cast: Cast, base: Table, scans: seq<TableScan>) returns (result: Table)
    requires base.Valid() && Scannable(Contents({base}), base.model)
    requires AllCastable(cast, base.model.schema.types, QueriesOf(scans))
    ensures result.Valid() && result.model.schema == base.model.schema
    ensures if scans == [] then result == base else fresh(result) && fresh(result.Repr)
    ensures Shows(cast, Contents({base}), result, result.model,
                  QueriesOf(scans), Rows(Contents({base}), base, base.model))
  {
    ghost var rows := Rows(Contents({base}), base, base.model);
    if scans == [] {
      NoScanShowsAll(cast, Contents({base}), base, base.model);
      assert QueriesOf(scans) == [];
      return base;
    }
    var n := |scans| - 1;
    ghost var qs := QueriesOf(scans[..n]);
    assert QueriesOf(scans) == qs + [scans[n].Query()];
    assert Castable(cast, base.model.schema.types, QueriesOf(scans)[n]);
    assert forall i :: 0 <= i < n ==> qs[i] == QueriesOf(scans)[i];
    var input := ExecuteScans(cast, base, scans[..n]);
    result := ScanNext(cast, base, input, scans[n], qs, rows);
  }

  // ----- Scans between operations -----

  /** What a caller asks for next: an operation on the base table, or a scan of the latest result. */
  datatype Request = Operate(op: Operation) | ScanLatest(scan: TableScan)

  ghost function EventOf(request: Request, base: Table): Event<Table> {
    match request
    case Operate(op) => Change(op)
    case ScanLatest(scan) => Refine(scan.Query(), base)
  }

  ghost function EventsOf(requests: seq<Request>, base: Table): (events: seq<Event<Table>>)
    ensures |events| == |requests|
  {
    seq(|requests|, i requires 0 <= i < |requests| => EventOf(requests[i], base))
  }

  ghost function SessionOf(base: Table, latest: Table): Session<Table>
    reads base, latest
  {
    Session(Contents({base}), latest.model)
  }

  method Perform(cast: Cast, base: Table, latest: Table, request: Request) returns (next: Table)
    requires base.Valid() && latest.Valid() && latest.Repr !! base.Repr && OnlyReferences(latest.model)
    requires PlayEvent(cast, base, SessionOf(base, latest), EventOf(request, base)).Some?
    modifies base.Repr
    ensures base.Valid() && fresh(base.Repr - old(base.Repr))
    ensures next.Valid() && next.Repr !! base.Repr && fresh(next.Repr - old(latest.Repr)) && OnlyReferences(next.model)
    ensures PlayEvent(cast, base, old(SessionOf(base, latest)), EventOf(request, base)) == Some(SessionOf(base, next))
  {
    match request
    case Operate(op) =>
      ExecuteOne(cast, base, op);
      next := latest;
      assert Contents({base}) == old(Contents({base}))[base := base.model];
    case ScanLatest(scan) =>
      IdentityDoesNotMatter(Contents({base}), latest.model, latest, base);
      ScanGivesReferences(cast, Contents({base}), latest, latest.model, scan.Query());
      var r := scan.OnExecute(cast, latest, {base});
      next := r.value;
  }

  lemma ScanGivesReferences<R>(cast: Cast, store: Store<R>, self: R, t: TableData<R>, q: Query)
    requires Scannable(store, t) && q.column < |t.schema.types|
    ensures Scan(cast, store, self, t, q).Some? ==> OnlyReferences(Scan(cast, store, self, t, q).value)
  {
    OutputHasOnlyReferences<R>(t, []);
    if Castable(cast, t.schema.types, q) {
      OutputHasOnlyReferences(t, QueryMatches(cast, store, self, t, q));
    }
  }

  /** Performs requests one after the other, each scan on the result of the one before. */
  method PerformAll(cast: Cast, base: Table, first: Table, requests: seq<Request>) returns (last: Table)
    requires base.Valid() && first.Valid() && first.Repr !! base.Repr && OnlyReferences(first.model)
    requires Play(cast, base, SessionOf(base, first), EventsOf(requests, base)).Some?
    modifies base.Repr
    ensures base.Valid() && fresh(base.Repr - old(base.Repr))
    ensures last.Valid() && last.Repr !! base.Repr && fresh(last.Repr - old(first.Repr)) && OnlyReferences(last.model)
    ensures Play(cast, base, old(SessionOf(base, first)), EventsOf(requests, base)) == Some(SessionOf(base, last))
  {
    if requests == [] {
      return first;
    }
    var n := |requests| - 1;
    assert EventsOf(requests, base)[..n] == EventsOf(requests[..n], base);
    last := PerformAll(cast, base, first, requests[..n]);
    last := Perform(cast, base, last, requests[n]);
  }

  /** End to end over objects: a table that has been filled and compressed by any run is scanned, and
      then operated on while the latest result is scanned again. The result, which refers to the
      table that has changed under it, shows the rows appended before the first scan that satisfy
      all queries. */
  method ScanWhileChanging(
      cast: Cast, base: Table, scan: TableScan, requests: seq<Request>, ghost schema: Schema, ghost ops: seq<Operation>)
    returns (last: Table)
    requires schema.Valid() && schema.types != []
    requires base.Valid() && Reaches(cast, schema, base.targetChunkSize, ops, base.model)
    requires Run<Table>(cast, Initial(schema, base.targetChunkSize), ops + Operations(EventsOf(requests, base))).Some?
    requires AllCastable(cast, schema.types, [scan.Query()] + Queries(EventsOf(requests, base)))
    requires SafeLog(schema, LogRun(cast, schema, base.targetChunkSize, ops))
    requires CompressedSafely(schema, LogRun(cast, schema, base.targetChunkSize, ops),
                              LogRun(cast, schema, base.targetChunkSize, ops + Operations(EventsOf(requests, base))))
    modifies base.Repr
    ensures base.Valid() && fresh(base.Repr - old(base.Repr))
    ensures Reaches(cast, schema, old(base.targetChunkSize), ops + Operations(EventsOf(requests, base)), base.model)
    ensures last.Valid() && fresh(last.Repr) && Scannable(Contents({base}), last.model)
    ensures Rows(Contents({base}), last, last.model)
            == FilterAll(cast, schema.types, [scan.Query()] + Queries(EventsOf(requests, base)),
                         AppendedRows(cast, schema, ops))
  {
    ghost var events, targetSize := EventsOf(requests, base), base.targetChunkSize;
    ghost var store := Contents({base});
    FirstScanStarts(cast, schema, targetSize, ops, store, base, scan.Query(), events);
    var r := scan.OnExecute(cast, base, {base});
    var first := r.value;
    SessionCompletesIff(cast, schema, targetSize, ops, base, Session(store, first.model), events);
    last := PerformAll(cast, base, first, requests);
    SessionRunsOperations(cast, schema, targetSize, ops, base, Session(store, first.model), events,
                          SessionOf(base, last));
    SessionFiltersAppendedRows(cast, schema, targetSize, ops, store, base, scan.Query(), first.model, events,
                               SessionOf(base, last), last);
  }

  lemma FirstScanStarts<R>(cast: Cast, schema: Schema, targetSize: nat, ops: seq<Operation>,
                           store: Store<R>, base: R, first: Query, events: seq<Event<R>>)
    requires schema.Valid() && schema.types != [] && SafeLog(schema, LogRun(cast, schema, targetSize, ops))
    requires base in store && Reaches(cast, schema, targetSize, ops, store[base])
    requires AllCastable(cast, schema.types, [first] + Queries(events))
    ensures Castable(cast, schema.types, first) && AllCastable(cast, schema.types, Queries(events))
    ensures Scannable(store, store[base]) && store[base].schema == schema
    ensures Scan(cast, store, base, store[base], first).Some?
    ensures var out := Scan(cast, store, base, store[base], first).value;
            Starts(cast, schema, targetSize, ops, base, Session(store, out)) && out.schema == schema
  {
    RunStoresLog<R>(cast, schema, targetSize, ops);
    RunShowsAppendedRowsIffSafe(cast, schema, targetSize, ops, store[base], store, base);
    FilterAllStarts(cast, schema.types, first, Queries(events), []);
    FirstScan(cast, schema, targetSize, ops, store, base, first, Scan(cast, store, base, store[base], first).value);
  }
}
