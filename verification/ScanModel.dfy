/**
 What a table scan computes, on table contents. A `store` gives the contents of the
 tables that reference segments point into.
 */
module ScanModel {
  import opened Types
  import opened TableModel

  type Store<R> = map<R, TableData<R>>

  // ----- Rows of any table -----

  /** One reference segment per column, all sharing one position list into one stored table. */
  ghost predicate ReferenceChunk<R>(store: Store<R>, types: seq<DataType>, chunk: ChunkData<R>) {
    && |chunk| == |types| > 0
    && chunk[0].Reference?
    && (forall c :: 0 <= c < |chunk| ==> chunk[c] == Reference(chunk[0].target, c, chunk[0].positions))
    && chunk[0].target in store
    && store[chunk[0].target].schema.types == types
    && forall k :: 0 <= k < |chunk[0].positions| ==> HasRow(store[chunk[0].target], chunk[0].positions[k])
  }

  /** A table that can be scanned: base tables, scan results, and tables mixing both kinds of chunk. */
  ghost predicate Scannable<R>(store: Store<R>, t: TableData<R>) {
    && t.schema.Valid() && t.schema.types != []
    && forall i :: 0 <= i < |t.chunks| ==>
         StoredChunk(t.schema.types, t.chunks[i]) || ReferenceChunk(store, t.schema.types, t.chunks[i])
  }

  /** References to the table's own stored rows can be resolved. */
  ghost predicate KnownAs<R>(store: Store<R>, t: TableData<R>, self: R) {
    forall i :: 0 <= i < |t.chunks| && t.chunks[i] != [] && t.chunks[i][0].Stored? && ChunkSize(t.chunks[i]) > 0 ==>
      self in store && store[self] == t
  }

  /** A row of a table: the stored row it refers to, and what that reads. */
  datatype Entry<R> = Entry(target: R, position: RowID, row: Row)

  ghost predicate Wide<R>(entries: seq<Entry<R>>, width: nat) {
    forall k :: 0 <= k < |entries| ==> |entries[k].row| == width
  }

  /** The rows of chunk `i`: its own, or those its position list refers to. */
  ghost function ChunkEntries<R>(store: Store<R>, self: R, t: TableData<R>, i: nat): (entries: seq<Entry<R>>)
    requires Scannable(store, t) && i < |t.chunks|
    ensures |entries| == ChunkSize(t.chunks[i]) && Wide(entries, |t.schema.types|)
  {
    var chunk := t.chunks[i];
    if chunk[0].Reference? then
      seq(|chunk[0].positions|, k requires 0 <= k < |chunk[0].positions| =>
        var p := chunk[0].positions[k];
        Entry(chunk[0].target, p, RowAt(store[chunk[0].target], p)))
    else
      seq(ChunkSize(chunk), k requires 0 <= k < ChunkSize(chunk) => Entry(self, RowID(i, k), RowAt(t, RowID(i, k))))
  }

  /** The rows of a table, chunk by chunk. */
  ghost function EntryLists<R>(store: Store<R>, self: R, t: TableData<R>): (lists: seq<seq<Entry<R>>>)
    requires Scannable(store, t)
    ensures |lists| == |t.chunks|
    ensures forall i :: 0 <= i < |lists| ==> Wide(lists[i], |t.schema.types|)
  {
    seq(|t.chunks|, i requires 0 <= i < |t.chunks| => ChunkEntries(store, self, t, i))
  }

  ghost function Concat<T>(lists: seq<seq<T>>): seq<T> {
    if lists == [] then [] else Concat(lists[..|lists| - 1]) + lists[|lists| - 1]
  }

  ghost function RowsOf<R>(entries: seq<Entry<R>>): (rows: seq<Row>)
    ensures |rows| == |entries|
  {
    seq(|entries|, k requires 0 <= k < |entries| => entries[k].row)
  }

  ghost function PositionsOf<R>(entries: seq<Entry<R>>): (ps: seq<RowID>)
    ensures |ps| == |entries|
  {
    seq(|entries|, k requires 0 <= k < |entries| => entries[k].position)
  }

  /** The rows of a table, in order. */
  ghost function Rows<R>(store: Store<R>, self: R, t: TableData<R>): seq<Row>
    requires Scannable(store, t)
  {
    RowsOf(Concat(EntryLists(store, self, t)))
  }

  // ----- The filter -----

  /** A test of one column: a comparison with a value of its type, or being non-NULL. */
  datatype Test =
    | Comparison(column: nat, op: ScanType, value: Value)
    | IsNotNull(column: nat)
  {
    /** A row that lacks the column is not accepted. */
    ghost predicate Accepts(row: Row) {
      column < |row| && if Comparison? then Matches(row[column], op, value) else row[column].NonNull?
    }
  }

  /** The rows a test accepts, in order: the meaning of a scan. */
  ghost function FilterRows(rows: seq<Row>, test: Test): seq<Row> {
    if rows == [] then []
    else
      var n := |rows| - 1;
      FilterRows(rows[..n], test) + (if test.Accepts(rows[n]) then [rows[n]] else [])
  }

  /** The entries of one chunk that a test accepts, in order. */
  ghost function Select<R>(entries: seq<Entry<R>>, test: Test): seq<Entry<R>> {
    if entries == [] then []
    else
      var n := |entries| - 1;
      Select(entries[..n], test) + (if test.Accepts(entries[n].row) then [entries[n]] else [])
  }

  /** A selection as a list of chunks: none if it is empty. */
  ghost function Kept<T>(found: seq<T>): seq<seq<T>> {
    if found == [] then [] else [found]
  }

  /** The selections of all chunks, the empty ones left out. */
  ghost function Survivors<R>(lists: seq<seq<Entry<R>>>, test: Test): (r: seq<seq<Entry<R>>>)
    ensures forall i :: 0 <= i < |r| ==> r[i] != []
  {
    if lists == [] then []
    else
      var n := |lists| - 1;
      Survivors(lists[..n], test) + Kept(Select(lists[n], test))
  }

  // ----- The scan -----

  /** A reference segment as the scan collects it: where it points, and its position list. */
  datatype Found<R> = Found(target: R, positions: seq<RowID>)

  /** One reference segment per column over one shared position list. */
  ghost function ReferencesTo<R>(schema: Schema, found: Found<R>): ChunkData<R> {
    seq(|schema.types|, c requires 0 <= c < |schema.types| => Reference(found.target, c, found.positions))
  }

  /** The empty chunk of a result without matches: never nullable. */
  ghost function NoMatchChunk<R>(schema: Schema): ChunkData<R> {
    seq(|schema.types|, c requires 0 <= c < |schema.types| => Stored(EmptySegment(schema.types[c], false)))
  }

  /** The table made of reference segments: a chunk for each, or one empty chunk. */
  ghost function FromReferences<R>(t: TableData<R>, found: seq<Found<R>>): TableData<R> {
    t.(chunks := if found == [] then [NoMatchChunk(t.schema)]
                 else seq(|found|, i requires 0 <= i < |found| => ReferencesTo(t.schema, found[i])))
  }

  ghost function FoundOf<R>(entries: seq<Entry<R>>): Found<R>
    requires entries != []
  {
    Found(entries[0].target, PositionsOf(entries))
  }

  ghost function AllFound<R>(matches: seq<seq<Entry<R>>>): (found: seq<Found<R>>)
    requires forall i :: 0 <= i < |matches| ==> matches[i] != []
    ensures |found| == |matches|
  {
    seq(|matches|, i requires 0 <= i < |matches| => FoundOf(matches[i]))
  }

  /** The table a scan returns for its matches. */
  ghost function Output<R>(t: TableData<R>, matches: seq<seq<Entry<R>>>): TableData<R>
    requires forall i :: 0 <= i < |matches| ==> matches[i] != []
  {
    FromReferences(t, AllFound(matches))
  }

  datatype Query = Query(column: nat, op: ScanType, search: Cell)

  /** The search value can be cast to the column's type, or is NULL. */
  ghost predicate Castable(cast: Cast, types: seq<DataType>, q: Query) {
    q.column < |types| && (q.search.NonNull? ==> cast(types[q.column], q.search.value).Some?)
  }

  ghost function TestOf(cast: Cast, types: seq<DataType>, q: Query): (test: Test)
    requires Castable(cast, types, q) && q.search.NonNull?
    ensures test.column == q.column
  {
    Comparison(q.column, q.op, cast(types[q.column], q.search.value).value)
  }

  /** The matches of a query, chunk by chunk: none for a search for NULL. */
  ghost function QueryMatches<R>(
      cast: Cast, store: Store<R>, self: R, t: TableData<R>, q: Query): (matches: seq<seq<Entry<R>>>)
    requires Scannable(store, t) && Castable(cast, t.schema.types, q)
    ensures forall i :: 0 <= i < |matches| ==> matches[i] != []
  {
    if q.search.Null? then [] else Survivors(EntryLists(store, self, t), TestOf(cast, t.schema.types, q))
  }

  /** `_on_execute`: None when the cast of the search value throws, which needs a non-empty chunk. */
  ghost function Scan<R>(cast: Cast, store: Store<R>, self: R, t: TableData<R>, q: Query): Option<TableData<R>>
    requires Scannable(store, t) && q.column < |t.schema.types|
  {
    if Castable(cast, t.schema.types, q) then Some(Output(t, QueryMatches(cast, store, self, t, q)))
    else if forall i :: 0 <= i < |t.chunks| ==> ChunkSize(t.chunks[i]) == 0 then Some(Output(t, []))
    else None
  }

  /** What a query means on rows: nothing compares with NULL. */
  ghost function Answer(cast: Cast, types: seq<DataType>, q: Query, rows: seq<Row>): seq<Row>
    requires Castable(cast, types, q)
  {
    if q.search.Null? then [] else FilterRows(rows, TestOf(cast, types, q))
  }
}
