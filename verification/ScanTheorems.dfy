/** What every scan of every scannable table guarantees. */
module ScanTheorems {
  import opened Types
  import opened TableModel
  import opened ScanModel

  // ----- Selecting entries -----

  lemma {:induction false} SelectShowsFilter<R>(entries: seq<Entry<R>>, test: Test)
    ensures RowsOf(Select(entries, test)) == FilterRows(RowsOf(entries), test)
  {
    if entries != [] {
      var n := |entries| - 1;
      SelectShowsFilter(entries[..n], test);
      assert RowsOf(entries)[..n] == RowsOf(entries[..n]);
    }
  }

  lemma {:induction false} SelectConcat<R>(a: seq<Entry<R>>, b: seq<Entry<R>>, test: Test)
    ensures Select(a + b, test) == Select(a, test) + Select(b, test)
  {
    if b == [] {
      assert a + b == a;
    } else {
      var n := |b| - 1;
      SelectConcat(a, b[..n], test);
      assert (a + b)[..|a| + n] == a + b[..n];
    }
  }

  /** Chunk by chunk or all at once: the matches are the same. */
  lemma {:induction false} SurvivorsFlatten<R>(lists: seq<seq<Entry<R>>>, test: Test)
    ensures Concat(Survivors(lists, test)) == Select(Concat(lists), test)
  {
    if lists != [] {
      var n := |lists| - 1;
      SurvivorsFlatten(lists[..n], test);
      SelectConcat(Concat(lists[..n]), lists[n], test);
      var before, found := Survivors(lists[..n], test), Select(lists[n], test);
      if found == [] {
        assert Survivors(lists, test) == before;
      } else {
        assert Survivors(lists, test)[..|before|] == before;
      }
    }
  }

  // ----- Outputs show what they were built from -----

  /** The entries of one chunk refer to rows of one table of the store and hold what those read. */
  ghost predicate Resolved<R>(store: Store<R>, types: seq<DataType>, entries: seq<Entry<R>>) {
    forall k :: 0 <= k < |entries| ==>
      && entries[k].target == entries[0].target
      && entries[k].target in store
      && store[entries[k].target].schema.types == types
      && HasRow(store[entries[k].target], entries[k].position)
      && entries[k].row == RowAt(store[entries[k].target], entries[k].position)
  }

  ghost predicate AllResolved<R>(store: Store<R>, types: seq<DataType>, lists: seq<seq<Entry<R>>>) {
    forall i :: 0 <= i < |lists| ==> Resolved(store, types, lists[i])
  }

  lemma EntryListsResolve<R>(store: Store<R>, self: R, t: TableData<R>)
    requires Scannable(store, t) && KnownAs(store, t, self)
    ensures AllResolved(store, t.schema.types, EntryLists(store, self, t))
  {
    forall i | 0 <= i < |t.chunks|
      ensures Resolved(store, t.schema.types, ChunkEntries(store, self, t, i))
    {
    }
  }

  lemma {:induction false} SelectIsSubset<R>(entries: seq<Entry<R>>, test: Test)
    ensures forall e :: e in Select(entries, test) ==> e in entries && test.Accepts(e.row)
  {
    if entries != [] {
      SelectIsSubset(entries[..|entries| - 1], test);
    }
  }

  lemma SelectStaysResolved<R>(store: Store<R>, types: seq<DataType>, entries: seq<Entry<R>>, test: Test)
    requires Resolved(store, types, entries)
    ensures Resolved(store, types, Select(entries, test))
  {
    SelectIsSubset(entries, test);
    var found := Select(entries, test);
    forall k | 0 <= k < |found|
      ensures found[k] in entries && found[0] in entries
    {
      assert found[k] in found && found[0] in found;
    }
  }

  lemma {:induction false} SurvivorsStayResolved<R>(
      store: Store<R>, types: seq<DataType>, lists: seq<seq<Entry<R>>>, test: Test)
    requires AllResolved(store, types, lists)
    ensures AllResolved(store, types, Survivors(lists, test))
  {
    if lists != [] {
      var n := |lists| - 1;
      SurvivorsStayResolved(store, types, lists[..n], test);
      SelectStaysResolved(store, types, lists[n], test);
    }
  }

  /** Reading a scan result gives back the matches it was built from, under any identity. */
  lemma OutputShowsMatches<R>(store: Store<R>, other: R, t: TableData<R>, matches: seq<seq<Entry<R>>>)
    requires t.schema.Valid() && t.schema.types != []
    requires AllResolved(store, t.schema.types, matches)
    requires forall i :: 0 <= i < |matches| ==> matches[i] != []
    ensures Scannable(store, Output(t, matches)) && KnownAs(store, Output(t, matches), other)
    ensures EntryLists(store, other, Output(t, matches)) == if matches == [] then [[]] else matches
  {
    OutputIsScannable(store, other, t, matches);
    var out := Output(t, matches);
    forall i | 0 <= i < |matches|
      ensures ChunkEntries(store, other, out, i) == matches[i]
    {
      assert Resolved(store, t.schema.types, matches[i]);
      assert out.chunks[i][0] == Reference(matches[i][0].target, 0, PositionsOf(matches[i]));
      ReferencesShow(store, t.schema.types, matches[i], ChunkEntries(store, other, out, i));
    }
    if matches == [] {
      assert ChunkEntries(store, other, out, 0) == [];
    }
  }

  lemma OutputIsScannable<R>(store: Store<R>, other: R, t: TableData<R>, matches: seq<seq<Entry<R>>>)
    requires t.schema.Valid() && t.schema.types != []
    requires AllResolved(store, t.schema.types, matches)
    requires forall i :: 0 <= i < |matches| ==> matches[i] != []
    ensures Scannable(store, Output(t, matches)) && KnownAs(store, Output(t, matches), other)
  {
    var out := Output(t, matches);
    if matches == [] {
      assert StoredChunk(t.schema.types, out.chunks[0]);
    }
    forall i | 0 <= i < |matches|
      ensures ReferenceChunk(store, t.schema.types, out.chunks[i])
    {
      assert Resolved(store, t.schema.types, matches[i]);
      ResolvedReferences(store, t.schema, matches[i]);
    }
  }

  lemma ReferencesShow<R>(store: Store<R>, types: seq<DataType>, entries: seq<Entry<R>>, shown: seq<Entry<R>>)
    requires entries != [] && Resolved(store, types, entries) && |shown| == |entries|
    requires forall k :: 0 <= k < |entries| ==>
               shown[k].target == entries[0].target && shown[k].position == entries[k].position
    requires forall k :: 0 <= k < |entries| ==>
               && shown[k].target in store && HasRow(store[shown[k].target], shown[k].position)
               && shown[k].row == RowAt(store[shown[k].target], shown[k].position)
    ensures shown == entries
  {
  }

  lemma ResolvedReferences<R>(store: Store<R>, schema: Schema, entries: seq<Entry<R>>)
    requires schema.types != [] && entries != [] && Resolved(store, schema.types, entries)
    ensures ReferenceChunk(store, schema.types, ReferencesTo(schema, FoundOf(entries)))
  {
  }

  lemma ConcatOfEmpty<T>()
    ensures Concat<T>([[]]) == Concat<T>([]) == []
  {
  }

  // ----- Main results -----

  /** The entries of a table, in order. */
  ghost function Entries<R>(store: Store<R>, self: R, t: TableData<R>): seq<Entry<R>>
    requires Scannable(store, t)
  {
    Concat(EntryLists(store, self, t))
  }

  /** No stored rows: what a scan returns. */
  ghost predicate OnlyReferences<R>(t: TableData<R>) {
    forall i :: 0 <= i < |t.chunks| && t.chunks[i] != [] && t.chunks[i][0].Stored? ==> ChunkSize(t.chunks[i]) == 0
  }

  /** A table of references has no stored rows, so any identity serves to read it. */
  lemma ReferencesAreKnown<R>(store: Store<R>, t: TableData<R>, self: R)
    requires OnlyReferences(t)
    ensures KnownAs(store, t, self)
  {
  }

  lemma OutputHasOnlyReferences<R>(t: TableData<R>, matches: seq<seq<Entry<R>>>)
    requires forall i :: 0 <= i < |matches| ==> matches[i] != []
    ensures OnlyReferences(Output(t, matches))
  {
  }

  lemma QueryMatchesResolve<R>(cast: Cast, store: Store<R>, self: R, t: TableData<R>, q: Query)
    requires Scannable(store, t) && KnownAs(store, t, self) && Castable(cast, t.schema.types, q)
    ensures AllResolved(store, t.schema.types, QueryMatches(cast, store, self, t, q))
  {
    if q.search.NonNull? {
      EntryListsResolve(store, self, t);
      SurvivorsStayResolved(store, t.schema.types, EntryLists(store, self, t), TestOf(cast, t.schema.types, q));
    }
  }

  /** A scan with a castable value succeeds; its chunks are the non-empty selections. */
  lemma ScanSelects<R>(cast: Cast, store: Store<R>, self: R, t: TableData<R>, q: Query, other: R)
    requires Scannable(store, t) && KnownAs(store, t, self) && Castable(cast, t.schema.types, q)
    ensures Scan(cast, store, self, t, q).Some?
    ensures var out, matches := Scan(cast, store, self, t, q).value, QueryMatches(cast, store, self, t, q);
            && out.schema == t.schema && out.targetSize == t.targetSize
            && Scannable(store, out) && OnlyReferences(out)
            && out == Output(t, matches)
            && EntryLists(store, other, out) == (if matches == [] then [[]] else matches)
  {
    var matches := QueryMatches(cast, store, self, t, q);
    QueryMatchesResolve(cast, store, self, t, q);
    OutputShowsMatches(store, other, t, matches);
    OutputHasOnlyReferences(t, matches);
  }

  /** Over all chunks, the entries of the result are those the query selects. */
  lemma ScanSelectsEntries<R>(cast: Cast, store: Store<R>, self: R, t: TableData<R>, q: Query, other: R)
    requires Scannable(store, t) && KnownAs(store, t, self) && Castable(cast, t.schema.types, q)
    ensures Scan(cast, store, self, t, q).Some?
    ensures var out := Scan(cast, store, self, t, q).value;
            && Scannable(store, out)
            && Entries(store, other, out) ==
                 if q.search.Null? then [] else Select(Entries(store, self, t), TestOf(cast, t.schema.types, q))
  {
    ScanSelects(cast, store, self, t, q, other);
    ConcatOfEmpty<Entry<R>>();
    if q.search.NonNull? {
      SurvivorsFlatten(EntryLists(store, self, t), TestOf(cast, t.schema.types, q));
    }
  }

  /** The scan of any scannable table, whatever mix of value, dictionary and reference chunks
      it has, shows exactly the rows the query asks for, in order and each once. */
  lemma ScanIsFilter<R>(cast: Cast, store: Store<R>, self: R, t: TableData<R>, q: Query, other: R)
    requires Scannable(store, t) && KnownAs(store, t, self) && Castable(cast, t.schema.types, q)
    ensures Scan(cast, store, self, t, q).Some?
    ensures var out := Scan(cast, store, self, t, q).value;
            && Scannable(store, out)
            && Rows(store, other, out) == Answer(cast, t.schema.types, q, Rows(store, self, t))
  {
    ScanSelectsEntries(cast, store, self, t, q, other);
    if q.search.NonNull? {
      SelectShowsFilter(Entries(store, self, t), TestOf(cast, t.schema.types, q));
    }
  }

  lemma {:induction false} ConcatIsEmpty<T>(lists: seq<seq<T>>)
    ensures Concat(lists) == [] <==> forall i :: 0 <= i < |lists| ==> lists[i] == []
  {
    if lists != [] {
      var n := |lists| - 1;
      ConcatIsEmpty(lists[..n]);
      assert forall i :: 0 <= i < n ==> lists[..n][i] == lists[i];
    }
  }

  /** A scan throws exactly when its search value cannot be cast and the table has a row. */
  lemma ScanThrowsExactly<R>(cast: Cast, store: Store<R>, self: R, t: TableData<R>, q: Query)
    requires Scannable(store, t) && q.column < |t.schema.types|
    ensures Scan(cast, store, self, t, q).None? <==>
              && q.search.NonNull? && cast(t.schema.types[q.column], q.search.value).None?
              && Rows(store, self, t) != []
  {
    ConcatIsEmpty(EntryLists(store, self, t));
    forall i | 0 <= i < |t.chunks|
      ensures ChunkSize(t.chunks[i]) == |EntryLists(store, self, t)[i]|
    {
    }
  }
}
