/** Scans of scans: what they show, and where their references point. */
module ScanChains {
  import opened Types
  import opened TableModel
  import opened ScanModel
  import opened ScanTheorems

  ghost predicate AllCastable(cast: Cast, types: seq<DataType>, qs: seq<Query>) {
    forall i :: 0 <= i < |qs| ==> Castable(cast, types, qs[i])
  }

  /** A scan of a scan of ... a table; `selfs` are the identities of the scanned tables. */
  ghost function Chain<R>(
      cast: Cast, store: Store<R>, selfs: seq<R>, t: TableData<R>, qs: seq<Query>): (out: TableData<R>)
    requires Scannable(store, t) && |selfs| == |qs| && (qs != [] ==> KnownAs(store, t, selfs[0]))
    requires AllCastable(cast, t.schema.types, qs)
    ensures Scannable(store, out) && out.schema == t.schema
    ensures if qs == [] then out == t else OnlyReferences(out)
  {
    if qs == [] then t
    else
      var n := |qs| - 1;
      var input := Chain(cast, store, selfs[..n], t, qs[..n]);
      ScanSelects(cast, store, selfs[n], input, qs[n], selfs[n]);
      Scan(cast, store, selfs[n], input, qs[n]).value
  }

  ghost predicate Satisfies(cast: Cast, types: seq<DataType>, q: Query, row: Row)
    requires Castable(cast, types, q)
  {
    q.search.NonNull? && TestOf(cast, types, q).Accepts(row)
  }

  ghost predicate SatisfiesAll(cast: Cast, types: seq<DataType>, qs: seq<Query>, row: Row)
    requires AllCastable(cast, types, qs)
  {
    forall i :: 0 <= i < |qs| ==> Satisfies(cast, types, qs[i], row)
  }

  /** The rows that satisfy every query, in order. */
  ghost function FilterAll(cast: Cast, types: seq<DataType>, qs: seq<Query>, rows: seq<Row>): seq<Row>
    requires AllCastable(cast, types, qs)
  {
    if rows == [] then []
    else
      var n := |rows| - 1;
      FilterAll(cast, types, qs, rows[..n]) + (if SatisfiesAll(cast, types, qs, rows[n]) then [rows[n]] else [])
  }

  lemma SatisfiesAllSplits(cast: Cast, types: seq<DataType>, qs: seq<Query>, row: Row)
    requires qs != [] && AllCastable(cast, types, qs)
    ensures var n := |qs| - 1;
            SatisfiesAll(cast, types, qs, row) <==>
              SatisfiesAll(cast, types, qs[..n], row) && Satisfies(cast, types, qs[n], row)
  {
  }

  lemma FilterPush(rows: seq<Row>, row: Row, test: Test)
    ensures FilterRows(rows + [row], test) == FilterRows(rows, test) + (if test.Accepts(row) then [row] else [])
  {
  }

  lemma {:induction false} FilterAllSplits(cast: Cast, types: seq<DataType>, qs: seq<Query>, rows: seq<Row>)
    requires qs != [] && AllCastable(cast, types, qs)
    ensures var n := |qs| - 1;
            FilterAll(cast, types, qs, rows) == Answer(cast, types, qs[n], FilterAll(cast, types, qs[..n], rows))
  {
    if rows != [] {
      var n, m := |qs| - 1, |rows| - 1;
      FilterAllSplits(cast, types, qs, rows[..m]);
      SatisfiesAllSplits(cast, types, qs, rows[m]);
      var before := FilterAll(cast, types, qs[..n], rows[..m]);
      assert before + [] == before;
      if qs[n].search.NonNull? {
        FilterPush(before, rows[m], TestOf(cast, types, qs[n]));
      }
    }
  }

  lemma FilterAllPush(cast: Cast, types: seq<DataType>, qs: seq<Query>, q: Query, rows: seq<Row>)
    requires AllCastable(cast, types, qs) && Castable(cast, types, q)
    ensures AllCastable(cast, types, qs + [q])
    ensures FilterAll(cast, types, qs + [q], rows) == Answer(cast, types, q, FilterAll(cast, types, qs, rows))
  {
    assert (qs + [q])[..|qs|] == qs;
    FilterAllSplits(cast, types, qs + [q], rows);
  }

  lemma {:induction false} FilterAllOfNothing(cast: Cast, types: seq<DataType>, rows: seq<Row>)
    ensures FilterAll(cast, types, [], rows) == rows
  {
    if rows != [] {
      FilterAllOfNothing(cast, types, rows[..|rows| - 1]);
    }
  }

  lemma LastInput<R>(cast: Cast, store: Store<R>, selfs: seq<R>, t: TableData<R>, qs: seq<Query>)
    requires Scannable(store, t) && |selfs| == |qs| > 0 && KnownAs(store, t, selfs[0])
    requires AllCastable(cast, t.schema.types, qs)
    ensures var n := |qs| - 1;
            && AllCastable(cast, t.schema.types, qs[..n]) && Castable(cast, t.schema.types, qs[n])
            && var input := Chain(cast, store, selfs[..n], t, qs[..n]);
               input.schema == t.schema && Scannable(store, input) && KnownAs(store, input, selfs[n])
  {
    var n := |qs| - 1;
    if n > 0 {
      ReferencesAreKnown(store, Chain(cast, store, selfs[..n], t, qs[..n]), selfs[n]);
    } else {
      assert qs[..n] == [];
    }
  }

  /** The last scan of a chain: its input has the schema of the base and can be scanned. */
  lemma LastScan<R>(cast: Cast, store: Store<R>, selfs: seq<R>, t: TableData<R>, qs: seq<Query>)
    requires Scannable(store, t) && |selfs| == |qs| > 0 && KnownAs(store, t, selfs[0])
    requires AllCastable(cast, t.schema.types, qs)
    ensures var n := |qs| - 1;
            var input := Chain(cast, store, selfs[..n], t, qs[..n]);
            && input.schema == t.schema && KnownAs(store, input, selfs[n])
            && Scan(cast, store, selfs[n], input, qs[n]) == Some(Chain(cast, store, selfs, t, qs))
  {
    LastInput(cast, store, selfs, t, qs);
  }

  /** A chain of any number of scans shows the rows that satisfy the conjunction of its queries. */
  lemma {:induction false} ChainIsConjunction<R>(
      cast: Cast, store: Store<R>, selfs: seq<R>, t: TableData<R>, qs: seq<Query>, self: R, other: R)
    requires Scannable(store, t) && |selfs| == |qs| && AllCastable(cast, t.schema.types, qs)
    requires if qs != [] then KnownAs(store, t, selfs[0]) && self == selfs[0] else other == self
    ensures Rows(store, other, Chain(cast, store, selfs, t, qs))
            == FilterAll(cast, t.schema.types, qs, Rows(store, self, t))
  {
    if qs == [] {
      FilterAllOfNothing(cast, t.schema.types, Rows(store, self, t));
    } else {
      var n := |qs| - 1;
      ChainIsConjunction(cast, store, selfs[..n], t, qs[..n], self, selfs[n]);
      LastScan(cast, store, selfs, t, qs);
      ScanIsFilter(cast, store, selfs[n], Chain(cast, store, selfs[..n], t, qs[..n]), qs[n], other);
      FilterAllSplits(cast, t.schema.types, qs, Rows(store, self, t));
    }
  }

  ghost predicate AscendingPositions<R>(entries: seq<Entry<R>>) {
    forall i, j :: 0 <= i < j < |entries| ==> entries[i].position.Before(entries[j].position)
  }

  /** Every row is named by its position in the one table `base`, in ascending order. */
  ghost predicate RefersTo<R>(store: Store<R>, base: R, entries: seq<Entry<R>>)
    requires base in store
  {
    && AscendingPositions(entries)
    && forall e :: e in entries ==>
         && e.target == base && HasRow(store[base], e.position) && !e.position.IsNullRow()
  }

  lemma {:induction false} SelectStaysAscending<R>(entries: seq<Entry<R>>, test: Test)
    requires AscendingPositions(entries)
    ensures AscendingPositions(Select(entries, test))
  {
    if entries != [] {
      var n := |entries| - 1;
      SelectStaysAscending(entries[..n], test);
      SelectIsSubset(entries[..n], test);
      var found := Select(entries[..n], test);
      forall k | 0 <= k < |found|
        ensures found[k].position.Before(entries[n].position)
      {
        assert found[k] in found;
      }
    }
  }

  lemma {:induction false} StoredEntriesAscend<R>(store: Store<R>, base: R, n: nat)
    requires base in store && Scannable(store, store[base]) && n <= |store[base].chunks|
    requires forall i :: 0 <= i < |store[base].chunks| ==> StoredChunk(store[base].schema.types, store[base].chunks[i])
    ensures var entries := Concat(EntryLists(store, base, store[base])[..n]);
            RefersTo(store, base, entries) && forall e :: e in entries ==> e.position.chunkId < n
  {
    if n > 0 {
      StoredEntriesAscend(store, base, n - 1);
      var lists := EntryLists(store, base, store[base]);
      assert lists[..n][..n - 1] == lists[..n - 1];
      var before: seq<Entry<R>> := Concat(lists[..n - 1]);
      var own: seq<Entry<R>> := lists[n - 1];
      forall k | 0 <= k < |own|
        ensures own[k].target == base && own[k].position == RowID(n - 1, k)
        ensures HasRow(store[base], own[k].position) && !own[k].position.IsNullRow()
      {
        assert store[base].chunks[n - 1][0].seg.Readable();
      }
      forall k | 0 <= k < |before|
        ensures before[k].position.chunkId < n - 1
      {
        assert before[k] in before;
      }
    }
  }

  lemma SelectionRefersToBase<R>(store: Store<R>, base: R, entries: seq<Entry<R>>, test: Test)
    requires base in store && RefersTo(store, base, entries)
    ensures RefersTo(store, base, Select(entries, test))
  {
    SelectStaysAscending(entries, test);
    SelectIsSubset(entries, test);
  }

  lemma BaseRefersToItself<R>(store: Store<R>, base: R)
    requires base in store && Scannable(store, store[base])
    requires forall i :: 0 <= i < |store[base].chunks| ==> StoredChunk(store[base].schema.types, store[base].chunks[i])
    ensures RefersTo(store, base, Entries(store, base, store[base]))
  {
    var lists := EntryLists(store, base, store[base]);
    StoredEntriesAscend(store, base, |lists|);
    assert lists[..|lists|] == lists;
  }

  /** However long the chain, its result points straight into the base table, at existing rows,
      in strictly ascending order, never at the NULL row id, and under matching column ids. */
  lemma {:induction false} ChainRefersToBase<R>(
      cast: Cast, store: Store<R>, selfs: seq<R>, base: R, qs: seq<Query>, other: R)
    requires base in store && Scannable(store, store[base]) && AllCastable(cast, store[base].schema.types, qs)
    requires |selfs| == |qs| && if qs != [] then selfs[0] == base else other == base
    requires forall i :: 0 <= i < |store[base].chunks| ==> StoredChunk(store[base].schema.types, store[base].chunks[i])
    ensures RefersTo(store, base, Entries(store, other, Chain(cast, store, selfs, store[base], qs)))
  {
    var t := store[base];
    if qs == [] {
      BaseRefersToItself(store, base);
    } else {
      var n := |qs| - 1;
      ChainRefersToBase(cast, store, selfs[..n], base, qs[..n], selfs[n]);
      LastScan(cast, store, selfs, t, qs);
      var input := Chain(cast, store, selfs[..n], t, qs[..n]);
      ScanSelectsEntries(cast, store, selfs[n], input, qs[n], other);
      if qs[n].search.NonNull? {
        SelectionRefersToBase(store, base, Entries(store, selfs[n], input), TestOf(cast, t.schema.types, qs[n]));
      }
    }
  }
}
