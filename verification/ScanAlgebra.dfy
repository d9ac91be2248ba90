/** How scans relate to each other: order, repetition, complements, result shape, later changes. */
module ScanAlgebra {
  import opened Types
  import opened Segments
  import opened TableModel
  import opened ScanModel
  import opened ScanTheorems

  // ----- Commuting and repeating -----

  lemma SurvivorsPush<R>(lists: seq<seq<Entry<R>>>, last: seq<Entry<R>>, test: Test)
    ensures Survivors(lists + [last], test) == Survivors(lists, test) + Kept(Select(last, test))
  {
    assert (lists + [last])[..|lists|] == lists;
  }

  lemma SurvivorsWithKept<R>(lists: seq<seq<Entry<R>>>, found: seq<Entry<R>>, test: Test)
    ensures Survivors(lists + Kept(found), test) == Survivors(lists, test) + Kept(Select(found, test))
  {
    if found == [] {
      assert lists + Kept(found) == lists;
    } else {
      SurvivorsPush(lists, found, test);
    }
  }

  lemma {:induction false} SelectTwice<R>(entries: seq<Entry<R>>, a: Test, b: Test)
    ensures Select(Select(entries, a), b) == Select(Select(entries, b), a)
    ensures a == b ==> Select(Select(entries, a), b) == Select(entries, a)
  {
    if entries != [] {
      var n := |entries| - 1;
      SelectTwice(entries[..n], a, b);
      var last := [entries[n]];
      assert last[..0] == [];
      var none: seq<Entry<R>> := [];
      SelectConcat(Select(entries[..n], a), if a.Accepts(entries[n].row) then last else none, b);
      SelectConcat(Select(entries[..n], b), if b.Accepts(entries[n].row) then last else none, a);
    }
  }

  lemma {:induction false} SurvivorsTwice<R>(lists: seq<seq<Entry<R>>>, a: Test, b: Test)
    ensures Survivors(Survivors(lists, a), b) == Survivors(Survivors(lists, b), a)
    ensures a == b ==> Survivors(Survivors(lists, a), b) == Survivors(lists, a)
  {
    if lists != [] {
      var n := |lists| - 1;
      SurvivorsTwice(lists[..n], a, b);
      SelectTwice(lists[n], a, b);
      SurvivorsWithKept(Survivors(lists[..n], a), Select(lists[n], a), b);
      SurvivorsWithKept(Survivors(lists[..n], b), Select(lists[n], b), a);
    }
  }

  /** The matches of a query on the result of another one. */
  ghost function MatchesOfBoth<R>(
      cast: Cast, store: Store<R>, self: R, t: TableData<R>, a: Query, b: Query): (r: seq<seq<Entry<R>>>)
    requires Scannable(store, t) && Castable(cast, t.schema.types, a) && Castable(cast, t.schema.types, b)
    ensures forall i :: 0 <= i < |r| ==> r[i] != []
  {
    if a.search.Null? || b.search.Null? then []
    else
      Survivors(Survivors(EntryLists(store, self, t), TestOf(cast, t.schema.types, a)), TestOf(cast, t.schema.types, b))
  }

  lemma SurvivorsOfNothing<R>(test: Test)
    ensures Survivors<R>([[]], test) == Survivors<R>([], test) == []
  {
    var none: seq<seq<Entry<R>>> := [[]];
    assert none[..0] == [];
  }

  /** Scanning a scan result: the same schema, and the selection of its chunks. */
  lemma ScanTwice<R>(cast: Cast, store: Store<R>, self: R, t: TableData<R>, a: Query, b: Query, out: TableData<R>,
                     other: R)
    requires Scannable(store, t) && KnownAs(store, t, self)
    requires Castable(cast, t.schema.types, a) && Castable(cast, t.schema.types, b)
    requires Scan(cast, store, self, t, a) == Some(out)
    ensures Scannable(store, out) && out.schema == t.schema
    ensures Scan(cast, store, other, out, b) == Some(Output(t, MatchesOfBoth(cast, store, self, t, a, b)))
  {
    ScanSelects(cast, store, self, t, a, other);
    ScanSelects(cast, store, other, out, b, other);
    if b.search.NonNull? {
      SurvivorsOfNothing<R>(TestOf(cast, t.schema.types, b));
    }
    assert QueryMatches(cast, store, other, out, b) == MatchesOfBoth(cast, store, self, t, a, b);
  }

  /** Two scans commute: either order gives the same chunks with the same position lists. */
  lemma ScansCommute<R>(cast: Cast, store: Store<R>, self: R, t: TableData<R>, a: Query, b: Query,
                        outA: TableData<R>, outB: TableData<R>, selfA: R, selfB: R)
    requires Scannable(store, t) && KnownAs(store, t, self)
    requires Castable(cast, t.schema.types, a) && Castable(cast, t.schema.types, b)
    requires Scan(cast, store, self, t, a) == Some(outA) && Scan(cast, store, self, t, b) == Some(outB)
    ensures Scannable(store, outA) && outA.schema == t.schema
    ensures Scannable(store, outB) && outB.schema == t.schema
    ensures Scan(cast, store, selfA, outA, b).Some?
    ensures Scan(cast, store, selfA, outA, b) == Scan(cast, store, selfB, outB, a)
  {
    ScanTwice(cast, store, self, t, a, b, outA, selfA);
    ScanTwice(cast, store, self, t, b, a, outB, selfB);
    if a.search.NonNull? && b.search.NonNull? {
      SurvivorsTwice(EntryLists(store, self, t), TestOf(cast, t.schema.types, a), TestOf(cast, t.schema.types, b));
    }
  }

  /** Repeating a scan on its own output changes nothing. */
  lemma ScanIsIdempotent<R>(cast: Cast, store: Store<R>, self: R, t: TableData<R>, q: Query, out: TableData<R>,
                            other: R)
    requires Scannable(store, t) && KnownAs(store, t, self) && Castable(cast, t.schema.types, q)
    requires Scan(cast, store, self, t, q) == Some(out)
    ensures Scannable(store, out) && out.schema == t.schema
    ensures Scan(cast, store, other, out, q) == Some(out)
  {
    ScanTwice(cast, store, self, t, q, q, out, other);
    if q.search.NonNull? {
      SurvivorsTwice(EntryLists(store, self, t), TestOf(cast, t.schema.types, q), TestOf(cast, t.schema.types, q));
    }
  }

  // ----- Complementary scans -----

  function Complement(op: ScanType): ScanType {
    match op
    case OpEquals => OpNotEquals
    case OpNotEquals => OpEquals
    case OpLessThan => OpGreaterThanEquals
    case OpLessThanEquals => OpGreaterThan
    case OpGreaterThan => OpLessThanEquals
    case OpGreaterThanEquals => OpLessThan
  }

  lemma ComplementAccepts(row: Row, column: nat, op: ScanType, v: Value)
    ensures Comparison(column, Complement(op), v).Accepts(row) <==>
              IsNotNull(column).Accepts(row) && !Comparison(column, op, v).Accepts(row)
    ensures Comparison(column, op, v).Accepts(row) ==> IsNotNull(column).Accepts(row)
  {
    LessIsTotalOrder();
  }

  lemma {:induction false} SelectPartitions<R>(entries: seq<Entry<R>>, column: nat, op: ScanType, v: Value)
    ensures multiset(Select(entries, Comparison(column, op, v)))
            + multiset(Select(entries, Comparison(column, Complement(op), v)))
            == multiset(Select(entries, IsNotNull(column)))
  {
    if entries != [] {
      var n := |entries| - 1;
      SelectPartitions(entries[..n], column, op, v);
      ComplementAccepts(entries[n].row, column, op, v);
    }
  }

  /** The scans with a comparison and with its complement split the rows with a non-NULL cell:
      no row is in both, and together they are all of them, each as often as it occurs. */
  lemma ComplementsPartition<R>(cast: Cast, store: Store<R>, self: R, t: TableData<R>, q: Query, yes: TableData<R>,
                                no: TableData<R>, other: R)
    requires Scannable(store, t) && KnownAs(store, t, self) && Castable(cast, t.schema.types, q) && q.search.NonNull?
    requires Scan(cast, store, self, t, q) == Some(yes)
    requires Scan(cast, store, self, t, q.(op := Complement(q.op))) == Some(no)
    ensures Scannable(store, yes) && Scannable(store, no)
    ensures multiset(Entries(store, other, yes)) + multiset(Entries(store, other, no))
            == multiset(Select(Entries(store, self, t), IsNotNull(q.column)))
    ensures forall e :: !(e in Entries(store, other, yes) && e in Entries(store, other, no))
  {
    var p := q.(op := Complement(q.op));
    ScanSelectsEntries(cast, store, self, t, q, other);
    ScanSelectsEntries(cast, store, self, t, p, other);
    var entries := Entries(store, self, t);
    var test, rest := TestOf(cast, t.schema.types, q), TestOf(cast, t.schema.types, p);
    SelectPartitions(entries, q.column, q.op, test.value);
    forall e | e in Select(entries, test)
      ensures e !in Select(entries, rest)
    {
      SelectIsSubset(entries, test);
      SelectIsSubset(entries, rest);
      ComplementAccepts(e.row, q.column, q.op, test.value);
    }
  }

  /** Scanning for NULL finds nothing, with any of the six comparisons. */
  lemma NullFindsNothing<R>(cast: Cast, store: Store<R>, self: R, t: TableData<R>, q: Query, other: R)
    requires Scannable(store, t) && q.column < |t.schema.types| && q.search.Null?
    ensures Scan(cast, store, self, t, q).Some?
    ensures var out := Scan(cast, store, self, t, q).value;
            Scannable(store, out) && Rows(store, other, out) == []
  {
    OutputShowsMatches(store, other, t, []);
    ConcatOfEmpty<Entry<R>>();
  }

  // ----- The shape of a result -----

  ghost predicate HasMatch<R>(entries: seq<Entry<R>>, test: Test) {
    exists k :: 0 <= k < |entries| && test.Accepts(entries[k].row)
  }

  lemma HasMatchSplits<R>(entries: seq<Entry<R>>, test: Test)
    requires entries != []
    ensures var n := |entries| - 1;
            HasMatch(entries, test) <==> HasMatch(entries[..n], test) || test.Accepts(entries[n].row)
  {
    var n := |entries| - 1;
    assert forall k :: 0 <= k < n ==> entries[..n][k] == entries[k];
  }

  lemma {:induction false} SelectFindsMatch<R>(entries: seq<Entry<R>>, test: Test)
    ensures Select(entries, test) != [] <==> HasMatch(entries, test)
  {
    if entries != [] {
      SelectFindsMatch(entries[..|entries| - 1], test);
      HasMatchSplits(entries, test);
    }
  }

  /** The chunks that hold an accepted row. */
  ghost function MatchingChunks<R>(lists: seq<seq<Entry<R>>>, test: Test): set<int> {
    set i | 0 <= i < |lists| && HasMatch(lists[i], test)
  }

  lemma MatchingChunksPush<R>(lists: seq<seq<Entry<R>>>, last: seq<Entry<R>>, test: Test)
    ensures |MatchingChunks(lists + [last], test)|
            == |MatchingChunks(lists, test)| + if HasMatch(last, test) then 1 else 0
  {
    var before, all := MatchingChunks(lists, test), MatchingChunks(lists + [last], test);
    var pushed := if HasMatch(last, test) then {|lists|} else {};
    forall i
      ensures i in all <==> i in before + pushed
    {
      if 0 <= i < |lists| {
        assert (lists + [last])[i] == lists[i];
      } else if i == |lists| {
        assert (lists + [last])[i] == last;
      }
    }
    assert all == before + pushed;
  }

  lemma {:induction false} SurvivorsCount<R>(lists: seq<seq<Entry<R>>>, test: Test)
    ensures |Survivors(lists, test)| == |MatchingChunks(lists, test)|
  {
    if lists == [] {
      assert MatchingChunks(lists, test) == {};
    } else {
      var n := |lists| - 1;
      SurvivorsCount(lists[..n], test);
      SelectFindsMatch(lists[n], test);
      assert lists == lists[..n] + [lists[n]];
      MatchingChunksPush(lists[..n], lists[n], test);
    }
  }

  /** How many chunks of the input have a match; a search for NULL matches nothing. */
  ghost function CountMatchingChunks<R>(cast: Cast, store: Store<R>, self: R, t: TableData<R>, q: Query): nat
    requires Scannable(store, t) && Castable(cast, t.schema.types, q)
  {
    if q.search.Null? then 0 else |MatchingChunks(EntryLists(store, self, t), TestOf(cast, t.schema.types, q))|
  }

  /** A result has one chunk per input chunk with a match, in which every column refers to the same
      positions, so rows never tear. Without a match it has one chunk, with an empty value segment
      that takes no NULL for each column, whatever the schema allows. */
  lemma OutputShape<R>(cast: Cast, store: Store<R>, self: R, t: TableData<R>, q: Query)
    requires Scannable(store, t) && KnownAs(store, t, self) && Castable(cast, t.schema.types, q)
    ensures Scan(cast, store, self, t, q).Some?
    ensures var out, matching := Scan(cast, store, self, t, q).value, CountMatchingChunks(cast, store, self, t, q);
            if matching == 0 then
              && |out.chunks| == 1 && |out.chunks[0]| == |t.schema.types|
              && forall c :: 0 <= c < |t.schema.types| ==>
                   out.chunks[0][c] == Stored(ValueData(t.schema.types[c], [], None))
            else
              && |out.chunks| == matching
              && forall i :: 0 <= i < matching ==>
                   && |out.chunks[i]| == |t.schema.types|
                   && out.chunks[i][0].Reference? && out.chunks[i][0].positions != []
                   && forall c :: 0 <= c < |t.schema.types| ==>
                        out.chunks[i][c] == Reference(out.chunks[i][0].target, c, out.chunks[i][0].positions)
  {
    ScanSelects(cast, store, self, t, q, self);
    if q.search.NonNull? {
      SurvivorsCount(EntryLists(store, self, t), TestOf(cast, t.schema.types, q));
    }
    var out, matches := Scan(cast, store, self, t, q).value, QueryMatches(cast, store, self, t, q);
    forall i | 0 <= i < |matches|
      ensures ChunkSize(out.chunks[i]) > 0 && ReferenceChunk(store, t.schema.types, out.chunks[i])
    {
      OutputChunkRefers(store, t, matches, i);
    }
  }

  lemma OutputChunkRefers<R>(store: Store<R>, t: TableData<R>, matches: seq<seq<Entry<R>>>, i: nat)
    requires forall k :: 0 <= k < |matches| ==> matches[k] != []
    requires Scannable(store, Output(t, matches)) && i < |matches|
    ensures ChunkSize(Output(t, matches).chunks[i]) > 0
    ensures ReferenceChunk(store, t.schema.types, Output(t, matches).chunks[i])
  {
  }

  // ----- Later changes of the referenced tables -----

  /** Every row that `t` refers to still exists in `later` and reads the same. */
  ghost predicate ReadsSame<R>(store: Store<R>, later: Store<R>, t: TableData<R>)
    requires Scannable(store, t)
  {
    forall i :: 0 <= i < |t.chunks| && t.chunks[i][0].Reference? ==>
      var target := t.chunks[i][0].target;
      && target in later && later[target].schema.types == store[target].schema.types
      && forall k :: 0 <= k < |t.chunks[i][0].positions| ==>
           var p := t.chunks[i][0].positions[k];
           HasRow(later[target], p) && RowAt(later[target], p) == RowAt(store[target], p)
  }

  /** A table of references reads and scans the same as long as the rows it refers to do. */
  lemma StableReads<R>(cast: Cast, store: Store<R>, later: Store<R>, self: R, t: TableData<R>, q: Query)
    requires Scannable(store, t) && OnlyReferences(t) && ReadsSame(store, later, t)
    requires q.column < |t.schema.types|
    ensures Scannable(later, t)
    ensures Rows(later, self, t) == Rows(store, self, t)
    ensures Scan(cast, later, self, t, q) == Scan(cast, store, self, t, q)
  {
    forall i | 0 <= i < |t.chunks|
      ensures StoredChunk(t.schema.types, t.chunks[i]) || ReferenceChunk(later, t.schema.types, t.chunks[i])
    {
    }
    forall i | 0 <= i < |t.chunks|
      ensures ChunkEntries(later, self, t, i) == ChunkEntries(store, self, t, i)
    {
    }
    assert EntryLists(later, self, t) == EntryLists(store, self, t);
  }
}
