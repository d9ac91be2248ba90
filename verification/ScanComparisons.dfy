/** What a scan shows, comparison by comparison, in the arithmetic of each column type. */
module ScanComparisons {
  import opened Types
  import opened TableModel
  import opened ScanModel
  import opened ScanTheorems

  lemma CountPush<T>(s: seq<T>, last: T, e: T)
    ensures multiset(s + [last])[e] == multiset(s)[e] + if last == e then 1 else 0
  {
  }

  lemma {:induction false} SelectKeepsAccepted<R>(entries: seq<Entry<R>>, test: Test, e: Entry<R>)
    ensures multiset(Select(entries, test))[e] == if test.Accepts(e.row) then multiset(entries)[e] else 0
  {
    if entries != [] {
      var n := |entries| - 1;
      SelectKeepsAccepted(entries[..n], test, e);
      CountPush(entries[..n], entries[n], e);
      CountPush(Select(entries[..n], test), entries[n], e);
      assert entries[..n] + [entries[n]] == entries;
    }
  }

  lemma EntriesAreWide<R>(store: Store<R>, self: R, t: TableData<R>, e: Entry<R>)
    requires Scannable(store, t) && e in Entries(store, self, t)
    ensures |e.row| == |t.schema.types|
  {
    WideConcat(EntryLists(store, self, t), |t.schema.types|);
  }

  lemma {:induction false} WideConcat<R>(lists: seq<seq<Entry<R>>>, width: nat)
    requires forall i :: 0 <= i < |lists| ==> Wide(lists[i], width)
    ensures Wide(Concat(lists), width)
  {
    if lists != [] {
      WideConcat(lists[..|lists| - 1], width);
    }
  }

  /** A scan shows an entry either as often as its input does or not at all. */
  lemma ScanShowsMatches<R>(
      cast: Cast, store: Store<R>, self: R, t: TableData<R>, q: Query, w: Value,
      out: TableData<R>, other: R, e: Entry<R>)
    requires Scannable(store, t) && KnownAs(store, t, self) && q.column < |t.schema.types|
    requires q.search.NonNull? && cast(t.schema.types[q.column], q.search.value) == Some(w)
    requires Scan(cast, store, self, t, q) == Some(out) && e in Entries(store, self, t)
    ensures Scannable(store, out) && |e.row| == |t.schema.types|
    ensures e in Entries(store, other, out) <==> Matches(e.row[q.column], q.op, w)
    ensures multiset(Entries(store, other, out))[e] ==
              if e in Entries(store, other, out) then multiset(Entries(store, self, t))[e] else 0
  {
    EntriesAreWide(store, self, t, e);
    ScanSelectsEntries(cast, store, self, t, q, other);
    SelectKeepsAccepted(Entries(store, self, t), TestOf(cast, t.schema.types, q), e);
  }

  /** For every entry of any scannable table: the scan shows it, as often as the table does, exactly
      when its number x and the cast search value y satisfy the comparison; a NULL never does. */
  lemma ScanComparesNumbers<R>(
      cast: Cast, store: Store<R>, self: R, t: TableData<R>, q: Query, w: Value,
      out: TableData<R>, other: R, e: Entry<R>)
    requires Scannable(store, t) && KnownAs(store, t, self) && q.column < |t.schema.types|
    requires q.search.NonNull? && cast(t.schema.types[q.column], q.search.value) == Some(w)
    requires Scan(cast, store, self, t, q) == Some(out) && e in Entries(store, self, t)
    ensures Scannable(store, out) && |e.row| == |t.schema.types|
    ensures multiset(Entries(store, other, out))[e] ==
              if e in Entries(store, other, out) then multiset(Entries(store, self, t))[e] else 0
    ensures e.row[q.column].Null? ==> e !in Entries(store, other, out)
    ensures e.row[q.column].NonNull? ==>
            var shown := e in Entries(store, other, out);
            match (e.row[q.column].value, w)
            case (Int(x), Int(y)) =>
              (match q.op
               case OpEquals => shown <==> x == y
               case OpNotEquals => shown <==> x != y
               case OpLessThan => shown <==> x < y
               case OpLessThanEquals => shown <==> x <= y
               case OpGreaterThan => shown <==> x > y
               case OpGreaterThanEquals => shown <==> x >= y)
            case (Long(x), Long(y)) =>
              (match q.op
               case OpEquals => shown <==> x == y
               case OpNotEquals => shown <==> x != y
               case OpLessThan => shown <==> x < y
               case OpLessThanEquals => shown <==> x <= y
               case OpGreaterThan => shown <==> x > y
               case OpGreaterThanEquals => shown <==> x >= y)
            case (Float(x), Float(y)) =>
              (match q.op
               case OpEquals => shown <==> x == y
               case OpNotEquals => shown <==> x != y
               case OpLessThan => shown <==> x < y
               case OpLessThanEquals => shown <==> x <= y
               case OpGreaterThan => shown <==> x > y
               case OpGreaterThanEquals => shown <==> x >= y)
            case (Double(x), Double(y)) =>
              (match q.op
               case OpEquals => shown <==> x == y
               case OpNotEquals => shown <==> x != y
               case OpLessThan => shown <==> x < y
               case OpLessThanEquals => shown <==> x <= y
               case OpGreaterThan => shown <==> x > y
               case OpGreaterThanEquals => shown <==> x >= y)
            case _ => true
  {
    ScanShowsMatches(cast, store, self, t, q, w, out, other, e);
  }

  /** The same for strings, in dictionary order. */
  lemma ScanComparesStrings<R>(
      cast: Cast, store: Store<R>, self: R, t: TableData<R>, q: Query, w: Value,
      out: TableData<R>, other: R, e: Entry<R>)
    requires Scannable(store, t) && KnownAs(store, t, self) && q.column < |t.schema.types|
    requires q.search.NonNull? && cast(t.schema.types[q.column], q.search.value) == Some(w)
    requires Scan(cast, store, self, t, q) == Some(out) && e in Entries(store, self, t)
    ensures Scannable(store, out) && |e.row| == |t.schema.types|
    ensures multiset(Entries(store, other, out))[e] ==
              if e in Entries(store, other, out) then multiset(Entries(store, self, t))[e] else 0
    ensures e.row[q.column].Null? ==> e !in Entries(store, other, out)
    ensures e.row[q.column].NonNull? && e.row[q.column].value.Text? && w.Text? ==>
            var shown, x, y := e in Entries(store, other, out), e.row[q.column].value.s, w.s;
            match q.op
            case OpEquals => shown <==> x == y
            case OpNotEquals => shown <==> x != y
            case OpLessThan => shown <==> ComesBefore(x, y)
            case OpLessThanEquals => shown <==> x == y || ComesBefore(x, y)
            case OpGreaterThan => shown <==> ComesBefore(y, x)
            case OpGreaterThanEquals => shown <==> x == y || ComesBefore(y, x)
  {
    ScanShowsMatches(cast, store, self, t, q, w, out, other, e);
    var cell := e.row[q.column];
    if cell.NonNull? && cell.value.Text? && w.Text? {
      StringsCompare(q.op, cell.value.s, w.s);
    }
  }

  /** A scan shows nothing else. */
  lemma ScanShowsOnlyEntries<R>(
      cast: Cast, store: Store<R>, self: R, t: TableData<R>, q: Query, out: TableData<R>, other: R, e: Entry<R>)
    requires Scannable(store, t) && KnownAs(store, t, self) && Castable(cast, t.schema.types, q)
    requires Scan(cast, store, self, t, q) == Some(out)
    ensures Scannable(store, out)
    ensures e in Entries(store, other, out) ==> e in Entries(store, self, t)
  {
    ScanSelectsEntries(cast, store, self, t, q, other);
    if q.search.NonNull? {
      SelectIsSubset(Entries(store, self, t), TestOf(cast, t.schema.types, q));
    }
  }
}
