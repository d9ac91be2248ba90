/** Sessions: scans of scan results, while operations go on changing the base table. */
module Sessions {
  import opened Types
  import opened TableModel
  import opened ScanModel
  import opened ScanTheorems
  import opened ScanChains
  import opened Runs
  import opened RunTheorems
  import opened Stability

  /** One event: an operation on the base table, or a scan of the latest result, which is known as `self`. */
  datatype Event<R> = Change(op: Operation) | Refine(query: Query, self: R)

  datatype Session<R> = Session(store: Store<R>, result: TableData<R>)

  /** The session after an event; None when the operation is refused or the scan throws. */
  ghost function PlayEvent<R>(cast: Cast, base: R, s: Session<R>, e: Event<R>): Option<Session<R>>
    requires base in s.store
  {
    match e
    case Change(op) =>
      (match Step(cast, s.store[base], op)
       case None => None
       case Some(t) => Some(s.(store := s.store[base := t])))
    case Refine(q, self) =>
      if !Scannable(s.store, s.result) || q.column >= |s.result.schema.types| then None
      else
        match Scan(cast, s.store, self, s.result, q)
        case None => None
        case Some(t) => Some(s.(result := t))
  }

  ghost function Play<R>(cast: Cast, base: R, s: Session<R>, events: seq<Event<R>>): (end: Option<Session<R>>)
    requires base in s.store
    ensures end.Some? ==> base in end.value.store
  {
    if events == [] then Some(s)
    else
      match Play(cast, base, s, events[..|events| - 1])
      case None => None
      case Some(before) => PlayEvent(cast, base, before, events[|events| - 1])
  }

  function ChangeOf<R>(e: Event<R>): seq<Operation> {
    if e.Change? then [e.op] else []
  }

  function Operations<R>(events: seq<Event<R>>): seq<Operation> {
    if events == [] then [] else Operations(events[..|events| - 1]) + ChangeOf(events[|events| - 1])
  }

  function Queries<R>(events: seq<Event<R>>): seq<Query> {
    if events == [] then []
    else
      var e := events[|events| - 1];
      Queries(events[..|events| - 1]) + if e.Refine? then [e.query] else []
  }

  /** The identities under which the successive results are scanned. */
  function Selfs<R>(events: seq<Event<R>>): (selfs: seq<R>)
    ensures |selfs| == |Queries(events)|
  {
    if events == [] then []
    else
      var e := events[|events| - 1];
      Selfs(events[..|events| - 1]) + if e.Refine? then [e.self] else []
  }

  /** The scans of a session, run one after the other with no operation between them. */
  ghost function Refined<R>(cast: Cast, store: Store<R>, t: TableData<R>, events: seq<Event<R>>): (out: TableData<R>)
    requires Scannable(store, t) && OnlyReferences(t) && AllCastable(cast, t.schema.types, Queries(events))
    ensures Scannable(store, out) && OnlyReferences(out) && out.schema == t.schema
  {
    if Queries(events) == [] then t
    else
      ReferencesAreKnown(store, t, Selfs(events)[0]);
      Chain(cast, store, Selfs(events), t, Queries(events))
  }

  /** The operations of a session run on the base as if there were no scans, and touch no other table. */
  lemma {:induction false} SessionRunsOperations<R>(
      cast: Cast, schema: Schema, targetSize: nat, ops: seq<Operation>,
      base: R, s: Session<R>, events: seq<Event<R>>, end: Session<R>)
    requires schema.Valid() && base in s.store && Reaches(cast, schema, targetSize, ops, s.store[base])
    requires Play(cast, base, s, events) == Some(end)
    ensures Reaches(cast, schema, targetSize, ops + Operations(events), end.store[base])
    ensures end.store == s.store[base := end.store[base]]
  {
    if events == [] {
      assert ops + [] == ops;
    } else {
      var n := |events| - 1;
      var before := Play(cast, base, s, events[..n]).value;
      SessionRunsOperations(cast, schema, targetSize, ops, base, s, events[..n], before);
      match events[n]
      case Change(op) =>
        assert ops + Operations(events) == (ops + Operations(events[..n])) + [op];
        RunPush<R>(cast, Initial(schema, targetSize), ops + Operations(events[..n]), op);
      case Refine(_, _) =>
        assert Operations(events) == Operations(events[..n]);
    }
  }

  /** A chain of scans shows only entries of its base. */
  lemma {:induction false} ChainSelectsEntries<R>(
      cast: Cast, store: Store<R>, selfs: seq<R>, t: TableData<R>, qs: seq<Query>, other: R)
    requires Scannable(store, t) && |selfs| == |qs| > 0 && KnownAs(store, t, selfs[0])
    requires AllCastable(cast, t.schema.types, qs)
    ensures forall e :: e in Entries(store, other, Chain(cast, store, selfs, t, qs)) ==>
              e in Entries(store, selfs[0], t)
  {
    var n := |qs| - 1;
    var input := Chain(cast, store, selfs[..n], t, qs[..n]);
    LastScan(cast, store, selfs, t, qs);
    ScanSelectsEntries(cast, store, selfs[n], input, qs[n], other);
    if qs[n].search.NonNull? {
      SelectIsSubset(Entries(store, selfs[n], input), TestOf(cast, t.schema.types, qs[n]));
    }
    if n > 0 {
      ChainSelectsEntries(cast, store, selfs[..n], t, qs[..n], selfs[n]);
    }
  }

  lemma {:induction false} ConcatContains<T>(lists: seq<seq<T>>, i: nat, e: T)
    requires i < |lists| && e in lists[i]
    ensures e in Concat(lists)
  {
    var n := |lists| - 1;
    if i < n {
      ConcatContains(lists[..n], i, e);
    }
  }

  lemma {:induction false} ListOf<T>(lists: seq<seq<T>>, e: T) returns (i: nat)
    requires e in Concat(lists)
    ensures i < |lists| && e in lists[i]
  {
    var n := |lists| - 1;
    if e in lists[n] {
      i := n;
    } else {
      i := ListOf(lists[..n], e);
    }
  }

  ghost predicate MisreadEntry<R>(schema: Schema, before: seq<LogChunk>, after: seq<LogChunk>, base: R, e: Entry<R>)
    requires schema.Valid() && LogOk(schema, after)
  {
    e.target == base && MisreadSince(schema, before, after, e.position)
  }

  /** A result that shows a row misread since has an entry that names it. */
  lemma MisreadEntryOf<R>(schema: Schema, before: seq<LogChunk>, after: seq<LogChunk>,
                          store: Store<R>, base: R, out: TableData<R>, self: R)
    returns (e: Entry<R>)
    requires schema.Valid() && LogOk(schema, after) && Scannable(store, out)
    requires ShowsMisread(schema, before, after, base, out)
    ensures e in Entries(store, self, out) && MisreadEntry(schema, before, after, base, e)
  {
    var i :| 0 <= i < |out.chunks| && ChunkShowsMisread(schema, before, after, base, out.chunks[i]);
    var positions := out.chunks[i][0].positions;
    var k :| 0 <= k < |positions| && MisreadSince(schema, before, after, positions[k]);
    var list := ChunkEntries(store, self, out, i);
    e := list[k];
    assert EntryLists(store, self, out)[i] == list;
    ConcatContains(EntryLists(store, self, out), i, e);
  }

  lemma EntryIsShown<R>(schema: Schema, before: seq<LogChunk>, after: seq<LogChunk>,
                        store: Store<R>, base: R, out: TableData<R>, self: R, e: Entry<R>)
    requires schema.Valid() && LogOk(schema, after) && Scannable(store, out) && OnlyReferences(out)
    requires e in Entries(store, self, out) && MisreadEntry(schema, before, after, base, e)
    ensures ShowsMisread(schema, before, after, base, out)
  {
    var i := ListOf(EntryLists(store, self, out), e);
    var list := ChunkEntries(store, self, out, i);
    var k :| 0 <= k < |list| && list[k] == e;
    assert out.chunks[i][0].positions[k] == e.position;
    assert ChunkShowsMisread(schema, before, after, base, out.chunks[i]);
  }

  /** Scanning a result never brings in a row misread since. */
  lemma RefinedShowsNoMore<R>(cast: Cast, schema: Schema, before: seq<LogChunk>, after: seq<LogChunk>,
                              store: Store<R>, base: R, t: TableData<R>, events: seq<Event<R>>)
    requires schema.Valid() && LogOk(schema, after)
    requires Scannable(store, t) && OnlyReferences(t) && AllCastable(cast, t.schema.types, Queries(events))
    ensures ShowsMisread(schema, before, after, base, Refined(cast, store, t, events)) ==>
              ShowsMisread(schema, before, after, base, t)
  {
    var selfs, out := Selfs(events), Refined(cast, store, t, events);
    if Queries(events) != [] && ShowsMisread(schema, before, after, base, out) {
      ReferencesAreKnown(store, t, selfs[0]);
      ChainSelectsEntries(cast, store, selfs, t, Queries(events), selfs[0]);
      var e := MisreadEntryOf(schema, before, after, store, base, out, selfs[0]);
      EntryIsShown(schema, before, after, store, base, t, selfs[0], e);
    }
  }

  /** What is misread stays misread. */
  lemma MisreadStays<R>(schema: Schema, log: seq<LogChunk>, middle: seq<LogChunk>, after: seq<LogChunk>,
                        base: R, out: TableData<R>)
    requires schema.Valid() && LogOk(schema, middle) && LogOk(schema, after) && GrowsTo(middle, after)
    ensures ShowsMisread(schema, log, middle, base, out) ==> ShowsMisread(schema, log, after, base, out)
  {
    forall p | MisreadSince(schema, log, middle, p)
      ensures MisreadSince(schema, log, after, p)
    {
    }
    if i :| 0 <= i < |out.chunks| && ChunkShowsMisread(schema, log, middle, base, out.chunks[i]) {
      assert ChunkShowsMisread(schema, log, after, base, out.chunks[i]);
    }
  }

  /** A session starts with a table that a run has reached, and a result of scans. */
  ghost predicate Starts<R>(cast: Cast, schema: Schema, targetSize: nat, ops: seq<Operation>, base: R, s: Session<R>)
    requires schema.Valid()
  {
    && schema.types != [] && base in s.store && Reaches(cast, schema, targetSize, ops, s.store[base])
    && Scannable(s.store, s.result) && OnlyReferences(s.result)
  }

  /** The further operations misread no row of a result. */
  ghost predicate ReadsOn<R>(
      cast: Cast, schema: Schema, targetSize: nat, ops: seq<Operation>, more: seq<Operation>,
      base: R, out: TableData<R>)
    requires schema.Valid()
  {
    var log, grown := LogRun(cast, schema, targetSize, ops), LogRun(cast, schema, targetSize, ops + more);
    LogOk(schema, grown) && !ShowsMisread(schema, log, grown, base, out)
  }

  lemma PrefixQueries<R>(cast: Cast, types: seq<DataType>, events: seq<Event<R>>)
    requires events != [] && AllCastable(cast, types, Queries(events))
    ensures var n, m := |events| - 1, |Queries(events)| - 1;
            && AllCastable(cast, types, Queries(events[..n]))
            && if events[n].Change? then Queries(events[..n]) == Queries(events) && Selfs(events[..n]) == Selfs(events)
               else
                 && Queries(events) != []
                 && Queries(events)[..m] == Queries(events[..n]) && Queries(events)[m] == events[n].query
                 && Selfs(events)[..m] == Selfs(events[..n]) && Selfs(events)[m] == events[n].self
  {
    var n := |events| - 1;
    assert forall i :: 0 <= i < |Queries(events[..n])| ==> Queries(events[..n])[i] == Queries(events)[i];
  }

  ghost predicate ResultReadable<R>(types: seq<DataType>, s: Session<R>) {
    Scannable(s.store, s.result) && OnlyReferences(s.result) && s.result.schema.types == types
  }

  /** An operation on the base leaves the latest result readable, even when it misreads some of its rows. */
  lemma ChangeStaysReadable<R>(
      cast: Cast, schema: Schema, targetSize: nat, ops: seq<Operation>,
      base: R, s: Session<R>, op: Operation, types: seq<DataType>)
    requires schema.Valid() && schema.types != [] && base in s.store
    requires Reaches(cast, schema, targetSize, ops, s.store[base])
    requires ResultReadable(types, s) && Step(cast, s.store[base], op).Some?
    ensures ResultReadable(types, s.(store := s.store[base := Step(cast, s.store[base], op).value]))
  {
    var moved := Step(cast, s.store[base], op).value;
    RunPush<R>(cast, Initial(schema, targetSize), ops, op);
    OperationsMoveBase(cast, schema, targetSize, ops, [op], s.store[base], moved);
    MovedResultIsScannable(schema, LogRun(cast, schema, targetSize, ops), LogRun(cast, schema, targetSize, ops + [op]),
                           s.store, base, moved, s.result);
  }

  lemma ScanStaysReadable<R>(cast: Cast, s: Session<R>, q: Query, self: R, types: seq<DataType>)
    requires ResultReadable(types, s) && Castable(cast, types, q)
    ensures Scan(cast, s.store, self, s.result, q).Some?
    ensures ResultReadable(types, s.(result := Scan(cast, s.store, self, s.result, q).value))
  {
    ReferencesAreKnown(s.store, s.result, self);
    ScanSelects(cast, s.store, self, s.result, q, self);
  }

  lemma EventCompletesIff<R>(cast: Cast, schema: Schema, targetSize: nat, ops: seq<Operation>,
                             base: R, s: Session<R>, e: Event<R>, types: seq<DataType>)
    requires schema.Valid() && schema.types != [] && base in s.store
    requires Reaches(cast, schema, targetSize, ops, s.store[base])
    requires ResultReadable(types, s) && (e.Refine? ==> Castable(cast, types, e.query))
    ensures PlayEvent(cast, base, s, e).Some? <==> Run<R>(cast, Initial(schema, targetSize), ops + ChangeOf(e)).Some?
    ensures PlayEvent(cast, base, s, e).Some? ==> ResultReadable(types, PlayEvent(cast, base, s, e).value)
  {
    match e
    case Change(op) =>
      RunPush<R>(cast, Initial(schema, targetSize), ops, op);
      if Step(cast, s.store[base], op).Some? {
        ChangeStaysReadable(cast, schema, targetSize, ops, base, s, op, types);
      }
    case Refine(q, self) =>
      assert ops + ChangeOf(e) == ops;
      ScanStaysReadable(cast, s, q, self, types);
  }

  lemma RunPrefix<R>(cast: Cast, t: TableData<R>, ops: seq<Operation>, op: seq<Operation>)
    requires |op| <= 1 && Run(cast, t, ops).None?
    ensures Run(cast, t, ops + op).None?
  {
    if op == [] {
      assert ops + op == ops;
    } else {
      RunPush(cast, t, ops, op[0]);
      assert op == [op[0]];
    }
  }

  /** A session completes exactly when its operations do without the scans: no scan of a result ever
      throws, and every result can be read, whatever the operations have done to its base. */
  lemma {:induction false} SessionCompletesIff<R>(
      cast: Cast, schema: Schema, targetSize: nat, ops: seq<Operation>, base: R, s: Session<R>, events: seq<Event<R>>)
    requires schema.Valid() && Starts(cast, schema, targetSize, ops, base, s)
    requires AllCastable(cast, s.result.schema.types, Queries(events))
    ensures Play(cast, base, s, events).Some? <==>
              Run<R>(cast, Initial(schema, targetSize), ops + Operations(events)).Some?
    ensures Play(cast, base, s, events).Some? ==>
              ResultReadable(s.result.schema.types, Play(cast, base, s, events).value)
  {
    if events == [] {
      assert ops + [] == ops;
    } else {
      var n, types := |events| - 1, s.result.schema.types;
      var soFar := ops + Operations(events[..n]);
      assert ops + Operations(events) == soFar + ChangeOf(events[n]);
      PrefixQueries(cast, types, events);
      SessionCompletesIff(cast, schema, targetSize, ops, base, s, events[..n]);
      if Play(cast, base, s, events[..n]).Some? {
        var before := Play(cast, base, s, events[..n]).value;
        SessionRunsOperations(cast, schema, targetSize, ops, base, s, events[..n], before);
        EventCompletesIff(cast, schema, targetSize, soFar, base, before, events[n], types);
      } else {
        RunPrefix<R>(cast, Initial(schema, targetSize), soFar, ChangeOf(events[n]));
      }
    }
  }

  /** One more scan in a session finds what it would have found before any of the operations. */
  lemma ScanSeesSameRows<R>(
      cast: Cast, schema: Schema, targetSize: nat, ops: seq<Operation>,
      base: R, s: Session<R>, events: seq<Event<R>>, now: Session<R>, q: Query, self: R)
    requires schema.Valid() && Starts(cast, schema, targetSize, ops, base, s)
    requires AllCastable(cast, s.result.schema.types, Queries(events)) && q.column < |s.result.schema.types|
    requires Play(cast, base, s, events) == Some(now) && now.result == Refined(cast, s.store, s.result, events)
    requires ReadsOn(cast, schema, targetSize, ops, Operations(events), base, s.result)
    ensures Scannable(now.store, now.result)
    ensures Rows(now.store, self, now.result) == Rows(s.store, self, now.result)
    ensures Scan(cast, now.store, self, now.result, q) == Scan(cast, s.store, self, now.result, q)
  {
    SessionRunsOperations(cast, schema, targetSize, ops, base, s, events, now);
    RefinedShowsNoMore(cast, schema, LogRun(cast, schema, targetSize, ops),
                       LogRun(cast, schema, targetSize, ops + Operations(events)), s.store, base, s.result, events);
    ScanResultsStayStable(cast, schema, targetSize, ops, Operations(events),
                          s.store, base, now.store[base], now.result, q, self);
  }

  lemma LastEventGrowsLog<R>(cast: Cast, schema: Schema, targetSize: nat, ops: seq<Operation>, events: seq<Event<R>>)
    requires schema.Valid() && events != []
    ensures GrowsTo(LogRun(cast, schema, targetSize, ops + Operations(events[..|events| - 1])),
                    LogRun(cast, schema, targetSize, ops + Operations(events)))
  {
    var n := |events| - 1;
    var soFar, last := ops + Operations(events[..n]), ChangeOf(events[n]);
    assert ops + Operations(events) == soFar + last;
    LogOnlyGrows(cast, schema, targetSize, soFar, last);
  }

  lemma PrefixReadsOn<R>(cast: Cast, schema: Schema, targetSize: nat, ops: seq<Operation>,
                         base: R, s: Session<R>, events: seq<Event<R>>, n: nat)
    requires schema.Valid() && Starts(cast, schema, targetSize, ops, base, s)
    requires n == |events| - 1 && Play(cast, base, s, events).Some?
    requires ReadsOn(cast, schema, targetSize, ops, Operations(events), base, s.result)
    ensures ReadsOn(cast, schema, targetSize, ops, Operations(events[..n]), base, s.result)
  {
    var before := Play(cast, base, s, events[..n]).value;
    SessionRunsOperations(cast, schema, targetSize, ops, base, s, events[..n], before);
    RunStoresLog<R>(cast, schema, targetSize, ops + Operations(events[..n]));
    LastEventGrowsLog(cast, schema, targetSize, ops, events);
    MisreadStays(schema, LogRun(cast, schema, targetSize, ops),
                 LogRun(cast, schema, targetSize, ops + Operations(events[..n])),
                 LogRun(cast, schema, targetSize, ops + Operations(events)), base, s.result);
  }

  lemma RefinedByOneMore<R>(cast: Cast, store: Store<R>, t: TableData<R>, events: seq<Event<R>>)
    requires Scannable(store, t) && OnlyReferences(t) && AllCastable(cast, t.schema.types, Queries(events))
    requires events != [] && events[|events| - 1].Refine?
    ensures var n := |events| - 1;
            && AllCastable(cast, t.schema.types, Queries(events[..n]))
            && Castable(cast, t.schema.types, events[n].query)
            && Scan(cast, store, events[n].self, Refined(cast, store, t, events[..n]), events[n].query)
               == Some(Refined(cast, store, t, events))
  {
    PrefixQueries(cast, t.schema.types, events);
    ReferencesAreKnown(store, t, Selfs(events)[0]);
    LastScan(cast, store, Selfs(events), t, Queries(events));
  }

  /** Operations between the scans make no difference: unless the first result shows a row misread
      since, a session ends with the result that its scans give on their own. */
  lemma {:induction false} SessionResultIsRefined<R>(
      cast: Cast, schema: Schema, targetSize: nat, ops: seq<Operation>,
      base: R, s: Session<R>, events: seq<Event<R>>, end: Session<R>)
    requires schema.Valid() && Starts(cast, schema, targetSize, ops, base, s)
    requires AllCastable(cast, s.result.schema.types, Queries(events)) && Play(cast, base, s, events) == Some(end)
    requires ReadsOn(cast, schema, targetSize, ops, Operations(events), base, s.result)
    ensures end.result == Refined(cast, s.store, s.result, events)
  {
    if events != [] {
      var n := |events| - 1;
      var before := Play(cast, base, s, events[..n]).value;
      PrefixReadsOn(cast, schema, targetSize, ops, base, s, events, n);
      PrefixQueries(cast, s.result.schema.types, events);
      SessionResultIsRefined(cast, schema, targetSize, ops, base, s, events[..n], before);
      match events[n]
      case Change(_) =>
      case Refine(q, self) =>
        RefinedByOneMore(cast, s.store, s.result, events);
        ScanSeesSameRows(cast, schema, targetSize, ops, base, s, events[..n], before, q, self);
    }
  }

  /** What the last result of a session reads, at its end: the rows of the first one that satisfy
      all queries since. */
  lemma SessionReads<R>(
      cast: Cast, schema: Schema, targetSize: nat, ops: seq<Operation>,
      base: R, s: Session<R>, events: seq<Event<R>>, end: Session<R>, self: R, other: R)
    requires schema.Valid() && Starts(cast, schema, targetSize, ops, base, s)
    requires AllCastable(cast, s.result.schema.types, Queries(events)) && Play(cast, base, s, events) == Some(end)
    requires ReadsOn(cast, schema, targetSize, ops, Operations(events), base, s.result)
    ensures Scannable(end.store, end.result)
    ensures Rows(end.store, other, end.result)
            == FilterAll(cast, s.result.schema.types, Queries(events), Rows(s.store, self, s.result))
  {
    SessionResultIsRefined(cast, schema, targetSize, ops, base, s, events, end);
    var anyQuery := Query(0, OpEquals, Null);
    ScanSeesSameRows(cast, schema, targetSize, ops, base, s, events, end, anyQuery, other);
    if Queries(events) == [] {
      FilterAllOfNothing(cast, s.result.schema.types, Rows(s.store, self, s.result));
      IdentityDoesNotMatter(s.store, s.result, self, other);
    } else {
      var known := Selfs(events)[0];
      ReferencesAreKnown(s.store, s.result, known);
      ChainIsConjunction(cast, s.store, Selfs(events), s.result, Queries(events), known, other);
      IdentityDoesNotMatter(s.store, s.result, self, known);
    }
  }

  /** A table of references reads and scans the same under whatever identity it is known. */
  lemma IdentityDoesNotMatter<R>(store: Store<R>, t: TableData<R>, a: R, b: R)
    requires Scannable(store, t) && OnlyReferences(t)
    ensures EntryLists(store, a, t) == EntryLists(store, b, t)
  {
    forall i | 0 <= i < |t.chunks|
      ensures ChunkEntries(store, a, t, i) == ChunkEntries(store, b, t, i)
    {
    }
  }

  /** Filtering by one query first and by the others afterwards. */
  lemma {:induction false} FilterAllStarts(
      cast: Cast, types: seq<DataType>, first: Query, qs: seq<Query>, rows: seq<Row>)
    requires AllCastable(cast, types, [first] + qs)
    ensures Castable(cast, types, first) && AllCastable(cast, types, qs)
    ensures FilterAll(cast, types, [first] + qs, rows) == FilterAll(cast, types, qs, Answer(cast, types, first, rows))
  {
    var all, n := [first] + qs, |qs|;
    assert all[0] == first && forall i :: 0 <= i < n ==> all[i + 1] == qs[i];
    FilterAllSplits(cast, types, all, rows);
    if qs == [] {
      assert all[..0] == [];
      FilterAllOfNothing(cast, types, rows);
      FilterAllOfNothing(cast, types, Answer(cast, types, first, rows));
    } else {
      assert all[..n] == [first] + qs[..n - 1];
      FilterAllStarts(cast, types, first, qs[..n - 1], rows);
      FilterAllSplits(cast, types, qs, Answer(cast, types, first, rows));
    }
  }

  lemma FirstScan<R>(
      cast: Cast, schema: Schema, targetSize: nat, ops: seq<Operation>,
      store: Store<R>, base: R, first: Query, out: TableData<R>)
    requires schema.Valid() && schema.types != [] && SafeLog(schema, LogRun(cast, schema, targetSize, ops))
    requires base in store && Reaches(cast, schema, targetSize, ops, store[base])
    requires Scannable(store, store[base]) && store[base].schema == schema && Castable(cast, schema.types, first)
    requires Scan(cast, store, base, store[base], first) == Some(out)
    ensures Starts(cast, schema, targetSize, ops, base, Session(store, out)) && out.schema == schema
    ensures Rows(store, base, out) == Answer(cast, schema.types, first, AppendedRows(cast, schema, ops))
  {
    RunShowsAppendedRowsIffSafe(cast, schema, targetSize, ops, store[base], store, base);
    ScanSelects(cast, store, base, store[base], first, base);
    ScanIsFilter(cast, store, base, store[base], first, base);
  }

  /** The end to end result with time in it: a first scan of a table that a run has reached, then any
      further operations on that table and any scans of the latest result, in any order. The last
      result can be read at the end, and shows the rows appended before the first scan that satisfy
      all queries, if the compressions before the first scan and those of its chunks since were safe. */
  lemma SessionFiltersAppendedRows<R>(
      cast: Cast, schema: Schema, targetSize: nat, ops: seq<Operation>,
      store: Store<R>, base: R, first: Query, out: TableData<R>, events: seq<Event<R>>, end: Session<R>, other: R)
    requires schema.Valid() && schema.types != [] && SafeLog(schema, LogRun(cast, schema, targetSize, ops))
    requires base in store && Reaches(cast, schema, targetSize, ops, store[base])
    requires Scannable(store, store[base]) && store[base].schema == schema
    requires AllCastable(cast, schema.types, [first] + Queries(events)) && Castable(cast, schema.types, first)
    requires Scan(cast, store, base, store[base], first) == Some(out)
    requires Play(cast, base, Session(store, out), events) == Some(end)
    requires CompressedSafely(schema, LogRun(cast, schema, targetSize, ops),
                              LogRun(cast, schema, targetSize, ops + Operations(events)))
    ensures Scannable(end.store, end.result)
    ensures Rows(end.store, other, end.result)
            == FilterAll(cast, schema.types, [first] + Queries(events), AppendedRows(cast, schema, ops))
  {
    FirstScan(cast, schema, targetSize, ops, store, base, first, out);
    FilterAllStarts(cast, schema.types, first, Queries(events), AppendedRows(cast, schema, ops));
    SafeCompressionsMisreadNothing(schema, LogRun(cast, schema, targetSize, ops),
                                   LogRun(cast, schema, targetSize, ops + Operations(events)), base, out);
    SessionReads(cast, schema, targetSize, ops, base, Session(store, out), events, end, base, other);
  }
}
