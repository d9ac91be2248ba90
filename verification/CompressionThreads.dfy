/**
 `compress_chunk` as a protocol: the main thread starts one thread per column, joins
 them in order while collecting their segments, and then replaces the live chunk. The
 column threads run in any interleaving with it and with each other.
 */
module CompressionThreads {
  import opened Types
  import opened Segments
  import opened Encoding
  import opened TableModel

  /** A thread: the column id it was started with, and what it holds of that column so far. */
  datatype Worker =
    | NotStarted
    | Started(column: nat)
    | Loaded(column: nat, segment: StoredSegment)
    | Compressed(column: nat, segment: StoredSegment)
    | Finished(column: nat)

  datatype State<R> = State(
    live: ChunkData<R>,
    workers: seq<Worker>,
    slots: seq<Option<StoredSegment>>,
    started: nat,
    collected: ChunkData<R>,
    published: bool)

  /** The next step of the main thread, or of one of the threads it started. */
  datatype Action = Start | Work(thread: nat) | Join | Publish

  ghost function Init<R>(chunk: ChunkData<R>): State<R> {
    State(chunk, seq(|chunk|, i => NotStarted), seq(|chunk|, i => None), 0, [], false)
  }

  /** One atomic step; None when the action is blocked. */
  ghost function Next<R>(s: State<R>, a: Action): Option<State<R>> {
    match a
    case Start =>
      if s.started < |s.workers| && s.workers[s.started].NotStarted?
      then Some(s.(workers := s.workers[s.started := Started(s.started)], started := s.started + 1)) else None
    case Work(i) =>
      if i >= |s.workers| then None else
      (match s.workers[i]
       case Started(c) =>
         if c < |s.live| && s.live[c].Stored?
         then Some(s.(workers := s.workers[i := Loaded(c, s.live[c].seg)])) else None
       case Loaded(c, segment) =>
         if segment.ValueData? && segment.Readable()
         then Some(s.(workers := s.workers[i := Compressed(c, Encode(segment))])) else None
       case Compressed(c, segment) =>
         if c < |s.slots|
         then Some(s.(workers := s.workers[i := Finished(c)], slots := s.slots[c := Some(segment)])) else None
       case _ => None)
    case Join =>
      var j := |s.collected|;
      if s.started == |s.workers| && j < |s.workers| && s.workers[j].Finished? && j < |s.slots| && s.slots[j].Some?
      then Some(s.(collected := s.collected + [Stored(s.slots[j].value)])) else None
    case Publish =>
      if s.started == |s.workers| && |s.collected| == |s.workers| && !s.published
      then Some(s.(live := s.collected, published := true)) else None
  }

  /** The state after a schedule; None when some action of it was blocked. */
  ghost function Execute<R>(chunk: ChunkData<R>, schedule: seq<Action>): Option<State<R>> {
    if schedule == [] then Some(Init(chunk))
    else
      match Execute(chunk, schedule[..|schedule| - 1])
      case None => None
      case Some(s) => Next(s, schedule[|schedule| - 1])
  }

  /** Thread `i` holds only its own column, and fills the slot of that column when it finishes. */
  ghost predicate WorkerOk(i: nat, segment: StoredSegment, w: Worker, slot: Option<StoredSegment>)
    requires segment.ValueData? && segment.Readable()
  {
    && (!w.NotStarted? ==> w.column == i)
    && (w.Loaded? ==> w.segment == segment)
    && (w.Compressed? ==> w.segment == Encode(segment))
    && slot == if w.Finished? then Some(Encode(segment)) else None
  }

  ghost predicate ThreadsOk<R>(types: seq<DataType>, chunk: ChunkData<R>, s: State<R>)
    requires Compressible(types, chunk)
  {
    && |s.workers| == |s.slots| == |types| && s.started <= |types|
    && forall i :: 0 <= i < |types| ==>
         && WorkerOk(i, chunk[i].seg, s.workers[i], s.slots[i])
         && (s.workers[i].NotStarted? <==> i >= s.started)
  }

  /** The main thread has joined the first threads and collected what they compressed. */
  ghost predicate CollectedOk<R>(types: seq<DataType>, chunk: ChunkData<R>, s: State<R>)
    requires Compressible(types, chunk)
  {
    && |s.collected| <= |types| == |s.workers|
    && (s.collected != [] ==> s.started == |types|)
    && forall i :: 0 <= i < |s.collected| ==>
         s.workers[i].Finished? && s.collected[i] == CompressedChunk(types, chunk)[i]
  }

  ghost predicate LiveOk<R>(types: seq<DataType>, chunk: ChunkData<R>, s: State<R>)
    requires Compressible(types, chunk)
  {
    if s.published then s.started == |s.collected| == |types| && s.live == CompressedChunk(types, chunk)
    else s.live == chunk
  }

  /** What holds between any two steps of any schedule. */
  ghost predicate Invariant<R>(types: seq<DataType>, chunk: ChunkData<R>, s: State<R>)
    requires Compressible(types, chunk)
  {
    ThreadsOk(types, chunk, s) && CollectedOk(types, chunk, s) && LiveOk(types, chunk, s)
  }

  lemma WorkKeepsInvariant<R>(types: seq<DataType>, chunk: ChunkData<R>, s: State<R>, i: nat)
    requires Compressible(types, chunk) && Invariant(types, chunk, s) && Next(s, Work(i)).Some?
    ensures Invariant(types, chunk, Next(s, Work(i)).value)
  {
    assert WorkerOk(i, chunk[i].seg, s.workers[i], s.slots[i]);
    assert s.workers[i].Started? ==> |s.collected| <= i && s.live == chunk;
  }

  lemma JoinKeepsInvariant<R>(types: seq<DataType>, chunk: ChunkData<R>, s: State<R>)
    requires Compressible(types, chunk) && Invariant(types, chunk, s) && Next(s, Join).Some?
    ensures Invariant(types, chunk, Next(s, Join).value)
  {
    var j := |s.collected|;
    assert WorkerOk(j, chunk[j].seg, s.workers[j], s.slots[j]);
  }

  lemma NextKeepsInvariant<R>(types: seq<DataType>, chunk: ChunkData<R>, s: State<R>, a: Action)
    requires Compressible(types, chunk) && Invariant(types, chunk, s) && Next(s, a).Some?
    ensures Invariant(types, chunk, Next(s, a).value)
  {
    match a
    case Start =>
    case Work(i) =>
      WorkKeepsInvariant(types, chunk, s, i);
    case Join =>
      JoinKeepsInvariant(types, chunk, s);
    case Publish =>
      assert s.collected == CompressedChunk(types, chunk);
  }

  lemma {:induction false} ScheduleKeepsInvariant<R>(types: seq<DataType>, chunk: ChunkData<R>, schedule: seq<Action>)
    requires Compressible(types, chunk) && Execute(chunk, schedule).Some?
    ensures Invariant(types, chunk, Execute(chunk, schedule).value)
  {
    if schedule != [] {
      var n := |schedule| - 1;
      ScheduleKeepsInvariant(types, chunk, schedule[..n]);
      NextKeepsInvariant(types, chunk, Execute(chunk, schedule[..n]).value, schedule[n]);
    }
  }

  // ----- Progress -----

  function StepsLeft(w: Worker): nat {
    match w
    case NotStarted => 4
    case Started(_) => 3
    case Loaded(_, _) => 2
    case Compressed(_, _) => 1
    case Finished(_) => 0
  }

  ghost function TotalLeft(workers: seq<Worker>): nat {
    if workers == [] then 0 else TotalLeft(workers[..|workers| - 1]) + StepsLeft(workers[|workers| - 1])
  }

  lemma {:induction false} TotalLeftUpdate(workers: seq<Worker>, i: nat, w: Worker)
    requires i < |workers|
    ensures TotalLeft(workers[i := w]) == TotalLeft(workers) - StepsLeft(workers[i]) + StepsLeft(w)
  {
    var n := |workers| - 1;
    if i < n {
      TotalLeftUpdate(workers[..n], i, w);
      assert workers[i := w][..n] == workers[..n][i := w];
    } else {
      assert workers[i := w][..n] == workers[..n];
    }
  }

  lemma {:induction false} TotalLeftOfIdle(n: nat)
    ensures TotalLeft(seq(n, i => NotStarted)) == 4 * n
  {
    if n > 0 {
      TotalLeftOfIdle(n - 1);
      assert seq(n, i => NotStarted)[..n - 1] == seq(n - 1, i => NotStarted);
    }
  }

  ghost function Measure<R>(s: State<R>): int {
    TotalLeft(s.workers) + (|s.workers| - |s.collected|) + (if s.published then 0 else 1)
  }

  lemma NextCounts<R>(s: State<R>, a: Action)
    requires Next(s, a).Some?
    ensures Measure(Next(s, a).value) == Measure(s) - 1
  {
    var after := Next(s, a).value;
    match a
    case Start =>
      TotalLeftUpdate(s.workers, s.started, after.workers[s.started]);
    case Work(i) =>
      TotalLeftUpdate(s.workers, i, after.workers[i]);
    case _ =>
  }

  lemma {:induction false} EveryStepCounts<R>(chunk: ChunkData<R>, schedule: seq<Action>)
    requires Execute(chunk, schedule).Some?
    ensures Measure(Execute(chunk, schedule).value) == 5 * |chunk| + 1 - |schedule|
  {
    if schedule == [] {
      TotalLeftOfIdle(|chunk|);
      assert Init(chunk).workers == seq(|chunk|, i => NotStarted);
    } else {
      var n := |schedule| - 1;
      EveryStepCounts(chunk, schedule[..n]);
      NextCounts(Execute(chunk, schedule[..n]).value, schedule[n]);
    }
  }

  lemma {:induction false} TotalLeftPositive(workers: seq<Worker>)
    ensures TotalLeft(workers) == 0 <==> forall i :: 0 <= i < |workers| ==> workers[i].Finished?
  {
    if workers != [] {
      var n := |workers| - 1;
      TotalLeftPositive(workers[..n]);
      assert forall i :: 0 <= i < n ==> workers[..n][i] == workers[i];
    }
  }

  /** Every state that has not published yet has an enabled action: no schedule gets stuck. */
  lemma NeverStuck<R>(types: seq<DataType>, chunk: ChunkData<R>, schedule: seq<Action>) returns (a: Action)
    requires Compressible(types, chunk) && Execute(chunk, schedule).Some?
    requires !Execute(chunk, schedule).value.published
    ensures Execute(chunk, schedule + [a]).Some?
  {
    ScheduleKeepsInvariant(types, chunk, schedule);
    var s := Execute(chunk, schedule).value;
    if s.started < |types| {
      a := Start;
    } else if j :| 0 <= j < |types| && !s.workers[j].Finished? {
      assert WorkerOk(j, chunk[j].seg, s.workers[j], s.slots[j]);
      a := Work(j);
    } else if |s.collected| < |types| {
      assert WorkerOk(|s.collected|, chunk[|s.collected|].seg, s.workers[|s.collected|], s.slots[|s.collected|]);
      a := Join;
    } else {
      a := Publish;
    }
    assert (schedule + [a])[..|schedule|] == schedule;
  }

  /** For every interleaving: the live chunk is the old one until all columns are joined, then the
      sequentially compressed one, and this happens after exactly `5n + 1` steps, never later. */
  lemma EveryInterleavingCompressesOnce<R>(types: seq<DataType>, chunk: ChunkData<R>, schedule: seq<Action>)
    requires Compressible(types, chunk) && Execute(chunk, schedule).Some?
    ensures var s := Execute(chunk, schedule).value;
            && |schedule| <= 5 * |types| + 1
            && (s.published <==> |schedule| == 5 * |types| + 1)
            && s.live == (if s.published then CompressedChunk(types, chunk) else chunk)
            && |s.workers| == |types|
            && (s.published ==> forall i :: 0 <= i < |types| ==> s.workers[i].Finished?)
  {
    EveryStepCounts(chunk, schedule);
    ScheduleKeepsInvariant(types, chunk, schedule);
    var s := Execute(chunk, schedule).value;
    TotalLeftPositive(s.workers);
  }

  /** A step that changes a slot is one of a thread that was started with the slot's column id. */
  lemma NextWritesHeldColumn<R>(s: State<R>, a: Action, i: nat)
    requires Next(s, a).Some? && i < |s.slots|
    ensures var after := Next(s, a).value;
            && |after.slots| == |s.slots|
            && (after.slots[i] != s.slots[i] ==>
                  && a.Work? && a.thread < |s.workers|
                  && s.workers[a.thread].Compressed? && s.workers[a.thread].column == i
                  && after.slots[i] == Some(s.workers[a.thread].segment))
  {
  }

  /** A slot is written only by the thread of its column, only once, and only with that column's
      encoding: no two threads ever write to the same slot. */
  lemma SlotsHaveOneWriter<R>(types: seq<DataType>, chunk: ChunkData<R>, schedule: seq<Action>, a: Action, i: nat)
    requires Compressible(types, chunk) && Execute(chunk, schedule + [a]).Some? && i < |types|
    ensures Execute(chunk, schedule).Some?
    ensures var s, after := Execute(chunk, schedule).value, Execute(chunk, schedule + [a]).value;
            && |s.slots| == |after.slots| == |types|
            && (after.slots[i] != s.slots[i] ==>
                  a == Work(i) && s.slots[i] == None && after.slots[i] == Some(Encode(chunk[i].seg)))
  {
    assert (schedule + [a])[..|schedule|] == schedule;
    ScheduleKeepsInvariant(types, chunk, schedule);
    var s := Execute(chunk, schedule).value;
    NextWritesHeldColumn(s, a, i);
    if a.Work? && a.thread < |types| {
      assert WorkerOk(a.thread, chunk[a.thread].seg, s.workers[a.thread], s.slots[a.thread]);
    }
  }
}
