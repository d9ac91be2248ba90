/**
 Searching a dictionary by value, and scanning a dictionary segment by comparing ids
 only. The id scan is the fast form of the filter `MatchPositions`.
 */
module DictionaryScan {
  import opened Types
  import opened Segments
  import opened Encoding

  // ----- Bounds -----

  /** The number of leading entries less than `v`: where `std::lower_bound` stops. */
  ghost function LowerIndex(d: seq<Value>, v: Value): (n: nat)
    ensures n <= |d|
  {
    if d == [] || !Less(d[0], v) then 0 else 1 + LowerIndex(d[1..], v)
  }

  /** The number of leading entries not greater than `v`: where `std::upper_bound` stops. */
  ghost function UpperIndex(d: seq<Value>, v: Value): (n: nat)
    ensures n <= |d|
  {
    if d == [] || Less(v, d[0]) then 0 else 1 + UpperIndex(d[1..], v)
  }

  /** Past the end maps to the sentinel. */
  function BoundId(d: seq<Value>, index: nat): nat {
    if index == |d| then INVALID_VALUE_ID else index
  }

  ghost function LowerBoundId(d: seq<Value>, v: Value): nat {
    BoundId(d, LowerIndex(d, v))
  }

  ghost function UpperBoundId(d: seq<Value>, v: Value): nat {
    BoundId(d, UpperIndex(d, v))
  }

  lemma {:induction false} LowerIndexSplits(d: seq<Value>, v: Value, i: nat)
    requires StrictlyAscending(d) && i < |d|
    ensures i < LowerIndex(d, v) <==> Less(d[i], v)
  {
    LessIsTotalOrder();
    if i > 0 {
      LowerIndexSplits(d[1..], v, i - 1);
    }
  }

  lemma {:induction false} UpperIndexSplits(d: seq<Value>, v: Value, i: nat)
    requires StrictlyAscending(d) && i < |d|
    ensures i < UpperIndex(d, v) <==> !Less(v, d[i])
  {
    LessIsTotalOrder();
    if i > 0 {
      UpperIndexSplits(d[1..], v, i - 1);
    }
  }

  /** A split index found by any search is the one the definitions name. */
  lemma BoundIndexIsUnique(d: seq<Value>, v: Value, n: nat)
    requires StrictlyAscending(d) && n <= |d|
    ensures (forall i :: 0 <= i < |d| ==> (i < n <==> Less(d[i], v))) ==> n == LowerIndex(d, v)
    ensures (forall i :: 0 <= i < |d| ==> (i < n <==> !Less(v, d[i]))) ==> n == UpperIndex(d, v)
  {
    var l, u := LowerIndex(d, v), UpperIndex(d, v);
    if n < |d| {
      LowerIndexSplits(d, v, n);
      UpperIndexSplits(d, v, n);
    }
    if l < |d| {
      LowerIndexSplits(d, v, l);
    }
    if u < |d| {
      UpperIndexSplits(d, v, u);
    }
  }

  /** The two bound ids split the entries into < v, = v and > v, the sentinel being above
      every real id, and the block of entries = v is the single id `lower` or empty. */
  lemma BoundsSplitDictionary(d: seq<Value>, v: Value)
    requires StrictlyAscending(d) && |d| <= MAX_UINT32
    ensures var lower, upper := LowerBoundId(d, v), UpperBoundId(d, v);
            && (forall i :: 0 <= i < |d| ==>
                  && (i < lower <==> Less(d[i], v))
                  && (i >= upper <==> Less(v, d[i]))
                  && i < INVALID_VALUE_ID)
            && (lower == upper <==> v !in d)
            && (v in d ==> lower < |d| && d[lower] == v)
  {
    LessIsTotalOrder();
    forall i | 0 <= i < |d|
      ensures i < LowerBoundId(d, v) <==> Less(d[i], v)
      ensures i >= UpperBoundId(d, v) <==> Less(v, d[i])
    {
      LowerIndexSplits(d, v, i);
      UpperIndexSplits(d, v, i);
    }
    var l := LowerIndex(d, v);
    if v in d {
      var i :| 0 <= i < |d| && d[i] == v;
      assert forall k :: 0 <= k < |d| ==> (k < i <==> Less(d[k], v)) && (k < i + 1 <==> !Less(v, d[k]));
      BoundIndexIsUnique(d, v, i);
      BoundIndexIsUnique(d, v, i + 1);
    } else {
      BoundIndexIsUnique(d, v, l);
      forall i | 0 <= i < |d|
        ensures i < l <==> !Less(v, d[i])
      {
        LowerIndexSplits(d, v, i);
      }
    }
  }

  /** The sentinel, the largest 32-bit id, is the lower bound exactly when every entry is less than
      the value, and the upper bound exactly when no entry is greater. */
  lemma SentinelMeansPastTheEnd(d: seq<Value>, v: Value)
    requires StrictlyAscending(d) && |d| <= 0xFFFF_FFFF
    ensures LowerBoundId(d, v) == 0xFFFF_FFFF <==> forall i :: 0 <= i < |d| ==> Less(d[i], v)
    ensures UpperBoundId(d, v) == 0xFFFF_FFFF <==> forall i :: 0 <= i < |d| ==> !Less(v, d[i])
  {
    forall i | 0 <= i < |d|
      ensures i < LowerIndex(d, v) <==> Less(d[i], v)
      ensures i < UpperIndex(d, v) <==> !Less(v, d[i])
    {
      LowerIndexSplits(d, v, i);
      UpperIndexSplits(d, v, i);
    }
    var l, u := LowerIndex(d, v), UpperIndex(d, v);
    assert l < |d| ==> !Less(d[l], v);
    assert u < |d| ==> Less(v, d[u]);
  }

  // ----- The id-only scan -----

  /** The comparison of ids that the dictionary scan performs for each scan type. */
  predicate IdMatches(op: ScanType, id: nat, lower: nat, upper: nat) {
    match op
    case OpEquals => lower != upper && id == lower
    case OpNotEquals => lower == upper || id != lower
    case OpLessThan => id < lower
    case OpLessThanEquals => id < upper
    case OpGreaterThan => id >= upper
    case OpGreaterThanEquals => id >= lower
  }

  lemma IdComparisonIsValueComparison(d: seq<Value>, op: ScanType, v: Value, id: nat)
    requires StrictlyAscending(d) && |d| <= MAX_UINT32 && id < |d|
    ensures IdMatches(op, id, LowerBoundId(d, v), UpperBoundId(d, v)) <==> Compare(op, d[id], v)
  {
    BoundsSplitDictionary(d, v);
    LessIsTotalOrder();
    var lower := LowerBoundId(d, v);
    if v in d && id != lower {
      assert Less(d[id], d[lower]) || Less(d[lower], d[id]);
    }
  }

  /** The positions whose ids pass the id comparison, NULL ids left out. */
  ghost function IdPositions(chunkId: nat, dictionary: seq<Value>, ids: seq<nat>, op: ScanType, v: Value): seq<RowID> {
    if ids == [] then []
    else
      var n := |ids| - 1;
      var found := IdPositions(chunkId, dictionary, ids[..n], op, v);
      if ids[n] != NullValueId(dictionary) &&
         IdMatches(op, ids[n], LowerBoundId(dictionary, v), UpperBoundId(dictionary, v))
      then found + [RowID(chunkId, n)] else found
  }

  /** Comparing ids gives the filter of the decoded cells, for every dictionary segment. */
  lemma {:induction false} IdScanIsFilter(chunkId: nat, ds: StoredSegment, op: ScanType, v: Value)
    requires ds.DictionaryData? && ds.Readable() && StrictlyAscending(ds.dictionary)
    ensures IdPositions(chunkId, ds.dictionary, ds.ids, op, v) == MatchPositions(chunkId, ds.Cells(), op, v)
    decreases |ds.ids|
  {
    if ds.ids != [] {
      var n := |ds.ids| - 1;
      var init := ds.(ids := ds.ids[..n]);
      IdScanIsFilter(chunkId, init, op, v);
      assert ds.Cells()[..n] == init.Cells();
      if ds.ids[n] != NullValueId(ds.dictionary) {
        IdComparisonIsValueComparison(ds.dictionary, op, v, ds.ids[n]);
      }
    }
  }

  /** The id scan of a compressed segment finds the positions that a value-by-value scan
      of the segment before compression finds. */
  lemma CompressedScanAgrees(chunkId: nat, vs: StoredSegment, ds: StoredSegment, op: ScanType, v: Value)
    requires vs.ValueData? && vs.Readable() && NullsHoldDefault(vs)
    requires PlaceholderSafe(vs.ty, vs.Cells()) && ds == Encode(vs)
    ensures IdPositions(chunkId, ds.dictionary, ds.ids, op, v) == MatchPositions(chunkId, vs.Cells(), op, v)
  {
    RoundTripIffPlaceholderSafe(vs);
    IdScanIsFilter(chunkId, ds, op, v);
  }

  /** An unsafe column is scanned wrongly after compression by some query: equality with its smallest value. */
  lemma UnsafeColumnIsScannedWrongly(chunkId: nat, vs: StoredSegment, ds: StoredSegment) returns (v: Value)
    requires vs.ValueData? && vs.Readable() && NullsHoldDefault(vs)
    requires !PlaceholderSafe(vs.ty, vs.Cells()) && ds == Encode(vs)
    ensures IdPositions(chunkId, ds.dictionary, ds.ids, OpEquals, v) != MatchPositions(chunkId, vs.Cells(), OpEquals, v)
  {
    var i := MisreadWhenUnsafe(vs.ty, vs.Cells());
    v := vs.values[i];
    DecodingDiffersWhereMisread(vs, i);
    IdScanIsFilter(chunkId, ds, OpEquals, v);
    MatchPositionsMember(chunkId, vs.Cells(), OpEquals, v, i);
    MatchPositionsMember(chunkId, ds.Cells(), OpEquals, v, i);
  }

  lemma {:induction false} MatchPositionsBelow(chunkId: nat, cells: seq<Cell>, op: ScanType, v: Value)
    ensures forall p :: p in MatchPositions(chunkId, cells, op, v) ==> p.chunkId == chunkId && p.chunkOffset < |cells|
  {
    if cells != [] {
      MatchPositionsBelow(chunkId, cells[..|cells| - 1], op, v);
    }
  }

  /** The filter finds an offset exactly when its cell matches. */
  lemma {:induction false} MatchPositionsMember(chunkId: nat, cells: seq<Cell>, op: ScanType, v: Value, i: nat)
    requires i < |cells|
    ensures RowID(chunkId, i) in MatchPositions(chunkId, cells, op, v) <==> Matches(cells[i], op, v)
  {
    var n := |cells| - 1;
    if i < n {
      MatchPositionsMember(chunkId, cells[..n], op, v, i);
    } else {
      MatchPositionsBelow(chunkId, cells[..n], op, v);
    }
  }

  ghost predicate AscendingOffsets(ps: seq<RowID>) {
    forall i, j :: 0 <= i < j < |ps| ==> ps[i].chunkOffset < ps[j].chunkOffset
  }

  /** The filter consists of the positions of the matching cells of the chunk and of nothing else,
      in ascending order and each once. */
  lemma {:induction false} MatchPositionsExactly(chunkId: nat, cells: seq<Cell>, op: ScanType, v: Value, p: RowID)
    ensures AscendingOffsets(MatchPositions(chunkId, cells, op, v))
    ensures p in MatchPositions(chunkId, cells, op, v) <==>
              p.chunkId == chunkId && p.chunkOffset < |cells| && Matches(cells[p.chunkOffset], op, v)
  {
    MatchPositionsBelow(chunkId, cells, op, v);
    if p.chunkId == chunkId && p.chunkOffset < |cells| {
      MatchPositionsMember(chunkId, cells, op, v, p.chunkOffset);
    }
    if cells != [] {
      var n := |cells| - 1;
      MatchPositionsExactly(chunkId, cells[..n], op, v, p);
      MatchPositionsBelow(chunkId, cells[..n], op, v);
      var before := MatchPositions(chunkId, cells[..n], op, v);
      forall k | 0 <= k < |before|
        ensures before[k].chunkOffset < n
      {
        assert before[k] in before;
      }
    }
  }
}
