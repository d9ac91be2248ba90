/**
 Dictionary encoding: what `fill_dictionary`, `initialize_attributes_vector` and
 `fill_attributes_vector` compute from a value segment, and what decoding it again
 gives back.
 */
module Encoding {
  import opened Types
  import opened FixedWidth
  import opened Segments

  // ----- The dictionary -----

  ghost predicate StrictlyAscending(s: seq<Value>) {
    forall i, j :: 0 <= i < j < |s| ==> Less(s[i], s[j])
  }

  ghost function Insert(d: seq<Value>, v: Value): seq<Value> {
    if d == [] then [v]
    else if Less(v, d[0]) then [v] + d
    else if v == d[0] then d
    else [d[0]] + Insert(d[1..], v)
  }

  /** The values in ascending order, each once: sort, unique, erase. */
  ghost function SortedDistinct(values: seq<Value>): seq<Value> {
    if values == [] then []
    else Insert(SortedDistinct(values[..|values| - 1]), values[|values| - 1])
  }

  lemma {:induction false} InsertKeepsAscending(d: seq<Value>, v: Value)
    requires StrictlyAscending(d)
    ensures StrictlyAscending(Insert(d, v))
    ensures forall x :: x in Insert(d, v) <==> x in d || x == v
    ensures |Insert(d, v)| <= |d| + 1
  {
    LessIsTotalOrder();
    if d != [] && !Less(v, d[0]) && v != d[0] {
      InsertKeepsAscending(d[1..], v);
      assert d == [d[0]] + d[1..];
      var tail := Insert(d[1..], v);
      forall k | 0 <= k < |tail|
        ensures Less(d[0], tail[k])
      {
        assert tail[k] in tail;
      }
    }
  }

  /** Sorting and deduplicating keeps the set of values and orders it strictly. */
  lemma {:induction false} SortedDistinctIsAscendingSet(values: seq<Value>)
    ensures StrictlyAscending(SortedDistinct(values))
    ensures forall x :: x in SortedDistinct(values) <==> x in values
    ensures |SortedDistinct(values)| <= |values|
  {
    if values != [] {
      var n := |values| - 1;
      SortedDistinctIsAscendingSet(values[..n]);
      InsertKeepsAscending(SortedDistinct(values[..n]), values[n]);
      assert values == values[..n] + [values[n]];
    }
  }

  /** Only one strictly ascending sequence has a given set of elements. */
  lemma {:induction false} AscendingSetIsUnique(a: seq<Value>, b: seq<Value>)
    requires StrictlyAscending(a) && StrictlyAscending(b)
    requires forall x :: x in a <==> x in b
    ensures a == b
  {
    LessIsTotalOrder();
    assert (a == [] || a[0] in b) && (b == [] || b[0] in a);
    if a != [] && b != [] {
      assert a == [a[0]] + a[1..] && b == [b[0]] + b[1..];
      forall x
        ensures x in a[1..] <==> x in b[1..]
      {
        assert x in a <==> x in b;
      }
      AscendingSetIsUnique(a[1..], b[1..]);
    }
  }

  ghost predicate ContainsNull(nulls: Option<seq<bool>>) {
    nulls.Some? && true in nulls.value
  }

  /** `fill_dictionary`: with a NULL present the smallest stored value is erased. */
  ghost function DictionaryOf(vs: StoredSegment): (d: seq<Value>)
    requires vs.ValueData? && vs.Readable()
    ensures StrictlyAscending(d) && |d| <= |vs.values|
    ensures forall x :: x in d ==> x in vs.values
    ensures |SortedDistinct(vs.values)| == |d| + (if ContainsNull(vs.nulls) then 1 else 0)
  {
    SortedDistinctIsAscendingSet(vs.values);
    var distinct := SortedDistinct(vs.values);
    if ContainsNull(vs.nulls) then
      assert vs.values[0] in distinct;
      assert distinct == [distinct[0]] + distinct[1..];
      distinct[1..]
    else distinct
  }

  /** The dictionary holds the stored values, without the smallest of them if a NULL is present. */
  lemma DictionaryErasesSmallest(vs: StoredSegment, x: Value)
    requires vs.ValueData? && vs.Readable()
    ensures x in DictionaryOf(vs) <==>
              x in vs.values && (ContainsNull(vs.nulls) ==> exists v :: v in vs.values && Less(v, x))
  {
    SortedDistinctIsAscendingSet(vs.values);
    LessIsTotalOrder();
    var distinct := SortedDistinct(vs.values);
    if ContainsNull(vs.nulls) {
      assert distinct == [distinct[0]] + DictionaryOf(vs);
      assert distinct[0] in distinct;
      forall v | v in vs.values
        ensures !Less(v, distinct[0])
      {
        assert v in distinct;
      }
    }
  }

  // ----- Ids and their width -----

  /** The inverted dictionary: a missing key is default-inserted with id 0. */
  ghost function Lookup(d: seq<Value>, v: Value): (id: nat)
    ensures v in d ==> id < |d| && d[id] == v
    ensures v !in d ==> id == 0
  {
    if v in d then
      var i :| 0 <= i < |d| && d[i] == v;
      i
    else 0
  }

  /** The id of one entry before it is narrowed. */
  ghost function IdOf(vs: StoredSegment, i: nat): (id: nat)
    requires vs.ValueData? && vs.Readable() && i < |vs.values|
    ensures id <= |DictionaryOf(vs)|
  {
    var d := DictionaryOf(vs);
    if vs.IsNull(i) then NullValueId(d) else Lookup(d, vs.values[i])
  }

  /** `initialize_attributes_vector`: the branches on the distinct count, NULL included. */
  function WidthFor(distinct: nat): Width {
    if distinct == 0 || distinct - 1 <= 0xFF then Bytes1
    else if distinct - 1 <= 0xFFFF then Bytes2
    else Bytes4
  }

  ghost function Encode(vs: StoredSegment): (e: StoredSegment)
    requires vs.ValueData? && vs.Readable()
    ensures e.DictionaryData? && e.ty == vs.ty && |e.ids| == |vs.values|
    ensures e.dictionary == DictionaryOf(vs)
    ensures e.width == WidthFor(|SortedDistinct(vs.values)|)
    ensures forall i :: 0 <= i < |vs.values| ==> e.ids[i] == Narrow(e.width, IdOf(vs, i))
  {
    var w := WidthFor(|SortedDistinct(vs.values)|);
    DictionaryData(vs.ty, DictionaryOf(vs), w,
                   seq(|vs.values|, i requires 0 <= i < |vs.values| => Narrow(w, IdOf(vs, i))))
  }

  lemma IdIsBelowDistinctCount(vs: StoredSegment, i: nat)
    requires vs.ValueData? && vs.Readable() && i < |vs.values|
    ensures IdOf(vs, i) < |SortedDistinct(vs.values)| <= MAX_UINT32
    ensures IdOf(vs, i) == |DictionaryOf(vs)| ==>
              ContainsNull(vs.nulls) && (vs.IsNull(i) || DictionaryOf(vs) == [])
  {
    SortedDistinctIsAscendingSet(vs.values);
    assert vs.values[i] in vs.values;
    if vs.IsNull(i) {
      assert vs.nulls.value[i] in vs.nulls.value;
    }
  }

  /** Narrowing `set` then widening `get` returns every id unchanged. */
  lemma NarrowingIsLossless(vs: StoredSegment)
    requires vs.ValueData? && vs.Readable()
    ensures Encode(vs).Readable()
    ensures forall i :: 0 <= i < |vs.values| ==> Encode(vs).ids[i] == IdOf(vs, i)
  {
    forall i | 0 <= i < |vs.values|
      ensures Encode(vs).ids[i] == IdOf(vs, i)
    {
      IdIsBelowDistinctCount(vs, i);
    }
  }

  /** A narrower array could not hold the ids: some id needs the chosen width. */
  lemma WidthIsMinimal(vs: StoredSegment, w: Width)
    requires vs.ValueData? && vs.Readable()
    requires Capacity(w) < Capacity(Encode(vs).width)
    ensures exists i :: 0 <= i < |vs.values| && Narrow(w, IdOf(vs, i)) != IdOf(vs, i)
  {
    SortedDistinctIsAscendingSet(vs.values);
    var d := DictionaryOf(vs);
    if ContainsNull(vs.nulls) {
      var i :| 0 <= i < |vs.values| && vs.nulls.value[i];
      assert IdOf(vs, i) == |d|;
    } else {
      LessIsTotalOrder();
      var last := |d| - 1;
      assert d[last] in vs.values;
      var i :| 0 <= i < |vs.values| && vs.values[i] == d[last];
      assert !vs.IsNull(i);
      assert IdOf(vs, i) == last;
    }
  }

  /** One byte per id for up to 2^8 distinct stored values, the placeholder counted, two for up to
      2^16, and four beyond that; and every id fits its bytes. */
  lemma WidthByDistinctValues(vs: StoredSegment, i: nat)
    requires vs.ValueData? && vs.Readable() && i < |vs.values|
    ensures var n, e := |set v | v in vs.values|, Encode(vs);
            && (n <= 256 ==> e.width == Bytes1 && e.ids[i] < 256)
            && (256 < n <= 65536 ==> e.width == Bytes2 && e.ids[i] < 65536)
            && (65536 < n ==> e.width == Bytes4 && e.ids[i] < 4294967296)
  {
    SortedDistinctIsAscendingSet(vs.values);
    DistinctCount(SortedDistinct(vs.values));
    assert (set v | v in vs.values) == (set v | v in SortedDistinct(vs.values));
  }

  lemma {:induction false} DistinctCount(d: seq<Value>)
    requires StrictlyAscending(d)
    ensures |set v | v in d| == |d|
  {
    if d == [] {
      assert (set v | v in d) == {};
    } else {
      var n := |d| - 1;
      DistinctCount(d[..n]);
      LastIsNew(d);
      assert (set v | v in d) == (set v | v in d[..n]) + {d[n]};
    }
  }

  lemma LastIsNew(d: seq<Value>)
    requires StrictlyAscending(d) && d != []
    ensures d[|d| - 1] !in d[..|d| - 1]
    ensures forall v :: v in d <==> v in d[..|d| - 1] || v == d[|d| - 1]
  {
    LessIsTotalOrder();
    assert d == d[..|d| - 1] + [d[|d| - 1]];
  }

  /** Every value has the column's type. */
  ghost predicate HoldsType(ty: DataType, values: seq<Value>) {
    forall i :: 0 <= i < |values| ==> TypeOf(values[i]) == ty
  }

  /** The dictionary of a column ascends in the order of its type. */
  lemma DictionaryAscendsInItsType(vs: StoredSegment, i: nat, j: nat)
    requires vs.ValueData? && vs.Readable() && HoldsType(vs.ty, vs.values)
    requires i < j < |DictionaryOf(vs)|
    ensures var x, y := DictionaryOf(vs)[i], DictionaryOf(vs)[j];
            match vs.ty
            case IntType => x.Int? && y.Int? && x.i < y.i
            case LongType => x.Long? && y.Long? && x.l < y.l
            case FloatType => x.Float? && y.Float? && x.f < y.f
            case DoubleType => x.Double? && y.Double? && x.d < y.d
            case StringType => x.Text? && y.Text? && ComesBefore(x.s, y.s)
  {
    var x, y := DictionaryOf(vs)[i], DictionaryOf(vs)[j];
    assert x in DictionaryOf(vs) && y in DictionaryOf(vs);
    assert TypeOf(x) == vs.ty && TypeOf(y) == vs.ty;
    LessInEachType(x, y);
  }

  // ----- Decoding -----

  /** What `value_segment.cpp` maintains: a NULL slot holds `T{}`. */
  ghost predicate NullsHoldDefault(vs: StoredSegment)
    requires vs.ValueData? && vs.Readable()
  {
    forall i :: 0 <= i < |vs.values| && vs.IsNull(i) ==> vs.values[i] == Default(vs.ty)
  }

  /** Either nothing is NULL, or every value is greater than the placeholder `T{}`. */
  ghost predicate PlaceholderSafe(ty: DataType, cells: seq<Cell>) {
    Null in cells ==> forall i :: 0 <= i < |cells| && cells[i].NonNull? ==> Less(Default(ty), cells[i].value)
  }

  lemma CellsShowNulls(vs: StoredSegment)
    requires vs.ValueData? && vs.Readable()
    ensures Null in vs.Cells() <==> ContainsNull(vs.nulls)
  {
    if ContainsNull(vs.nulls) {
      var i :| 0 <= i < |vs.values| && vs.nulls.value[i];
      assert vs.Cells()[i] == Null;
    }
    if Null in vs.Cells() {
      var i :| 0 <= i < |vs.values| && vs.Cells()[i] == Null;
      assert vs.nulls.value[i] in vs.nulls.value;
    }
  }

  /** With a NULL present the smallest stored value is erased from the dictionary: entry `i`
      held it, nothing stored, placeholder included, being smaller. */
  ghost predicate Misread(ty: DataType, cells: seq<Cell>, i: nat)
    requires i < |cells|
  {
    && Null in cells && cells[i].NonNull?
    && !Less(Default(ty), cells[i].value)
    && forall k :: 0 <= k < |cells| && cells[k].NonNull? ==> !Less(cells[k].value, cells[i].value)
  }

  /** The entry holds the smallest of all stored values. */
  ghost predicate HoldsMinimum(vs: StoredSegment, i: nat)
    requires vs.ValueData? && i < |vs.values|
  {
    forall k :: 0 <= k < |vs.values| ==> !Less(vs.values[k], vs.values[i])
  }

  lemma MinimumIsFirst(vs: StoredSegment, i: nat)
    requires vs.ValueData? && i < |vs.values|
    ensures SortedDistinct(vs.values) != [] && vs.values[i] in SortedDistinct(vs.values)
    ensures HoldsMinimum(vs, i) <==> vs.values[i] == SortedDistinct(vs.values)[0]
  {
    SortedDistinctIsAscendingSet(vs.values);
    LessIsTotalOrder();
    var distinct := SortedDistinct(vs.values);
    assert vs.values[i] in distinct;
    assert distinct[0] in vs.values;
    forall k | 0 <= k < |vs.values|
      ensures !Less(vs.values[k], distinct[0])
    {
      assert vs.values[k] in distinct;
    }
  }

  lemma DictionaryLacksMinimum(vs: StoredSegment, v: Value)
    requires vs.ValueData? && vs.Readable()
    requires v in SortedDistinct(vs.values)
    ensures v in DictionaryOf(vs) <==> !(ContainsNull(vs.nulls) && v == SortedDistinct(vs.values)[0])
  {
    SortedDistinctIsAscendingSet(vs.values);
    var distinct := SortedDistinct(vs.values);
    if ContainsNull(vs.nulls) {
      LessIsTotalOrder();
      assert distinct == [distinct[0]] + DictionaryOf(vs);
    }
  }

  /** A non-NULL entry decodes to itself exactly when the dictionary kept its value. */
  lemma DecodesWhatDictionaryKept(vs: StoredSegment, i: nat)
    requires vs.ValueData? && vs.Readable() && i < |vs.values|
    ensures Encode(vs).Readable()
    ensures Encode(vs).CellAt(i) == vs.CellAt(i) <==> vs.IsNull(i) || vs.values[i] in DictionaryOf(vs)
  {
  }

  /** The entries that decode to something else are the non-NULL ones holding the smallest
      stored value of a segment with a NULL. */
  lemma DecodesWronglyExactly(vs: StoredSegment, i: nat)
    requires vs.ValueData? && vs.Readable() && i < |vs.values|
    ensures Encode(vs).Readable()
    ensures Encode(vs).CellAt(i) != vs.CellAt(i) <==> ContainsNull(vs.nulls) && !vs.IsNull(i) && HoldsMinimum(vs, i)
  {
    DecodesWhatDictionaryKept(vs, i);
    MinimumIsFirst(vs, i);
    DictionaryLacksMinimum(vs, vs.values[i]);
  }

  /** A decoded cell differs from the stored one exactly at the misread entries. */
  lemma DecodingDiffersWhereMisread(vs: StoredSegment, i: nat)
    requires vs.ValueData? && vs.Readable() && NullsHoldDefault(vs) && i < |vs.values|
    ensures Encode(vs).Readable()
    ensures Encode(vs).CellAt(i) != vs.CellAt(i) <==> Misread(vs.ty, vs.Cells(), i)
  {
    DecodesWronglyExactly(vs, i);
    CellsShowNulls(vs);
    var cells := vs.Cells();
    if ContainsNull(vs.nulls) && !vs.IsNull(i) {
      var n :| 0 <= n < |vs.values| && vs.nulls.value[n];
      assert vs.values[n] == Default(vs.ty);
      if HoldsMinimum(vs, i) {
        forall k | 0 <= k < |cells| && cells[k].NonNull?
          ensures !Less(cells[k].value, cells[i].value)
        {
          assert cells[k].value == vs.values[k];
        }
      }
      if Misread(vs.ty, cells, i) {
        forall k | 0 <= k < |vs.values|
          ensures !Less(vs.values[k], vs.values[i])
        {
          assert cells[k] == if vs.IsNull(k) then Null else NonNull(vs.values[k]);
        }
      }
    }
  }

  /** Some entry is misread exactly when some value is not greater than the placeholder. */
  lemma {:induction false} MisreadWhenUnsafe(ty: DataType, cells: seq<Cell>) returns (i: nat)
    requires !PlaceholderSafe(ty, cells)
    ensures i < |cells| && Misread(ty, cells, i)
  {
    LessIsTotalOrder();
    i :| 0 <= i < |cells| && cells[i].NonNull? && !Less(Default(ty), cells[i].value);
    for k := 0 to |cells|
      invariant i < |cells| && cells[i].NonNull? && !Less(Default(ty), cells[i].value)
      invariant forall j :: 0 <= j < k && cells[j].NonNull? ==> !Less(cells[j].value, cells[i].value)
    {
      if cells[k].NonNull? && Less(cells[k].value, cells[i].value) {
        i := k;
      }
    }
  }

  /** Compression round-trips exactly when the placeholder cannot be confused with a value. */
  lemma RoundTripIffPlaceholderSafe(vs: StoredSegment)
    requires vs.ValueData? && vs.Readable() && NullsHoldDefault(vs)
    ensures Encode(vs).Readable()
    ensures Encode(vs).Cells() == vs.Cells() <==> PlaceholderSafe(vs.ty, vs.Cells())
  {
    NarrowingIsLossless(vs);
    var cells, decoded := vs.Cells(), Encode(vs).Cells();
    if PlaceholderSafe(vs.ty, cells) {
      forall i | 0 <= i < |cells|
        ensures decoded[i] == cells[i]
      {
        DecodingDiffersWhereMisread(vs, i);
      }
    } else {
      var i := MisreadWhenUnsafe(vs.ty, cells);
      DecodingDiffersWhereMisread(vs, i);
      assert decoded[i] != cells[i];
    }
  }

  /** Without a NULL no id equals the NULL id, even where that id does not fit the width. */
  lemma NullIdIsNeverMistaken(vs: StoredSegment, i: nat)
    requires vs.ValueData? && vs.Readable() && i < |vs.values| && !ContainsNull(vs.nulls)
    ensures Encode(vs).ids[i] != NullValueId(Encode(vs).dictionary)
  {
  }

  /** A misread entry decodes to the next greater stored value, placeholder included, or to NULL
      if there is none. */
  lemma MisreadDecodesToNext(vs: StoredSegment, i: nat)
    requires vs.ValueData? && vs.Readable() && NullsHoldDefault(vs) && i < |vs.values|
    requires Misread(vs.ty, vs.Cells(), i)
    ensures Encode(vs).Readable()
    ensures var cell := Encode(vs).CellAt(i);
            if cell.Null? then forall k :: 0 <= k < |vs.values| ==> !Less(vs.values[i], vs.values[k])
            else
              && cell.value in vs.values && Less(vs.values[i], cell.value)
              && forall k :: 0 <= k < |vs.values| && Less(vs.values[i], vs.values[k]) ==>
                   !Less(vs.values[k], cell.value)
  {
    NarrowingIsLossless(vs);
    DecodingDiffersWhereMisread(vs, i);
    DecodesWronglyExactly(vs, i);
    MinimumIsFirst(vs, i);
    SortedDistinctIsAscendingSet(vs.values);
    LessIsTotalOrder();
    var distinct, d := SortedDistinct(vs.values), DictionaryOf(vs);
    assert distinct == [vs.values[i]] + d;
    assert IdOf(vs, i) == 0;
    forall k | 0 <= k < |vs.values| && Less(vs.values[i], vs.values[k])
      ensures d != [] && !Less(vs.values[k], d[0])
    {
      assert vs.values[k] in distinct;
    }
  }

  /** Two columns that do not round-trip: a zero, or a negative number, beside a NULL. */
  lemma SmallValuesBesideNullAreLost()
    ensures var zero := ValueData(IntType, [Int(0), Int(0)], Some([false, true]));
            && Encode(zero).Readable()
            && zero.CellAt(0) == NonNull(Int(0)) && Encode(zero).CellAt(0) == Null
    ensures var negative := ValueData(IntType, [Int(-5), Int(0)], Some([false, true]));
            && Encode(negative).Readable()
            && negative.CellAt(0) == NonNull(Int(-5)) && Encode(negative).CellAt(0) == NonNull(Int(0))
  {
    var zero := ValueData(IntType, [Int(0), Int(0)], Some([false, true]));
    NarrowingIsLossless(zero);
    SortedDistinctOfTwo(Int(0), Int(0));
    assert zero.nulls.value[1];
    assert DictionaryOf(zero) == [];
    var negative := ValueData(IntType, [Int(-5), Int(0)], Some([false, true]));
    NarrowingIsLossless(negative);
    SortedDistinctOfTwo(Int(-5), Int(0));
    assert negative.nulls.value[1];
    assert DictionaryOf(negative) == [Int(0)];
  }

  lemma SortedDistinctOfTwo(a: Value, b: Value)
    ensures SortedDistinct([a, b]) == if Less(b, a) then [b, a] else if a == b then [a] else [a, b]
  {
    LessIsTotalOrder();
    assert [a, b][..1] == [a] && [a][..0] == [] && [a][1..] == [];
    assert SortedDistinct([a]) == [a];
    assert SortedDistinct([a, b]) == Insert([a], b);
    assert Insert([], b) == [b];
    assert Insert([a], b) == if Less(b, a) then [b] + [a] else if b == a then [a] else [a] + Insert([], b);
  }

  /** When it is safe, the dictionary holds exactly the non-NULL values. */
  lemma DictionaryIsNonNullSet(vs: StoredSegment, x: Value)
    requires vs.ValueData? && vs.Readable() && NullsHoldDefault(vs)
    requires PlaceholderSafe(vs.ty, vs.Cells())
    ensures x in DictionaryOf(vs) <==> NonNull(x) in vs.Cells()
  {
    if x in DictionaryOf(vs) {
      var i := EntryIsNonNull(vs, x);
      assert vs.Cells()[i] == NonNull(x);
    }
    if NonNull(x) in vs.Cells() {
      RoundTripIffPlaceholderSafe(vs);
      var i :| 0 <= i < vs.Size() && vs.Cells()[i] == NonNull(x);
      assert Encode(vs).Cells()[i] == NonNull(x);
    }
  }

  /** With a NULL present, every dictionary entry has a smaller stored value: the erased one. */
  lemma ErasedEntry(vs: StoredSegment, x: Value) returns (k: nat)
    requires vs.ValueData? && vs.Readable()
    requires ContainsNull(vs.nulls) && x in DictionaryOf(vs)
    ensures k < |vs.values| && Less(vs.values[k], x)
  {
    SortedDistinctIsAscendingSet(vs.values);
    var distinct := SortedDistinct(vs.values);
    assert distinct == [distinct[0]] + DictionaryOf(vs);
    assert distinct[0] in vs.values;
    k :| 0 <= k < |vs.values| && vs.values[k] == distinct[0];
  }

  /** When it is safe, every dictionary entry is the value of some non-NULL entry. */
  lemma EntryIsNonNull(vs: StoredSegment, x: Value) returns (i: nat)
    requires vs.ValueData? && vs.Readable() && NullsHoldDefault(vs)
    requires PlaceholderSafe(vs.ty, vs.Cells())
    requires x in DictionaryOf(vs)
    ensures i < |vs.values| && vs.CellAt(i) == NonNull(x)
  {
    i :| 0 <= i < |vs.values| && vs.values[i] == x;
    if vs.IsNull(i) {
      assert vs.nulls.value[i] in vs.nulls.value;
      var k := ErasedEntry(vs, x);
      assert vs.Cells()[i] == Null && vs.Cells()[k] == vs.CellAt(k);
      LessIsTotalOrder();
      assert false;
    }
  }

  /** When it is safe, comparing two ids is comparing the two values. */
  lemma IdsPreserveOrder(vs: StoredSegment, i: nat, j: nat)
    requires vs.ValueData? && vs.Readable() && NullsHoldDefault(vs)
    requires PlaceholderSafe(vs.ty, vs.Cells())
    requires i < |vs.values| && j < |vs.values| && !vs.IsNull(i) && !vs.IsNull(j)
    ensures var ids := Encode(vs).ids;
            && (ids[i] < ids[j] <==> Less(vs.values[i], vs.values[j]))
            && (ids[i] == ids[j] <==> vs.values[i] == vs.values[j])
  {
    RoundTripIffPlaceholderSafe(vs);
    NarrowingIsLossless(vs);
    LessIsTotalOrder();
    var e, cells := Encode(vs), vs.Cells();
    assert e.Cells()[i] == cells[i] == NonNull(vs.values[i]);
    assert e.Cells()[j] == cells[j] == NonNull(vs.values[j]);
    assert e.dictionary[e.ids[i]] == vs.values[i] && e.dictionary[e.ids[j]] == vs.values[j];
  }
}
