/** The compressed segment: a sorted dictionary and an attribute vector of value ids. */
module DictionarySegments {
  import opened Types
  import opened FixedWidth
  import opened Segments
  import opened Encoding
  import opened DictionaryScan
  import opened ValueSegments

  ghost predicate Ascending(s: seq<Value>) {
    forall i, j :: 0 <= i < j < |s| ==> !Less(s[j], s[i])
  }

  /** Where to insert `x` so that an ascending sequence stays ascending. */
  method InsertionPoint(sorted: seq<Value>, x: Value) returns (j: nat)
    requires Ascending(sorted)
    ensures j <= |sorted|
    ensures forall k :: 0 <= k < j ==> !Less(x, sorted[k])
    ensures forall k :: j <= k < |sorted| ==> Less(x, sorted[k])
  {
    j := |sorted|;
    while j > 0 && Less(x, sorted[j - 1])
      invariant 0 <= j <= |sorted|
      invariant forall k :: j <= k < |sorted| ==> Less(x, sorted[k])
    {
      j := j - 1;
    }
    LessIsTotalOrder();
  }

  lemma InsertAscending(sorted: seq<Value>, x: Value, j: nat)
    requires Ascending(sorted) && j <= |sorted|
    requires forall k :: 0 <= k < j ==> !Less(x, sorted[k])
    requires forall k :: j <= k < |sorted| ==> Less(x, sorted[k])
    ensures Ascending(sorted[..j] + [x] + sorted[j..])
    ensures multiset(sorted[..j] + [x] + sorted[j..]) == multiset(sorted) + multiset{x}
  {
    LessIsTotalOrder();
    assert sorted == sorted[..j] + sorted[j..];
  }

  /** `std::sort`. */
  method Sort(values: seq<Value>) returns (sorted: seq<Value>)
    ensures Ascending(sorted) && multiset(sorted) == multiset(values)
  {
    sorted := [];
    for i := 0 to |values|
      invariant Ascending(sorted) && multiset(sorted) == multiset(values[..i])
    {
      var j := InsertionPoint(sorted, values[i]);
      InsertAscending(sorted, values[i], j);
      assert values[..i + 1] == values[..i] + [values[i]];
      sorted := sorted[..j] + [values[i]] + sorted[j..];
    }
    assert values[..|values|] == values;
  }

  /** `std::unique` and the `erase` behind it. */
  method Unique(values: seq<Value>) returns (distinct: seq<Value>)
    requires Ascending(values)
    ensures StrictlyAscending(distinct)
    ensures forall x :: x in distinct <==> x in values
  {
    LessIsTotalOrder();
    distinct := [];
    for i := 0 to |values|
      invariant StrictlyAscending(distinct)
      invariant if i == 0 then distinct == [] else distinct != [] && distinct[|distinct| - 1] == values[i - 1]
      invariant forall x :: x in distinct <==> x in values[..i]
    {
      if distinct == [] || distinct[|distinct| - 1] != values[i] {
        distinct := distinct + [values[i]];
      }
    }
  }

  /** The dictionary, and the number of distinct stored values with the placeholder included. */
  method FillDictionary(segment: ValueSegment) returns (dictionary: seq<Value>, distinctCount: nat)
    requires segment.View().Readable()
    ensures dictionary == DictionaryOf(segment.View())
    ensures distinctCount == |SortedDistinct(segment.View().values)|
  {
    var values := Sort(segment.values);
    forall x
      ensures x in values <==> x in segment.values
    {
      assert x in values <==> x in multiset(values);
      assert x in segment.values <==> x in multiset(segment.values);
    }
    values := Unique(values);
    SortedDistinctIsAscendingSet(segment.values);
    AscendingSetIsUnique(values, SortedDistinct(segment.values));
    distinctCount := |values|;
    dictionary := values;
    if segment.nullValues.Some? && true in segment.nullValues.value {
      assert segment.values[0] in values;
      dictionary := values[1..];
    }
  }

  lemma LookupFindsKey(dictionary: seq<Value>, key: nat)
    requires StrictlyAscending(dictionary) && key < |dictionary|
    ensures Lookup(dictionary, dictionary[key]) == key
  {
    LessIsTotalOrder();
    assert dictionary[key] in dictionary;
  }

  /** The inverted dictionary: every entry with its id. */
  method Invert(dictionary: seq<Value>) returns (inverted: map<Value, nat>)
    requires StrictlyAscending(dictionary)
    ensures forall x :: x in inverted <==> x in dictionary
    ensures forall x :: x in inverted ==> inverted[x] == Lookup(dictionary, x)
  {
    inverted := map[];
    for key := 0 to |dictionary|
      invariant forall x :: x in inverted <==> x in dictionary[..key]
      invariant forall x :: x in inverted ==> inverted[x] == Lookup(dictionary, x)
    {
      LookupFindsKey(dictionary, key);
      if dictionary[key] !in inverted {
        inverted := inverted[dictionary[key] := key];
      }
    }
  }

  /** The subscript operator of the inverted dictionary: a missing key is inserted with id 0. */
  method LookupOrInsert(inverted: map<Value, nat>, ghost dictionary: seq<Value>, key: Value)
    returns (id: nat, after: map<Value, nat>)
    requires forall x :: x in dictionary ==> x in inverted
    requires forall x :: x in inverted ==> inverted[x] == Lookup(dictionary, x)
    ensures id == Lookup(dictionary, key)
    ensures forall x :: x in dictionary ==> x in after
    ensures forall x :: x in after ==> after[x] == Lookup(dictionary, x)
  {
    after := if key in inverted then inverted else inverted[key := 0];
    id := after[key];
  }

  /** Stores one id per entry. */
  method FillAttributesVector(segment: ValueSegment, dictionary: seq<Value>, vector: FixedWidthIntegerVector)
    requires segment.View().Readable() && dictionary == DictionaryOf(segment.View())
    requires vector.attributes.Length == |segment.values|
    modifies vector.attributes
    ensures forall i :: 0 <= i < |segment.values| ==>
              vector.attributes[i] == Narrow(vector.width, IdOf(segment.View(), i))
  {
    ghost var vs := segment.View();
    var values := segment.values;
    var inverted := Invert(dictionary);
    for i := 0 to |values|
      invariant forall x :: x in dictionary ==> x in inverted
      invariant forall x :: x in inverted ==> inverted[x] == Lookup(dictionary, x)
      invariant forall k :: 0 <= k < i ==> vector.attributes[k] == Narrow(vector.width, IdOf(vs, k))
    {
      var id;
      if segment.IsNull(i) {
        id := NullValueId(dictionary);
      } else {
        id, inverted := LookupOrInsert(inverted, dictionary, values[i]);
      }
      assert id == IdOf(vs, i);
      vector.Set(i, id);
      assert vector.attributes[i] == vector.attributes[..][i];
    }
  }

  class DictionarySegment {
    const ty: DataType
    const dictionary: seq<Value>
    const attributeVector: FixedWidthIntegerVector

    constructor (segment: ValueSegment)
      requires segment.View().Readable()
      ensures View() == Encode(segment.View())
      ensures fresh(attributeVector.attributes)
    {
      var d, distinctCount := FillDictionary(segment);
      var vector := new FixedWidthIntegerVector(WidthFor(distinctCount), |segment.values|);
      FillAttributesVector(segment, d, vector);
      ty := segment.ty;
      dictionary := d;
      attributeVector := vector;
      new;
      assert attributeVector.attributes[..] == Encode(segment.View()).ids;
    }

    /** The contents as a value. */
    function View(): StoredSegment
      reads attributeVector.attributes
    {
      DictionaryData(ty, dictionary, attributeVector.width, attributeVector.attributes[..])
    }

    /** Reads an entry: NULL for the in-band id, a dictionary entry otherwise. */
    function GetTypedValue(chunkOffset: nat): Cell
      requires View().Readable() && chunkOffset < attributeVector.Size()
      reads attributeVector.attributes
      ensures GetTypedValue(chunkOffset) == View().Cells()[chunkOffset]
    {
      var id := attributeVector.Get(chunkOffset);
      if id == NullValueId(dictionary) then Null else NonNull(dictionary[id])
    }

    /** `operator[]`, which decompresses without looking for NULL: None when it reads past the dictionary. */
    function Subscript(chunkOffset: nat): (r: Option<Value>)
      requires View().Readable() && chunkOffset < attributeVector.Size()
      reads attributeVector.attributes
      ensures r == if View().Cells()[chunkOffset].Null? then None else Some(View().Cells()[chunkOffset].value)
    {
      var id := attributeVector.Get(chunkOffset);
      if id < |dictionary| then Some(dictionary[id]) else None
    }

    /** The first id of a value >= `value`, or the sentinel. */
    method LowerBound(value: Value) returns (id: nat)
      requires StrictlyAscending(dictionary)
      ensures id == LowerBoundId(dictionary, value)
      ensures |dictionary| <= 0xFFFF_FFFF ==>
                (id == 0xFFFF_FFFF <==> forall i :: 0 <= i < |dictionary| ==> Less(dictionary[i], value))
    {
      LessIsTotalOrder();
      if |dictionary| <= 0xFFFF_FFFF {
        SentinelMeansPastTheEnd(dictionary, value);
      }
      var low, high := 0, |dictionary|;
      while low < high
        invariant 0 <= low <= high <= |dictionary|
        invariant forall i :: 0 <= i < low ==> Less(dictionary[i], value)
        invariant forall i :: high <= i < |dictionary| ==> !Less(dictionary[i], value)
      {
        var mid := low + (high - low) / 2;
        if Less(dictionary[mid], value) {
          low := mid + 1;
        } else {
          high := mid;
        }
      }
      BoundIndexIsUnique(dictionary, value, low);
      id := if low == |dictionary| then INVALID_VALUE_ID else low;
    }

    /** The first id of a value > `value`, or the sentinel. */
    method UpperBound(value: Value) returns (id: nat)
      requires StrictlyAscending(dictionary)
      ensures id == UpperBoundId(dictionary, value)
      ensures |dictionary| <= 0xFFFF_FFFF ==>
                (id == 0xFFFF_FFFF <==> forall i :: 0 <= i < |dictionary| ==> !Less(value, dictionary[i]))
    {
      LessIsTotalOrder();
      if |dictionary| <= 0xFFFF_FFFF {
        SentinelMeansPastTheEnd(dictionary, value);
      }
      var low, high := 0, |dictionary|;
      while low < high
        invariant 0 <= low <= high <= |dictionary|
        invariant forall i :: 0 <= i < low ==> !Less(value, dictionary[i])
        invariant forall i :: high <= i < |dictionary| ==> Less(value, dictionary[i])
      {
        var mid := low + (high - low) / 2;
        if !Less(value, dictionary[mid]) {
          low := mid + 1;
        } else {
          high := mid;
        }
      }
      BoundIndexIsUnique(dictionary, value, low);
      id := if low == |dictionary| then INVALID_VALUE_ID else low;
    }
  }
}
