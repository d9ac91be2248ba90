/**
 The value types of the engine: the five column types, the variant cell with its
 NULL, the order used by sorting and scanning, row ids and scan operators.
 */
module Types {

  datatype Option<+T> = None | Some(value: T)

  const MAX_UINT32: nat := 0xFFFF_FFFF

  type int32 = x: int | -0x8000_0000 <= x < 0x8000_0000
  type int64 = x: int | -0x8000_0000_0000_0000 <= x < 0x8000_0000_0000_0000

  datatype DataType = IntType | LongType | FloatType | DoubleType | StringType

  /** A non-NULL variant. Floating-point columns are modelled over the reals. */
  datatype Value =
    | Int(i: int32)
    | Long(l: int64)
    | Float(f: real)
    | Double(d: real)
    | Text(s: string)

  function TypeOf(v: Value): DataType {
    match v
    case Int(_) => IntType
    case Long(_) => LongType
    case Float(_) => FloatType
    case Double(_) => DoubleType
    case Text(_) => StringType
  }

  /** `T{}`, the value a segment stores in the slot of a NULL. */
  function Default(ty: DataType): (v: Value)
    ensures TypeOf(v) == ty
  {
    match ty
    case IntType => Int(0)
    case LongType => Long(0)
    case FloatType => Float(0.0)
    case DoubleType => Double(0.0)
    case StringType => Text("")
  }

  /** A cell of a row: a variant that may be NULL, or an optional typed value. */
  datatype Cell = Null | NonNull(value: Value)

  type Row = seq<Cell>

  /** `type_cast`: a deterministic partial conversion to a column type. */
  type Cast = (DataType, Value) -> Option<Value>

  // ----- The order on values -----

  predicate LexLess(a: string, b: string) {
    b != [] && (a == [] || a[0] < b[0] || (a[0] == b[0] && LexLess(a[1..], b[1..])))
  }

  function Rank(v: Value): nat {
    match v
    case Int(_) => 0
    case Long(_) => 1
    case Float(_) => 2
    case Double(_) => 3
    case Text(_) => 4
  }

  /** `operator<` of each column type; the rank only completes it to one total order. */
  predicate Less(a: Value, b: Value) {
    match (a, b)
    case (Int(x), Int(y)) => x < y
    case (Long(x), Long(y)) => x < y
    case (Float(x), Float(y)) => x < y
    case (Double(x), Double(y)) => x < y
    case (Text(x), Text(y)) => LexLess(x, y)
    case _ => Rank(a) < Rank(b)
  }

  lemma {:induction false} LexLessTransitive(a: string, b: string, c: string)
    requires LexLess(a, b) && LexLess(b, c)
    ensures LexLess(a, c)
  {
    if a != [] && a[0] == b[0] == c[0] {
      LexLessTransitive(a[1..], b[1..], c[1..]);
    }
  }

  lemma {:induction false} LexLessTrichotomy(a: string, b: string)
    ensures LexLess(a, b) || a == b || LexLess(b, a)
    ensures !(LexLess(a, b) && LexLess(b, a))
    ensures a == b ==> !LexLess(a, b)
  {
    if a != [] && b != [] && a[0] == b[0] {
      LexLessTrichotomy(a[1..], b[1..]);
      assert a == [a[0]] + a[1..] && b == [b[0]] + b[1..];
    }
  }

  /** `Less` is a strict total order, which is all that sorting and scanning rely on. */
  lemma LessIsTotalOrder()
    ensures forall a, b, c :: Less(a, b) && Less(b, c) ==> Less(a, c)
    ensures forall a, b :: Less(a, b) ==> !Less(b, a) && a != b
    ensures forall a, b :: Less(a, b) || a == b || Less(b, a)
  {
    forall a, b, c | Less(a, b) && Less(b, c)
      ensures Less(a, c)
    {
      if a.Text? && b.Text? && c.Text? {
        LexLessTransitive(a.s, b.s, c.s);
      }
    }
    forall a, b
      ensures Less(a, b) ==> !Less(b, a) && a != b
      ensures Less(a, b) || a == b || Less(b, a)
    {
      if a.Text? && b.Text? {
        LexLessTrichotomy(a.s, b.s);
      }
    }
  }

  /** Strings in dictionary order: after a common prefix the first ends, or has the smaller character. */
  ghost predicate ComesBefore(a: string, b: string) {
    exists k :: 0 <= k <= |a| && k <= |b| && a[..k] == b[..k] &&
                (k == |a| < |b| || (k < |a| && k < |b| && a[k] < b[k]))
  }

  lemma {:induction false} LexLessIsDictionaryOrder(a: string, b: string)
    ensures LexLess(a, b) <==> ComesBefore(a, b)
  {
    if a == [] && b != [] {
      assert a[..0] == b[..0];
    } else if a != [] && b != [] && a[0] != b[0] {
      assert a[..0] == b[..0];
      assert forall k :: 0 < k <= |a| && k <= |b| ==> a[..k][0] != b[..k][0];
    } else if a != [] && b != [] {
      LexLessIsDictionaryOrder(a[1..], b[1..]);
      if ComesBefore(a[1..], b[1..]) {
        var k :| 0 <= k <= |a| - 1 && k <= |b| - 1 && a[1..][..k] == b[1..][..k] &&
                 (k == |a| - 1 < |b| - 1 || (k < |a| - 1 && k < |b| - 1 && a[1..][k] < b[1..][k]));
        assert a[..k + 1] == [a[0]] + a[1..][..k] && b[..k + 1] == [b[0]] + b[1..][..k];
      }
      if ComesBefore(a, b) {
        var k :| 0 <= k <= |a| && k <= |b| && a[..k] == b[..k] &&
                 (k == |a| < |b| || (k < |a| && k < |b| && a[k] < b[k]));
        assert k > 0;
        assert a[1..][..k - 1] == a[..k][1..] && b[1..][..k - 1] == b[..k][1..];
      }
    }
  }

  /** The order is that of each column type: numbers by size, strings by their first difference. */
  lemma LessInEachType(a: Value, b: Value)
    ensures a.Int? && b.Int? ==> (Less(a, b) <==> a.i < b.i)
    ensures a.Long? && b.Long? ==> (Less(a, b) <==> a.l < b.l)
    ensures a.Float? && b.Float? ==> (Less(a, b) <==> a.f < b.f)
    ensures a.Double? && b.Double? ==> (Less(a, b) <==> a.d < b.d)
    ensures a.Text? && b.Text? ==> (Less(a, b) <==> ComesBefore(a.s, b.s))
  {
    if a.Text? && b.Text? {
      LexLessIsDictionaryOrder(a.s, b.s);
    }
  }

  // ----- Scan operators and row ids -----

  datatype ScanType =
    | OpEquals
    | OpNotEquals
    | OpLessThan
    | OpLessThanEquals
    | OpGreaterThan
    | OpGreaterThanEquals

  /** `_create_scan_operation<T>`: the comparison a scan type stands for. */
  predicate Compare(op: ScanType, l: Value, r: Value) {
    match op
    case OpEquals => l == r
    case OpNotEquals => l != r
    case OpLessThan => Less(l, r)
    case OpLessThanEquals => l == r || Less(l, r)
    case OpGreaterThan => Less(r, l)
    case OpGreaterThanEquals => l == r || Less(r, l)
  }

  /** What each scan type asks of two strings. */
  lemma StringsCompare(op: ScanType, x: string, y: string)
    ensures match op
            case OpEquals => Compare(op, Text(x), Text(y)) <==> x == y
            case OpNotEquals => Compare(op, Text(x), Text(y)) <==> x != y
            case OpLessThan => Compare(op, Text(x), Text(y)) <==> ComesBefore(x, y)
            case OpLessThanEquals => Compare(op, Text(x), Text(y)) <==> x == y || ComesBefore(x, y)
            case OpGreaterThan => Compare(op, Text(x), Text(y)) <==> ComesBefore(y, x)
            case OpGreaterThanEquals => Compare(op, Text(x), Text(y)) <==> x == y || ComesBefore(y, x)
  {
    LexLessIsDictionaryOrder(x, y);
    LexLessIsDictionaryOrder(y, x);
  }

  /** SQL comparison of a cell with a non-NULL value: never true of NULL. */
  predicate Matches(cell: Cell, op: ScanType, v: Value) {
    cell.NonNull? && Compare(op, cell.value, v)
  }

  const INVALID_VALUE_ID: nat := MAX_UINT32
  const INVALID_CHUNK_OFFSET: nat := MAX_UINT32

  datatype RowID = RowID(chunkId: nat, chunkOffset: nat) {
    predicate IsNullRow() {
      chunkOffset == INVALID_CHUNK_OFFSET
    }

    predicate Before(other: RowID) {
      chunkId < other.chunkId || (chunkId == other.chunkId && chunkOffset < other.chunkOffset)
    }
  }
}
