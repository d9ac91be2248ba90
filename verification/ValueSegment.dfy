/** The segment that stores its values one by one, with a parallel vector of NULL flags. */
module ValueSegments {
  import opened Types
  import opened Segments
  import opened TableModel

  class ValueSegment {
    const ty: DataType
    var values: seq<Value>
    var nullValues: Option<seq<bool>>

    constructor (ty: DataType, nullable: bool)
      ensures View() == EmptySegment(ty, nullable)
    {
      this.ty := ty;
      values := [];
      nullValues := if nullable then Some([]) else None;
    }

    /** The contents as a value. */
    function View(): StoredSegment
      reads this
    {
      ValueData(ty, values, nullValues)
    }

    predicate IsNull(chunkOffset: nat)
      requires View().Readable() && chunkOffset < |values|
      reads this
      ensures IsNull(chunkOffset) <==> View().CellAt(chunkOffset) == Null
    {
      nullValues.Some? && nullValues.value[chunkOffset]
    }

    /** `get_typed_value`, which is also what the subscript operator returns. */
    function GetTypedValue(chunkOffset: nat): Cell
      requires View().Readable() && chunkOffset < |values|
      reads this
      ensures GetTypedValue(chunkOffset) == View().Cells()[chunkOffset]
    {
      if IsNull(chunkOffset) then Null else NonNull(values[chunkOffset])
    }

    /** Appends a cell. False, with nothing changed, when the cell is NULL and the segment has no NULL flags,
        or its value cannot be cast to the segment's type. */
    method Append(cast: Cast, cell: Cell) returns (ok: bool)
      modifies this
      ensures ok <==> AppendValue(cast, old(View()), cell).Some?
      ensures ok <==> if cell.Null? then old(nullValues).Some? else cast(ty, cell.value).Some?
      ensures ok && cell.Null? ==>
                match ty
                case IntType => values == old(values) + [Int(0)]
                case LongType => values == old(values) + [Long(0)]
                case FloatType => values == old(values) + [Float(0.0)]
                case DoubleType => values == old(values) + [Double(0.0)]
                case StringType => values == old(values) + [Text("")]
      ensures ok && cell.NonNull? ==> values == old(values) + [cast(ty, cell.value).value]
      ensures View() == if ok then AppendValue(cast, old(View()), cell).value else old(View())
    {
      if cell.Null? {
        if nullValues.None? {
          return false;
        }
        nullValues := Some(nullValues.value + [true]);
        values := values + [Default(ty)];
        return true;
      }
      match cast(ty, cell.value)
      case None =>
        return false;
      case Some(v) =>
        values := values + [v];
        if nullValues.Some? {
          nullValues := Some(nullValues.value + [false]);
        }
        return true;
    }
  }
}
