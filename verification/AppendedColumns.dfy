/** Columns as appending builds them: what they store for a NULL, and when compression keeps them. */
module AppendedColumns {
  import opened Types
  import opened Segments
  import opened Encoding
  import opened TableModel
  import opened Runs

  /** A cast to a column type gives a value of that type. */
  ghost predicate Typed(cast: Cast) {
    forall ty, v :: cast(ty, v).Some? ==> TypeOf(cast(ty, v).value) == ty
  }

  /** A value segment after appending cells one by one; None when one of them throws. */
  ghost function AppendAll(cast: Cast, vs: StoredSegment, cells: seq<Cell>): (r: Option<StoredSegment>)
    requires vs.ValueData?
    ensures r.Some? ==> r.value.ValueData?
  {
    if cells == [] then Some(vs)
    else
      match AppendAll(cast, vs, cells[..|cells| - 1])
      case None => None
      case Some(before) => AppendValue(cast, before, cells[|cells| - 1])
  }

  /** What a column stores for an appended cell. */
  ghost predicate StoredFor(cast: Cast, ty: DataType, appended: Cell, stored: Cell) {
    if appended.Null? then stored == Null else stored.NonNull? && cast(ty, appended.value) == Some(stored.value)
  }

  /** A column built by appends holds one cell for each, the NULL or the cast value. */
  lemma {:induction false} AppendedColumnStores(
      cast: Cast, ty: DataType, nullable: bool, cells: seq<Cell>, vs: StoredSegment)
    returns (stored: seq<Cell>)
    requires AppendAll(cast, EmptySegment(ty, nullable), cells) == Some(vs)
    ensures vs == StoreCells(ty, nullable, stored) && |stored| == |cells|
    ensures Null in stored ==> nullable
    ensures forall k :: 0 <= k < |cells| ==> StoredFor(cast, ty, cells[k], stored[k])
  {
    if cells == [] {
      stored := [];
      var none := StoreCells(ty, nullable, []);
      assert none.values == [] && (nullable ==> none.nulls.value == []);
    } else {
      var n := |cells| - 1;
      var before := AppendAll(cast, EmptySegment(ty, nullable), cells[..n]).value;
      var init := AppendedColumnStores(cast, ty, nullable, cells[..n], before);
      var last := if cells[n].Null? then Null else NonNull(cast(ty, cells[n].value).value);
      AppendValueStores(cast, ty, nullable, init, cells[n], last);
      stored := init + [last];
      assert forall k :: 0 <= k < n ==> cells[..n][k] == cells[k];
    }
  }

  /** The slot of a NULL holds the zero of the type, or the empty string. */
  lemma NullSlotHoldsZero(cast: Cast, ty: DataType, nullable: bool, cells: seq<Cell>, vs: StoredSegment, k: nat)
    requires AppendAll(cast, EmptySegment(ty, nullable), cells) == Some(vs)
    requires k < |cells| && cells[k].Null?
    ensures nullable && |vs.values| == |cells|
    ensures match ty
            case IntType => vs.values[k] == Int(0)
            case LongType => vs.values[k] == Long(0)
            case FloatType => vs.values[k] == Float(0.0)
            case DoubleType => vs.values[k] == Double(0.0)
            case StringType => vs.values[k] == Text("")
  {
    var stored := AppendedColumnStores(cast, ty, nullable, cells, vs);
    assert stored[k] == Null;
  }

  lemma AppendedColumnHoldsType(cast: Cast, ty: DataType, nullable: bool, cells: seq<Cell>, vs: StoredSegment)
    requires Typed(cast) && AppendAll(cast, EmptySegment(ty, nullable), cells) == Some(vs)
    ensures vs.ty == ty && HoldsType(ty, vs.values)
  {
    var stored := AppendedColumnStores(cast, ty, nullable, cells, vs);
    forall k | 0 <= k < |stored|
      ensures TypeOf(vs.values[k]) == ty
    {
      assert StoredFor(cast, ty, cells[k], stored[k]);
    }
  }

  /** A column is safe when it has no NULL, or all its numbers are positive, or all its strings non-empty. */
  lemma SafeInEachType(ty: DataType, cells: seq<Cell>)
    requires forall k :: 0 <= k < |cells| && cells[k].NonNull? ==> TypeOf(cells[k].value) == ty
    ensures PlaceholderSafe(ty, cells) <==>
              Null in cells ==>
                forall k :: 0 <= k < |cells| && cells[k].NonNull? ==>
                  match ty
                  case IntType => cells[k].value.Int? && cells[k].value.i > 0
                  case LongType => cells[k].value.Long? && cells[k].value.l > 0
                  case FloatType => cells[k].value.Float? && cells[k].value.f > 0.0
                  case DoubleType => cells[k].value.Double? && cells[k].value.d > 0.0
                  case StringType => cells[k].value.Text? && cells[k].value.s != ""
  {
    forall k | 0 <= k < |cells| && cells[k].NonNull?
      ensures Less(Default(ty), cells[k].value) <==>
                match ty
                case IntType => cells[k].value.Int? && cells[k].value.i > 0
                case LongType => cells[k].value.Long? && cells[k].value.l > 0
                case FloatType => cells[k].value.Float? && cells[k].value.f > 0.0
                case DoubleType => cells[k].value.Double? && cells[k].value.d > 0.0
                case StringType => cells[k].value.Text? && cells[k].value.s != ""
    {
    }
  }

  lemma AppendedColumnReads(cast: Cast, ty: DataType, nullable: bool, cells: seq<Cell>, vs: StoredSegment)
    requires |cells| <= 0xFFFF_FFFF && AppendAll(cast, EmptySegment(ty, nullable), cells) == Some(vs)
    ensures vs.ty == ty && vs.Readable() && NullsHoldDefault(vs) && |vs.Cells()| == |cells|
    ensures forall k :: 0 <= k < |cells| ==> StoredFor(cast, ty, cells[k], vs.Cells()[k])
  {
    var stored := AppendedColumnStores(cast, ty, nullable, cells, vs);
    StoreCellsReads(ty, nullable, stored);
  }

  lemma TypedColumnRoundTripsIff(vs: StoredSegment)
    requires vs.ValueData? && vs.Readable() && NullsHoldDefault(vs) && HoldsType(vs.ty, vs.values)
    ensures Encode(vs).Readable()
    ensures Encode(vs).Cells() == vs.Cells() <==>
              Null in vs.Cells() ==>
                forall k :: 0 <= k < |vs.Cells()| && vs.Cells()[k].NonNull? ==>
                  match vs.ty
                  case IntType => vs.Cells()[k].value.Int? && vs.Cells()[k].value.i > 0
                  case LongType => vs.Cells()[k].value.Long? && vs.Cells()[k].value.l > 0
                  case FloatType => vs.Cells()[k].value.Float? && vs.Cells()[k].value.f > 0.0
                  case DoubleType => vs.Cells()[k].value.Double? && vs.Cells()[k].value.d > 0.0
                  case StringType => vs.Cells()[k].value.Text? && vs.Cells()[k].value.s != ""
  {
    RoundTripIffPlaceholderSafe(vs);
    SafeInEachType(vs.ty, vs.Cells());
  }

  /** Compressing a column built by appends keeps all its cells exactly when it has no NULL, or all
      its numbers are positive, or all its strings non-empty. */
  lemma AppendedColumnRoundTripsIff(cast: Cast, ty: DataType, nullable: bool, cells: seq<Cell>, vs: StoredSegment)
    requires Typed(cast) && |cells| <= 0xFFFF_FFFF
    requires AppendAll(cast, EmptySegment(ty, nullable), cells) == Some(vs)
    ensures vs.Readable() && Encode(vs).Readable() && |vs.Cells()| == |cells|
    ensures forall k :: 0 <= k < |cells| ==> StoredFor(cast, ty, cells[k], vs.Cells()[k])
    ensures Encode(vs).Cells() == vs.Cells() <==>
              Null in vs.Cells() ==>
                forall k :: 0 <= k < |vs.Cells()| && vs.Cells()[k].NonNull? ==>
                  match ty
                  case IntType => vs.Cells()[k].value.Int? && vs.Cells()[k].value.i > 0
                  case LongType => vs.Cells()[k].value.Long? && vs.Cells()[k].value.l > 0
                  case FloatType => vs.Cells()[k].value.Float? && vs.Cells()[k].value.f > 0.0
                  case DoubleType => vs.Cells()[k].value.Double? && vs.Cells()[k].value.d > 0.0
                  case StringType => vs.Cells()[k].value.Text? && vs.Cells()[k].value.s != ""
  {
    AppendedColumnReads(cast, ty, nullable, cells, vs);
    AppendedColumnHoldsType(cast, ty, nullable, cells, vs);
    TypedColumnRoundTripsIff(vs);
  }
}
