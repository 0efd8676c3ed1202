/**
 * The forward-only row cursor (a DbDataReader) as far as the projection
 * uses it: FieldCount, Read(), IsDBNull(ordinal), the typed getters and
 * GetValue(ordinal).
 */
module Reader {

  import opened Wrappers
  import opened Values

  /** The typed getters of DbDataReader that the rules call. */
  datatype Getter =
    | GetString | GetByte | GetInt16 | GetInt32 | GetInt64
    | GetFloat | GetDouble | GetDecimal | GetDateTime | GetBoolean | GetGuid

  /** Whether a payload has the shape (and the width) a getter reads. */
  predicate Fits(g: Getter, d: Datum) {
    match g
    case GetString => d.DText?
    case GetByte => d.DInt? && 0 <= d.i <= 0xFF
    case GetInt16 => d.DInt? && -0x8000 <= d.i <= 0x7FFF
    case GetInt32 => d.DInt? && -0x8000_0000 <= d.i <= 0x7FFF_FFFF
    case GetInt64 => d.DInt? && -0x8000_0000_0000_0000 <= d.i <= 0x7FFF_FFFF_FFFF_FFFF
    case GetFloat => d.DFloat?
    case GetDouble => d.DDouble?
    case GetDecimal => d.DDecimal?
    case GetDateTime => d.DDateTime?
    case GetBoolean => d.DBool?
    case GetGuid => d.DGuid?
  }

  /**
   * A typed getter on a non-null cell: the payload itself when it has the
   * getter's shape, InvalidCastException otherwise.
   */
  function Get(g: Getter, d: Datum): (r: Result<Datum, Error>)
    ensures r.Success? <==> Fits(g, d)
    ensures r.Success? ==> r.value == d
    ensures r.Failure? ==> r.error == InvalidCast
  {
    if Fits(g, d) then Success(d) else Failure(InvalidCast)
  }

  /** Every row of a result has FieldCount cells. */
  ghost predicate WellShaped(rows: seq<seq<Cell>>, fieldCount: nat) {
    forall i | 0 <= i < |rows| :: |rows[i]| == fieldCount
  }

  class DataReader {
    /** The rows of the result, in the order the cursor delivers them. */
    const rows: seq<seq<Cell>>
    /** FieldCount: the number of columns of the result. */
    const fieldCount: nat
    /** The current row: -1 before the first Read(), |rows| once Read() has returned false. */
    var pos: int

    ghost predicate Valid()
      reads this
    {
      -1 <= pos <= |rows| && WellShaped(rows, fieldCount)
    }

    constructor (rows: seq<seq<Cell>>, fieldCount: nat)
      requires WellShaped(rows, fieldCount)
      ensures Valid()
      ensures this.rows == rows && this.fieldCount == fieldCount && pos == -1
    {
      this.rows := rows;
      this.fieldCount := fieldCount;
      pos := -1;
    }

    /** Advances to the next row; false, for good, once the rows are exhausted. */
    method Read() returns (ok: bool)
      requires Valid()
      modifies this
      ensures Valid()
      ensures ok <==> old(pos) + 1 < |rows|
      ensures pos == if ok then old(pos) + 1 else |rows|
    {
      if pos + 1 < |rows| {
        pos := pos + 1;
        ok := true;
      } else {
        pos := |rows|;
        ok := false;
      }
    }

    /** The cell at `ordinal` of the current row. */
    function CellAt(ordinal: nat): Cell
      reads this
      requires Valid() && 0 <= pos < |rows| && ordinal < fieldCount
    {
      rows[pos][ordinal]
    }
  }
}
