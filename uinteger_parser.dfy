/** UIntegerParser: the single-column parser for uint, reading ordinal 0 of each row. */
module UIntegerParser {

  import opened Wrappers
  import opened Values
  import opened Reader
  import opened Conversions
  import opened TypeCatalog
  import ScalarParser

  /** The type the parser produces. */
  const Target: DeclaredType := Scalar(UInt32, false)

  /** The cell at ordinal 0: 0 for SQL NULL, otherwise Convert.ToUInt32(GetValue(0)). */
  function Decode(c: Cell): (r: Result<Value, Error>)
    ensures c.Null? ==> r == Success(Data(DInt(0)))
    ensures r.Success? ==> r.value.Data? && r.value.datum.DInt? && 0 <= r.value.datum.i <= 0xFFFF_FFFF
    ensures c.Val? && c.datum.DInt? ==>
              r == if 0 <= c.datum.i <= 0xFFFF_FFFF then Success(Data(c.datum)) else Failure(Overflow)
  {
    match c
    case Null => Success(Default(Target))
    case Val(d) =>
      match ConvertTo(ToUInt32, d)
      case Success(v) => Success(Data(v))
      case Failure(e) => Failure(e)
  }

  /** Parse: one value per row, in cursor order; nothing when the first Read() fails or there are no columns. */
  method Parse(reader: DataReader?) returns (y: ScalarParser.Yield)
    requires reader != null ==> reader.Valid()
    modifies reader
    ensures reader == null ==> y == ScalarParser.Yield([], Some(InvalidReader))
    ensures reader != null ==> reader.Valid()
    ensures reader != null ==> y == ScalarParser.ParseSpec(reader.rows, reader.fieldCount, old(reader.pos), Decode)
    ensures reader != null ==> reader.pos == ScalarParser.ParseEnd(reader.rows, reader.fieldCount, old(reader.pos), Decode)
  {
    y := ScalarParser.ParseColumn0(reader, Decode);
  }

  /** ParseSingle: reads at most one row; (false, default) when there is none or no column. */
  method ParseSingle(reader: DataReader?) returns (r: Result<(bool, Value), Error>)
    requires reader != null ==> reader.Valid()
    modifies reader
    ensures reader == null ==> r == Failure(InvalidReader)
    ensures reader != null ==> reader.Valid()
    ensures reader != null ==> r == ScalarParser.ParseSingleSpec(reader.rows, reader.fieldCount, old(reader.pos), Decode, Default(Target))
    ensures reader != null ==> reader.pos == if old(reader.pos) + 1 < |reader.rows| then old(reader.pos) + 1 else |reader.rows|
  {
    r := ScalarParser.ParseSingleColumn0(reader, Decode, Default(Target));
  }

  /** The parser reads a cell exactly as a uint member's setter does. */
  lemma DecodeMatchesPlan(row: seq<Cell>)
    requires |row| > 0
    ensures Decode(row[0]) == Extract(Classify(Target).value, row, 0)
  {
  }

  /** Everything Parse yields is a 32-bit unsigned value; nothing wrapped to get there. */
  lemma ValuesAreUInt32(rows: seq<seq<Cell>>, fieldCount: nat, pos: int)
    requires WellShaped(rows, fieldCount) && -1 <= pos <= |rows|
    ensures forall v | v in ScalarParser.ParseSpec(rows, fieldCount, pos, Decode).values ::
              v.Data? && v.datum.DInt? && 0 <= v.datum.i <= 0xFFFF_FFFF
  {
    ScalarParser.EachYieldDecodesItsRow(rows, fieldCount, pos, Decode);
  }
}
