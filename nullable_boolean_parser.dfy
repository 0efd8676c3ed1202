/** NullableBooleanParser: the single-column parser for bool?, reading ordinal 0 of each row. */
module NullableBooleanParser {

  import opened Wrappers
  import opened Values
  import opened Reader
  import opened TypeCatalog
  import ScalarParser

  /** The type the parser produces. */
  const Target: DeclaredType := Scalar(Boolean, true)

  /** The cell at ordinal 0: null for SQL NULL, otherwise GetBoolean(0). */
  function Decode(c: Cell): (r: Result<Value, Error>)
    ensures c.Null? ==> r == Success(NullValue)
    ensures c.Val? ==> r == if c.datum.DBool? then Success(Data(c.datum)) else Failure(InvalidCast)
  {
    match c
    case Null => Success(Default(Target))
    case Val(d) =>
      match Get(GetBoolean, d)
      case Success(v) => Success(Data(v))
      case Failure(e) => Failure(e)
  }

  /** Parse: one value per row, in cursor order; nothing when the first Read() fails or there are no columns. */
  method Parse(reader: DataReader?) returns (y: ScalarParser.Yield)
    requires reader != null ==> reader.Valid()
    modifies reader
    ensures reader == null ==> y == ScalarParser.Yield([], Some(InvalidReader))
    ensures reader != null ==> reader.Valid()
    ensures reader != null ==> y == ScalarParser.ParseSpec(reader.rows, reader.fieldCount, old(reader.pos), Decode)
    ensures reader != null ==> reader.pos == ScalarParser.ParseEnd(reader.rows, reader.fieldCount, old(reader.pos), Decode)
  {
    y := ScalarParser.ParseColumn0(reader, Decode);
  }

  /** ParseSingle: reads at most one row; (false, default) when there is none or no column. */
  method ParseSingle(reader: DataReader?) returns (r: Result<(bool, Value), Error>)
    requires reader != null ==> reader.Valid()
    modifies reader
    ensures reader == null ==> r == Failure(InvalidReader)
    ensures reader != null ==> reader.Valid()
    ensures reader != null ==> r == ScalarParser.ParseSingleSpec(reader.rows, reader.fieldCount, old(reader.pos), Decode, Default(Target))
    ensures reader != null ==> reader.pos == if old(reader.pos) + 1 < |reader.rows| then old(reader.pos) + 1 else |reader.rows|
  {
    r := ScalarParser.ParseSingleColumn0(reader, Decode, Default(Target));
  }

  /** The parser reads a cell exactly as a bool? member's setter does. */
  lemma DecodeMatchesPlan(row: seq<Cell>)
    requires |row| > 0
    ensures Decode(row[0]) == Extract(Classify(Target).value, row, 0)
  {
  }

  /** ParseSingle: (false, null) with no row left, (true, null) for a row whose cell is NULL. */
  lemma SingleOnNullOrNoRow(rows: seq<seq<Cell>>, fieldCount: nat, pos: int)
    requires WellShaped(rows, fieldCount) && -1 <= pos <= |rows|
    ensures pos + 1 >= |rows| ==> ScalarParser.ParseSingleSpec(rows, fieldCount, pos, Decode, Default(Target)) == Success((false, NullValue))
    ensures pos + 1 < |rows| && fieldCount > 0 && rows[pos + 1][0].Null? ==>
              ScalarParser.ParseSingleSpec(rows, fieldCount, pos, Decode, Default(Target)) == Success((true, NullValue))
  {
  }
}
