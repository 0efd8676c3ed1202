/** CharsParser: the single-column parser for char[], reading ordinal 0 of each row. */
module CharsParser {

  import opened Wrappers
  import opened Values
  import opened Reader
  import opened TypeCatalog
  import ScalarParser

  /** The type the parser produces. */
  const Target: DeclaredType := CharArrayType

  /**
   * The cell at ordinal 0: null (default(char[])) for SQL NULL, otherwise
   * what CharsHelperParser.GetChars returns for it.
   */
  function Decode(c: Cell): (r: Result<Value, Error>)
    ensures c.Null? ==> r == Success(NullValue)
    ensures c.Val? ==> r == Success(FromHelper(GetChars, c))
  {
    match c
    case Null => Success(Default(Target))
    case Val(_) => Success(FromHelper(GetChars, c))
  }

  /** Parse: one value per row, in cursor order; nothing when the first Read() fails or there are no columns. */
  method Parse(reader: DataReader?) returns (y: ScalarParser.Yield)
    requires reader != null ==> reader.Valid()
    modifies reader
    ensures reader == null ==> y == ScalarParser.Yield([], Some(InvalidReader))
    ensures reader != null ==> reader.Valid()
    ensures reader != null ==> y == ScalarParser.ParseSpec(reader.rows, reader.fieldCount, old(reader.pos), Decode)
    ensures reader != null ==> reader.pos == ScalarParser.ParseEnd(reader.rows, reader.fieldCount, old(reader.pos), Decode)
  {
    y := ScalarParser.ParseColumn0(reader, Decode);
  }

  /** ParseSingle: reads at most one row; (false, default) when there is none or no column. */
  method ParseSingle(reader: DataReader?) returns (r: Result<(bool, Value), Error>)
    requires reader != null ==> reader.Valid()
    modifies reader
    ensures reader == null ==> r == Failure(InvalidReader)
    ensures reader != null ==> reader.Valid()
    ensures reader != null ==> r == ScalarParser.ParseSingleSpec(reader.rows, reader.fieldCount, old(reader.pos), Decode, Default(Target))
    ensures reader != null ==> reader.pos == if old(reader.pos) + 1 < |reader.rows| then old(reader.pos) + 1 else |reader.rows|
  {
    r := ScalarParser.ParseSingleColumn0(reader, Decode, Default(Target));
  }

  /**
   * On a non-null cell the parser and a char[] member of an object agree;
   * on a null cell the parser answers null itself, where the member's
   * setter leaves the null to the helper.
   */
  lemma DecodeMatchesPlan(row: seq<Cell>)
    requires |row| > 0 && row[0].Val?
    ensures Decode(row[0]) == Extract(Classify(Target).value, row, 0)
  {
  }
}
