/**
 * The shape every single-column parser shares: Parse reads the rows of a
 * cursor one by one and projects the cell at ordinal 0 of each; ParseSingle
 * reads at most one row. The parsers differ only in how they turn that cell
 * into a value (`decode`), which each parser's module defines.
 */
module ScalarParser {

  import opened Wrappers
  import opened Values
  import opened Reader

  /** What enumerating Parse's result delivers: the values yielded and the exception that ended it, if any. */
  datatype Yield = Yield(values: seq<Value>, failure: Option<Error>)

  ghost predicate HasColumn(rows: seq<seq<Cell>>) {
    forall i | 0 <= i < |rows| :: |rows[i]| > 0
  }

  /** The values yielded for `rows`, in order, up to the first row whose cell does not decode. */
  function Drain(rows: seq<seq<Cell>>, decode: Cell -> Result<Value, Error>): Yield
    requires HasColumn(rows)
    decreases |rows|
  {
    if rows == [] then Yield([], None)
    else
      var prior := Drain(rows[..|rows| - 1], decode);
      if prior.failure.Some? then prior
      else
        match decode(rows[|rows| - 1][0])
        case Failure(e) => Yield(prior.values, Some(e))
        case Success(v) => Yield(prior.values + [v], None)
  }

  /**
   * Parse on a cursor at `pos`: nothing when the first Read() fails or
   * FieldCount is 0; otherwise one decoded value per remaining row.
   */
  function ParseSpec(rows: seq<seq<Cell>>, fieldCount: nat, pos: int, decode: Cell -> Result<Value, Error>): Yield
    requires WellShaped(rows, fieldCount) && -1 <= pos <= |rows|
  {
    if pos + 1 >= |rows| || fieldCount == 0 then Yield([], None)
    else Drain(rows[pos + 1..], decode)
  }

  /** Where Parse leaves the cursor: past the end, or on the row whose cell raised. */
  function ParseEnd(rows: seq<seq<Cell>>, fieldCount: nat, pos: int, decode: Cell -> Result<Value, Error>): int
    requires WellShaped(rows, fieldCount) && -1 <= pos <= |rows|
  {
    var y := ParseSpec(rows, fieldCount, pos, decode);
    if pos + 1 >= |rows| then |rows|
    else if fieldCount == 0 then pos + 1
    else if y.failure.None? then |rows|
    else pos + 1 + |y.values|
  }

  /** ParseSingle on a cursor at `pos`: (true, value) for the next row, (false, default) when there is none or no column. */
  function ParseSingleSpec(rows: seq<seq<Cell>>, fieldCount: nat, pos: int,
                           decode: Cell -> Result<Value, Error>, default: Value): Result<(bool, Value), Error>
    requires WellShaped(rows, fieldCount) && -1 <= pos <= |rows|
  {
    if pos + 1 >= |rows| || fieldCount == 0 then Success((false, default))
    else
      match decode(rows[pos + 1][0])
      case Success(v) => Success((true, v))
      case Failure(e) => Failure(e)
  }

  /**
   * Parse: validates the reader, then yields the decoded cell at ordinal 0
   * of each row while Read() succeeds; FieldCount is tested after the first
   * Read() only.
   */
  method ParseColumn0(reader: DataReader?, decode: Cell -> Result<Value, Error>) returns (y: Yield)
    requires reader != null ==> reader.Valid()
    modifies reader
    ensures reader == null ==> y == Yield([], Some(InvalidReader))
    ensures reader != null ==> reader.Valid()
    ensures reader != null ==> y == ParseSpec(reader.rows, reader.fieldCount, old(reader.pos), decode)
    ensures reader != null ==> reader.pos == ParseEnd(reader.rows, reader.fieldCount, old(reader.pos), decode)
  {
    if reader == null {
      return Yield([], Some(InvalidReader));
    }
    ghost var start := reader.pos + 1;
    ghost var rows := reader.rows;
    var ok := reader.Read();
    if !ok || reader.fieldCount == 0 {
      return Yield([], None);
    }
    var values: seq<Value> := [];
    while ok
      invariant reader.Valid() && reader.rows == rows
      invariant start <= reader.pos <= |rows|
      invariant ok <==> reader.pos < |rows|
      invariant reader.fieldCount > 0
      invariant Drain(rows[start..reader.pos], decode) == Yield(values, None)
      decreases |rows| - reader.pos
    {
      var v := decode(reader.CellAt(0));
      if v.Failure? {
        DrainStop(rows, start, reader.pos, decode);
        return Yield(values, Some(v.error));
      }
      DrainStep(rows, start, reader.pos, decode);
      values := values + [v.value];
      ok := reader.Read();
    }
    assert rows[start..reader.pos] == rows[start..];
    return Yield(values, None);
  }

  /** One more row that decodes extends what the rows before it yielded. */
  lemma DrainStep(rows: seq<seq<Cell>>, start: int, p: int, decode: Cell -> Result<Value, Error>)
    requires 0 <= start <= p < |rows| && HasColumn(rows)
    requires Drain(rows[start..p], decode).failure.None? && decode(rows[p][0]).Success?
    ensures Drain(rows[start..p + 1], decode)
            == Yield(Drain(rows[start..p], decode).values + [decode(rows[p][0]).value], None)
  {
    PrefixOfSlice(rows, start, p + 1, p - start);
  }

  /** A row that raises ends the enumeration with that row's error, after one value per earlier row. */
  lemma DrainStop(rows: seq<seq<Cell>>, start: int, p: int, decode: Cell -> Result<Value, Error>)
    requires 0 <= start <= p < |rows| && HasColumn(rows)
    requires Drain(rows[start..p], decode).failure.None? && decode(rows[p][0]).Failure?
    ensures Drain(rows[start..], decode)
            == Yield(Drain(rows[start..p], decode).values, Some(decode(rows[p][0]).error))
    ensures |Drain(rows[start..p], decode).values| == p - start
  {
    PrefixOfSlice(rows, start, p + 1, p - start);
    var rest := rows[start..];
    assert rest == rows[start..|rows|];
    PrefixOfSlice(rows, start, |rows|, p + 1 - start);
    DrainFailureSticks(rest, p + 1 - start, decode);
    DrainMeaning(rows[start..p], decode);
  }

  /** ParseSingle: validates the reader, reads once, and decodes that row's cell at ordinal 0. */
  method ParseSingleColumn0(reader: DataReader?, decode: Cell -> Result<Value, Error>, default: Value)
    returns (r: Result<(bool, Value), Error>)
    requires reader != null ==> reader.Valid()
    modifies reader
    ensures reader == null ==> r == Failure(InvalidReader)
    ensures reader != null ==> reader.Valid()
    ensures reader != null ==> r == ParseSingleSpec(reader.rows, reader.fieldCount, old(reader.pos), decode, default)
    ensures reader != null ==> reader.pos == if old(reader.pos) + 1 < |reader.rows| then old(reader.pos) + 1 else |reader.rows|
  {
    if reader == null {
      return Failure(InvalidReader);
    }
    var ok := reader.Read();
    if ok && reader.fieldCount > 0 {
      var v := decode(reader.CellAt(0));
      r := if v.Success? then Success((true, v.value)) else Failure(v.error);
    } else {
      r := Success((false, default));
    }
  }

  /** A prefix of a slice is the shorter slice. */
  lemma PrefixOfSlice<T>(s: seq<T>, lo: int, hi: int, n: int)
    requires 0 <= lo <= hi <= |s| && 0 <= n <= hi - lo
    ensures s[lo..hi][..n] == s[lo..lo + n]
  {
    forall k | 0 <= k < n ensures s[lo..hi][..n][k] == s[lo..lo + n][k] { }
  }

  // Properties

  /**
   * Drain yields decode's value for each row in order; it stops at the
   * first row that raises, with that row's error, and only then.
   */
  lemma {:induction false} DrainMeaning(rows: seq<seq<Cell>>, decode: Cell -> Result<Value, Error>)
    requires HasColumn(rows)
    ensures var y := Drain(rows, decode);
            && |y.values| <= |rows|
            && (y.failure.None? <==> |y.values| == |rows|)
            && (y.failure.Some? ==> decode(rows[|y.values|][0]) == Failure(y.failure.value))
            && forall j | 0 <= j < |y.values| :: decode(rows[j][0]) == Success(y.values[j])
    decreases |rows|
  {
    if rows != [] {
      var prefix := rows[..|rows| - 1];
      DrainMeaning(prefix, decode);
      forall j | 0 <= j < |prefix| ensures prefix[j] == rows[j] { }
    }
  }

  /** Rows after the one that raised are never read. */
  lemma {:induction false} DrainFailureSticks(rows: seq<seq<Cell>>, n: nat, decode: Cell -> Result<Value, Error>)
    requires HasColumn(rows) && n <= |rows|
    requires Drain(rows[..n], decode).failure.Some?
    ensures Drain(rows, decode) == Drain(rows[..n], decode)
    decreases |rows| - n
  {
    if n < |rows| {
      assert rows[..n + 1][..n] == rows[..n];
      DrainFailureSticks(rows, n + 1, decode);
    } else {
      assert rows[..n] == rows;
    }
  }

  /**
   * Parse yields nothing when the first Read() fails or there is no
   * column; otherwise, when no cell raises, exactly one value per remaining
   * row, in cursor order, each the decoded cell at ordinal 0 of its row.
   */
  lemma OnePerRow(rows: seq<seq<Cell>>, fieldCount: nat, pos: int, decode: Cell -> Result<Value, Error>)
    requires WellShaped(rows, fieldCount) && -1 <= pos <= |rows|
    ensures pos + 1 >= |rows| || fieldCount == 0 ==> ParseSpec(rows, fieldCount, pos, decode) == Yield([], None)
    ensures var y := ParseSpec(rows, fieldCount, pos, decode);
            pos + 1 < |rows| && fieldCount > 0 && y.failure.None? ==>
              |y.values| == |rows| - (pos + 1) &&
              forall j | 0 <= j < |y.values| :: decode(rows[pos + 1 + j][0]) == Success(y.values[j])
  {
    if pos + 1 < |rows| && fieldCount > 0 {
      var rest := rows[pos + 1..];
      DrainMeaning(rest, decode);
      forall j | 0 <= j < |rest| ensures rest[j] == rows[pos + 1 + j] { }
    }
  }

  /**
   * ParseSingle agrees with the first element Parse would yield on the
   * same cursor: (true, v) exactly when Parse starts with v, an error
   * exactly when Parse raises before yielding, (false, default) exactly
   * when Parse yields nothing and raises nothing.
   */
  lemma SingleAgreesWithParse(rows: seq<seq<Cell>>, fieldCount: nat, pos: int,
                              decode: Cell -> Result<Value, Error>, default: Value)
    requires WellShaped(rows, fieldCount) && -1 <= pos <= |rows|
    ensures var s := ParseSingleSpec(rows, fieldCount, pos, decode, default);
            var y := ParseSpec(rows, fieldCount, pos, decode);
            && (s.Success? && s.value.0 <==> y.values != [])
            && (s.Success? && s.value.0 ==> s.value.1 == y.values[0])
            && (s.Failure? <==> y.values == [] && y.failure.Some?)
            && (s.Failure? ==> s.error == y.failure.value)
            && (s.Success? && !s.value.0 <==> y == Yield([], None))
            && (s.Success? && !s.value.0 ==> s.value.1 == default)
  {
    if pos + 1 < |rows| && fieldCount > 0 {
      var rest := rows[pos + 1..];
      DrainMeaning(rest, decode);
      assert rest[0] == rows[pos + 1];
    }
  }

  /** Every value Parse yields, whether or not a later row raises, is the decoded cell of its own row. */
  lemma EachYieldDecodesItsRow(rows: seq<seq<Cell>>, fieldCount: nat, pos: int, decode: Cell -> Result<Value, Error>)
    requires WellShaped(rows, fieldCount) && -1 <= pos <= |rows|
    ensures var y := ParseSpec(rows, fieldCount, pos, decode);
            forall j | 0 <= j < |y.values| :: pos + 1 + j < |rows| && decode(rows[pos + 1 + j][0]) == Success(y.values[j])
  {
    if pos + 1 < |rows| && fieldCount > 0 {
      var rest := rows[pos + 1..];
      DrainMeaning(rest, decode);
      forall j | 0 <= j < |rest| ensures rest[j] == rows[pos + 1 + j] { }
    }
  }
}
