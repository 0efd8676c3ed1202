/**
 * What a row cursor holds and what the projection writes into a target:
 * stored cell payloads, cells, member values and the errors raised on the way.
 */
module Values {

  import opened Wrappers

  /**
   * An opaque payload of a type whose arithmetic is not modelled
   * (float, double, decimal, DateTime, Guid). Token 0 stands for the
   * type's default value (0, DateTime.MinValue, Guid.Empty).
   */
  type Token = nat

  /**
   * The payload of a non-null cell. A floating-point or decimal payload
   * carries, beside its token, the integer System.Convert rounds it to
   * (ties to even), or None for NaN and the infinities.
   */
  datatype Datum =
    | DInt(i: int)
    | DBool(b: bool)
    | DChar(c: char)
    | DText(s: string)
    | DFloat(ftoken: Token, fnearest: Option<int>)
    | DDouble(dtoken: Token, dnearest: Option<int>)
    | DDecimal(mtoken: Token, mnearest: Option<int>)
    | DDateTime(ttoken: Token)
    | DGuid(gtoken: Token)
    | DBinary(bytes: seq<bv8>)

  /** A cell of the current row: SQL NULL (IsDBNull is true) or a payload. */
  datatype Cell = Null | Val(datum: Datum)

  /** The helpers a rule can delegate to; their bodies are not part of this model. */
  datatype Helper =
    | GetCharFromString          // CharsHelperParser, target char
    | GetNullableCharFromString  // CharsHelperParser, target char?
    | GetChars                   // CharsHelperParser, target char[]
    | GetBytes                   // BytesHelperParser, target byte[]
    | GetStream                  // StreamHelperParser, target Stream

  /** The value a target member (or a scalar parser's element) receives. */
  datatype Value =
    | NullValue                              // null reference, or a Nullable<T> without a value
    | Data(datum: Datum)                     // a scalar of one of the recognised shapes
    | FromHelper(helper: Helper, cell: Cell) // whatever `helper` returns for `cell`
    | ZeroOf(typeName: string)               // default(T) of a value type outside the catalog

  /** The exceptions the modelled code can raise. */
  datatype Error =
    | InvalidReader            // the reader reference is absent
    | InvalidOperation         // the target type has no public instance constructor
    | DuplicateKey(key: string) // Dictionary.Add met a key twice (ArgumentException)
    | InvalidCast              // a getter or a conversion met a payload of another shape
    | Overflow                 // a numeric conversion cannot represent the value
    | Format                   // a numeric conversion met text that is not an integer
    | IndexOutOfRange          // an ordinal outside the row
}
