/**
 * The System.Convert calls the generic rule makes on the object that
 * GetValue returns: Convert.ToSByte, ToUInt16, ToUInt32 and ToUInt64.
 * A value the target width cannot represent raises OverflowException;
 * nothing wraps around.
 */
module Conversions {

  import opened Wrappers
  import opened Values

  datatype Conversion = ToSByte | ToUInt16 | ToUInt32 | ToUInt64

  function MinValue(c: Conversion): int {
    if c == ToSByte then -0x80 else 0
  }

  function MaxValue(c: Conversion): int {
    match c
    case ToSByte => 0x7F
    case ToUInt16 => 0xFFFF
    case ToUInt32 => 0xFFFF_FFFF
    case ToUInt64 => 0xFFFF_FFFF_FFFF_FFFF
  }

  predicate InRange(c: Conversion, n: int) {
    MinValue(c) <= n <= MaxValue(c)
  }

  /** The range check every Convert.ToX overload ends with. */
  function Narrow(c: Conversion, n: int): Result<Datum, Error> {
    if InRange(c, n) then Success(DInt(n)) else Failure(Overflow)
  }

  /**
   * Convert.ToX(object) on a non-null payload: integers, characters,
   * booleans (1 or 0), rounded floating-point and decimal payloads and
   * integer text convert; DateTime, Guid and byte[] payloads do not.
   */
  function ConvertTo(c: Conversion, d: Datum): (r: Result<Datum, Error>)
    ensures r.Success? ==> r.value.DInt? && InRange(c, r.value.i)
    ensures d.DInt? ==> r == (if InRange(c, d.i) then Success(d) else Failure(Overflow))
    ensures d.DBool? ==> r == Success(DInt(if d.b then 1 else 0))
    ensures (d.DDateTime? || d.DGuid? || d.DBinary?) ==> r == Failure(InvalidCast)
  {
    match d
    case DInt(i) => Narrow(c, i)
    case DBool(b) => Success(DInt(if b then 1 else 0))
    case DChar(ch) => Narrow(c, ch as int)
    case DText(s) =>
      (match ParseInteger(s)
       case None => Failure(Format)
       case Some(n) => Narrow(c, n))
    case DFloat(_, nearest) => NarrowRounded(c, nearest)
    case DDouble(_, nearest) => NarrowRounded(c, nearest)
    case DDecimal(_, nearest) => NarrowRounded(c, nearest)
    case DDateTime(_) => Failure(InvalidCast)
    case DGuid(_) => Failure(InvalidCast)
    case DBinary(_) => Failure(InvalidCast)
  }

  /** A NaN or infinite payload (no nearest integer) overflows every width. */
  function NarrowRounded(c: Conversion, nearest: Option<int>): Result<Datum, Error> {
    match nearest
    case None => Failure(Overflow)
    case Some(n) => Narrow(c, n)
  }

  // Integer text, as the integer Parse methods read it with NumberStyles.Integer:
  // optional white space around an optional sign and at least one decimal digit.

  predicate IsWhite(ch: char) {
    ch == ' ' || '\t' <= ch <= '\r'
  }

  predicate IsDigit(ch: char) {
    '0' <= ch <= '9'
  }

  predicate AllDigits(s: string) {
    forall i | 0 <= i < |s| :: IsDigit(s[i])
  }

  function TrimStart(s: string): string {
    if s != [] && IsWhite(s[0]) then TrimStart(s[1..]) else s
  }

  function TrimEnd(s: string): string {
    if s != [] && IsWhite(s[|s| - 1]) then TrimEnd(s[..|s| - 1]) else s
  }

  /** The value of a string of decimal digits, most significant first. */
  function DigitsValue(s: string): nat
    requires AllDigits(s)
  {
    if s == [] then 0
    else DigitsValue(s[..|s| - 1]) * 10 + (s[|s| - 1] as int - '0' as int)
  }

  function ParseInteger(s: string): Option<int> {
    var t := TrimEnd(TrimStart(s));
    if |t| > 1 && (t[0] == '-' || t[0] == '+') && AllDigits(t[1..]) then
      var magnitude: int := DigitsValue(t[1..]);
      Some(if t[0] == '-' then -magnitude else magnitude)
    else if |t| > 0 && AllDigits(t) then
      Some(DigitsValue(t))
    else
      None
  }

  // The decimal text an integer is written as (Int64.ToString in the
  // invariant culture): the reference the parser is checked against.

  function DecimalDigits(n: nat): (s: string)
    ensures |s| > 0 && AllDigits(s)
  {
    if n < 10 then ["0123456789"[n]] else DecimalDigits(n / 10) + ["0123456789"[n % 10]]
  }

  function IntegerText(n: int): string {
    if n < 0 then "-" + DecimalDigits(-n) else DecimalDigits(n)
  }

  lemma {:induction false} DigitsValueOfDecimalDigits(n: nat)
    ensures DigitsValue(DecimalDigits(n)) == n
  {
    var s := DecimalDigits(n);
    if n >= 10 {
      DigitsValueOfDecimalDigits(n / 10);
      assert s[..|s| - 1] == DecimalDigits(n / 10);
    }
  }

  /** Text written from an integer converts back to that integer. */
  lemma ParseIntegerText(n: int)
    ensures ParseInteger(IntegerText(n)) == Some(n)
  {
    var s := IntegerText(n);
    var m: nat := if n < 0 then -n else n;
    var ds := DecimalDigits(m);
    DigitsValueOfDecimalDigits(m);
    assert !IsWhite(s[0]);
    assert TrimStart(s) == s;
    assert s[|s| - 1] == ds[|ds| - 1];
    assert TrimEnd(s) == s;
    if n < 0 {
      assert s[1..] == ds;
    } else {
      assert s == ds;
    }
  }
}
