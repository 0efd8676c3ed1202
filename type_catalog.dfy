/**
 * The closed list of member types the object parser recognises, the
 * extraction rule each one gets, and what a rule reads from a row:
 * the type-to-rule cascade of BuildObjectPropertiesExpressions and
 * BuildObjectFieldsExpressions, together with GetConditionalExpression
 * and GetGenericConditionalExpression.
 */
module TypeCatalog {

  import opened Wrappers
  import opened Values
  import opened Reader
  import opened Conversions

  /** The value types that appear both plain and as Nullable<T>. */
  datatype ScalarKind =
    | Char | Byte | SByte | Int16 | UInt16 | Int32 | UInt32 | Int64 | UInt64
    | Single | Double | Decimal | DateTime | Boolean | Guid

  /** The declared type of a member or constructor parameter. */
  datatype DeclaredType =
    | StringType
    | StreamType
    | ByteArrayType
    | CharArrayType
    | Scalar(kind: ScalarKind, nullable: bool)
    /** Any other type; `nonNullableValueType` is true for a struct other than Nullable<T>, whose default is not null. */
    | Unsupported(name: string, nonNullableValueType: bool)

  /** How a setter obtains its value from the row at the setter's ordinal. */
  datatype Rule =
    /** IsDBNull check, then the typed getter, converted to `target`. */
    | Direct(getter: Getter, target: DeclaredType)
    /** IsDBNull check, then Convert.ToX(GetValue(ordinal)), converted to `target`. */
    | Generic(conversion: Conversion, target: DeclaredType)
    /** No null check of its own: the helper is called at the same ordinal. */
    | Delegate(helper: Helper)

  /** The scalar kinds in the order the cascade tests them, each plain then nullable. */
  function KindAt(i: nat): ScalarKind
    requires i < 15
  {
    [Char, Byte, SByte, Int16, UInt16, Int32, UInt32, Int64, UInt64,
     Single, Double, Decimal, DateTime, Boolean, Guid][i]
  }

  /** The 34 recognised types, in the order the cascade tests them. */
  const Recognised: seq<DeclaredType> :=
    [StringType]
    + seq(30, i requires 0 <= i < 30 => Scalar(KindAt(i / 2), i % 2 == 1))
    + [StreamType, ByteArrayType, CharArrayType]

  /** The types whose setter hands the reader to a helper. */
  predicate Delegated(t: DeclaredType) {
    t == Scalar(Char, false) || t == Scalar(Char, true) || t.StreamType? || t.ByteArrayType? || t.CharArrayType?
  }

  /** The widths the reader has no exact getter for. */
  predicate GenericKind(k: ScalarKind) {
    k == SByte || k == UInt16 || k == UInt32 || k == UInt64
  }

  /** The typed getter the cascade names for a kind that has one. */
  function GetterOf(k: ScalarKind): Getter
    requires k != Char && !GenericKind(k)
  {
    match k
    case Byte => GetByte
    case Int16 => GetInt16
    case Int32 => GetInt32
    case Int64 => GetInt64
    case Single => GetFloat
    case Double => GetDouble
    case Decimal => GetDecimal
    case DateTime => GetDateTime
    case Boolean => GetBoolean
    case Guid => GetGuid
  }

  function ConversionOf(k: ScalarKind): Conversion
    requires GenericKind(k)
  {
    match k
    case SByte => ToSByte
    case UInt16 => ToUInt16
    case UInt32 => ToUInt32
    case UInt64 => ToUInt64
  }

  /**
   * The type-to-rule cascade. A type outside the list gets no rule (the
   * builder skips the member); a plain type and its Nullable<T> share the
   * getter or conversion and differ only in the target they convert to.
   */
  function Classify(t: DeclaredType): (r: Option<Rule>)
    ensures r.None? <==> t.Unsupported?
    ensures r.Some? && r.value.Delegate? <==> Delegated(t)
    ensures r.Some? && r.value.Generic? <==> t.Scalar? && GenericKind(t.kind)
    ensures r.Some? && (r.value.Direct? || r.value.Generic?) ==> r.value.target == t
    ensures t.Scalar? && t.kind != Char && !GenericKind(t.kind) ==> r == Some(Direct(GetterOf(t.kind), t))
    ensures t.Scalar? && GenericKind(t.kind) ==> r == Some(Generic(ConversionOf(t.kind), t))
  {
    match t
    case StringType => Some(Direct(GetString, t))
    case StreamType => Some(Delegate(GetStream))
    case ByteArrayType => Some(Delegate(GetBytes))
    case CharArrayType => Some(Delegate(GetChars))
    case Unsupported(_, _) => None
    case Scalar(k, nullable) =>
      if k == Char then Some(Delegate(if nullable then GetNullableCharFromString else GetCharFromString))
      else if GenericKind(k) then Some(Generic(ConversionOf(k), t))
      else Some(Direct(GetterOf(k), t))
  }

  /** default(T) of a non-nullable kind. */
  function Zero(k: ScalarKind): Datum {
    match k
    case Char => DChar('\0')
    case Single => DFloat(0, Some(0))
    case Double => DDouble(0, Some(0))
    case Decimal => DDecimal(0, Some(0))
    case DateTime => DDateTime(0)
    case Boolean => DBool(false)
    case Guid => DGuid(0)
    case _ => DInt(0)
  }

  /** default(T): null for reference and nullable types, the zero value otherwise. */
  function Default(t: DeclaredType): (r: Value)
    ensures r.NullValue? <==> !(t.Scalar? && !t.nullable) && !(t.Unsupported? && t.nonNullableValueType)
    ensures t.Scalar? && !t.nullable ==> r == Data(Zero(t.kind))
  {
    match t
    case Scalar(k, nullable) => if nullable then NullValue else Data(Zero(k))
    case Unsupported(name, nonNullableValueType) => if nonNullableValueType then ZeroOf(name) else NullValue
    case _ => NullValue
  }

  /**
   * What a setter built from `rule` assigns, reading the row at `ordinal`.
   * Reading outside the row raises, the way IsDBNull does.
   */
  function Extract(rule: Rule, row: seq<Cell>, ordinal: int): (r: Result<Value, Error>)
    ensures r == Failure(IndexOutOfRange) <==> !(0 <= ordinal < |row|)
    ensures r.Failure? ==> r.error in {IndexOutOfRange, InvalidCast, Overflow, Format}
    ensures 0 <= ordinal < |row| && row[ordinal].Null? && !rule.Delegate? ==> r == Success(Default(rule.target))
    ensures 0 <= ordinal < |row| && row[ordinal].Val? && rule.Direct? && r.Success? ==> r.value == Data(row[ordinal].datum)
    ensures 0 <= ordinal < |row| && row[ordinal].Val? && rule.Generic? && r.Success? ==>
              r.value.Data? && r.value.datum.DInt? && InRange(rule.conversion, r.value.datum.i)
    ensures rule.Delegate? && 0 <= ordinal < |row| ==> r == Success(FromHelper(rule.helper, row[ordinal]))
  {
    if !(0 <= ordinal < |row|) then Failure(IndexOutOfRange)
    else
      match rule
      case Direct(getter, target) =>
        (match row[ordinal]
         case Null => Success(Default(target))
         case Val(d) =>
           (match Get(getter, d)
            case Success(v) => Success(Data(v))
            case Failure(e) => Failure(e)))
      case Generic(conversion, target) =>
        (match row[ordinal]
         case Null => Success(Default(target))
         case Val(d) =>
           (match ConvertTo(conversion, d)
            case Success(v) => Success(Data(v))
            case Failure(e) => Failure(e)))
      case Delegate(helper) => Success(FromHelper(helper, row[ordinal]))
  }

  // Properties of the catalog

  /** Where a recognised type stands in the list. */
  function Position(t: DeclaredType): nat
    requires !t.Unsupported?
  {
    match t
    case StringType => 0
    case Scalar(k, nullable) => 1 + 2 * KindIndex(k) + (if nullable then 1 else 0)
    case StreamType => 31
    case ByteArrayType => 32
    case CharArrayType => 33
  }

  function KindIndex(k: ScalarKind): nat {
    match k
    case Char => 0 case Byte => 1 case SByte => 2 case Int16 => 3 case UInt16 => 4
    case Int32 => 5 case UInt32 => 6 case Int64 => 7 case UInt64 => 8 case Single => 9
    case Double => 10 case Decimal => 11 case DateTime => 12 case Boolean => 13 case Guid => 14
  }

  lemma KindAtIndex(k: ScalarKind)
    ensures KindIndex(k) < 15 && KindAt(KindIndex(k)) == k
  {
  }

  lemma IndexKindAt(i: nat)
    requires i < 15
    ensures KindIndex(KindAt(i)) == i
  {
  }

  /** Every type the cascade recognises is in the list, at its position. */
  lemma ClassifiedAreListed(t: DeclaredType)
    requires Classify(t).Some?
    ensures Position(t) < |Recognised| && Recognised[Position(t)] == t
  {
    if t.Scalar? {
      var i := 2 * KindIndex(t.kind) + (if t.nullable then 1 else 0);
      KindAtIndex(t.kind);
      assert i / 2 == KindIndex(t.kind);
      assert Recognised[Position(t)] == Scalar(KindAt(i / 2), i % 2 == 1);
    }
  }

  /** The list holds 34 distinct types, each of which the cascade recognises. */
  lemma ListedAreClassified()
    ensures |Recognised| == 34
    ensures forall i | 0 <= i < |Recognised| :: Classify(Recognised[i]).Some? && Position(Recognised[i]) == i
    ensures forall i, j | 0 <= i < j < |Recognised| :: Recognised[i] != Recognised[j]
  {
    forall i | 0 <= i < |Recognised|
      ensures Classify(Recognised[i]).Some? && Position(Recognised[i]) == i
    {
      if 1 <= i < 31 {
        IndexKindAt((i - 1) / 2);
        assert Recognised[i] == Scalar(KindAt((i - 1) / 2), (i - 1) % 2 == 1);
      }
    }
  }

  /** The cascade recognises exactly the listed types. */
  lemma RecognisedExactly(t: DeclaredType)
    ensures Classify(t).Some? <==> t in Recognised
  {
    ListedAreClassified();
    if Classify(t).Some? {
      ClassifiedAreListed(t);
    }
  }

  /** A null cell yields default(T) under every rule that checks for null. */
  lemma NullCellYieldsDefault(t: DeclaredType, row: seq<Cell>, ordinal: int)
    requires Classify(t).Some? && !Delegated(t)
    requires 0 <= ordinal < |row| && row[ordinal].Null?
    ensures Extract(Classify(t).value, row, ordinal) == Success(Default(t))
  {
  }

  /**
   * Null truncation: a null cell read into a non-nullable value type gives
   * that type's zero value, neither an error nor a null.
   */
  lemma NullTruncatesToZero(k: ScalarKind, row: seq<Cell>, ordinal: int)
    requires k != Char
    requires 0 <= ordinal < |row| && row[ordinal].Null?
    ensures Extract(Classify(Scalar(k, false)).value, row, ordinal) == Success(Data(Zero(k)))
  {
  }

  /** On a non-null cell, a plain type and its Nullable<T> read the same value. */
  lemma NullableReadsAlike(k: ScalarKind, row: seq<Cell>, ordinal: int)
    requires k != Char
    requires 0 <= ordinal < |row| && row[ordinal].Val?
    ensures Extract(Classify(Scalar(k, true)).value, row, ordinal)
         == Extract(Classify(Scalar(k, false)).value, row, ordinal)
  {
  }

  /**
   * A direct rule on a non-null cell: the stored payload when the getter
   * can read it, InvalidCastException when it cannot.
   */
  lemma DirectReadsPayload(t: DeclaredType, row: seq<Cell>, ordinal: int)
    requires Classify(t).Some? && Classify(t).value.Direct?
    requires 0 <= ordinal < |row| && row[ordinal].Val?
    ensures var r := Extract(Classify(t).value, row, ordinal);
            if Fits(Classify(t).value.getter, row[ordinal].datum) then r == Success(Data(row[ordinal].datum))
            else r == Failure(InvalidCast)
  {
  }

  /**
   * A generic rule never wraps: an integer payload outside the target
   * width raises OverflowException, one inside it is kept as it is.
   */
  lemma GenericNeverWraps(t: DeclaredType, row: seq<Cell>, ordinal: int)
    requires t.Scalar? && GenericKind(t.kind)
    requires 0 <= ordinal < |row| && row[ordinal].Val? && row[ordinal].datum.DInt?
    ensures var n := row[ordinal].datum.i;
            Extract(Classify(t).value, row, ordinal)
            == if InRange(ConversionOf(t.kind), n) then Success(Data(DInt(n))) else Failure(Overflow)
  {
  }

  /** The delegated types skip the null check: the helper sees the cell whatever it holds. */
  lemma DelegatedBypassesNullCheck(t: DeclaredType, row: seq<Cell>, ordinal: int)
    requires Delegated(t)
    requires 0 <= ordinal < |row|
    ensures Extract(Classify(t).value, row, ordinal) == Success(FromHelper(Classify(t).value.helper, row[ordinal]))
  {
  }
}
