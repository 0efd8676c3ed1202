# EConnect / SQLEConnect row projection: a Dafny model

The EConnect and SQLEConnect libraries turn the rows of a forward-only
`DbDataReader` into .NET values. There are two kinds of parser.

* **The object parser** (`BaseObjectParser<TModel>`) inspects a target type.
  It chooses a constructor and builds a dictionary that maps each
  lower-cased member name to a compiled setter. A setter reads one cell of
  the current row and assigns it to the member. A cascade over 34 recognised
  member types decides how each setter reads its cell:
  * through a typed getter (`GetInt32`, `GetString`, ...) after an
    `IsDBNull` check;
  * through a `Convert.ToX(GetValue(i))` conversion after an `IsDBNull`
    check, for the widths the reader has no getter for (`sbyte`, `ushort`,
    `uint`, `ulong`);
  * through a helper with its own null handling (`char`, `char?`, `Stream`,
    `byte[]`, `char[]`).

  Members of any other type are skipped. The helpers are taken not to
  throw (see "## Left out").
* **Single-column parsers** (`CharsParser`, `NullableBooleanParser`,
  `UIntegerParser`, `NullableGuidParser`, `NullableLongParser`,
  `DateTimeParser`) read only ordinal 0 of each row.
  * `Parse` yields one value per row in cursor order.
  * `ParseSingle` reads at most one row and returns `(hasResult, value)`.
  * Both first validate the reader.
  * A NULL cell becomes the type's default.

The model is split into modules that follow the program's structure.

| file | module | models |
|---|---|---|
| `wrappers.dfy` | `Wrappers` | `Option` and `Result` |
| `values.dfy` | `Values` | cell contents, what a setter assigns, exceptions |
| `conversions.dfy` | `Conversions` | `Convert.ToSByte/ToUInt16/ToUInt32/ToUInt64` on a boxed cell value |
| `reader.dfy` | `Reader` | the typed getters and a `DataReader` class with a cursor |
| `type_catalog.dfy` | `TypeCatalog` | the member type cascade, `GetConditionalExpression`, `GetGenericConditionalExpression` |
| `object_parser.dfy` | `ObjectParser` | `BuildNewFunc`, `BuildObjectPropertiesExpressions`, `BuildObjectFieldsExpressions`, the compiled setter |
| `scalar_parser.dfy` | `ScalarParser` | the `Parse` / `ParseSingle` loop that all six parsers share |
| `chars_parser.dfy` … `date_time_parser.dfy` | one per parser | the parser's cell decoding, `Parse` and `ParseSingle` |

Choices in the model:

* **Exceptions.** An exception the source throws is a `Failure` value.
  * `ArgumentException` from `Dictionary.Add` is `DuplicateKey`.
  * `InvalidOperationException` from `BuildNewFunc` is `InvalidOperation`.
  * A getter's `InvalidCastException` is `InvalidCast`.
  * `Convert`'s `OverflowException` and `FormatException` are `Overflow` and `Format`.
  * The reader validation's exception is `InvalidReader`.
* **`Parse` results.** `Parse` returns what enumerating its iterator
  delivers: the sequence of values, plus the exception that ended the
  enumeration, if any.
* **The reader** is a class whose cursor `pos` is the only thing that changes.
  * `Read()` advances the cursor.
  * `Parse` and `ParseSingle` are methods proved against specification
    functions of the rows and the old cursor.
* **Reflection inputs become parameters.** The constructors, the public
  instance properties (with `CanWrite`) and the public instance fields are
  sequences passed to the builders.

Points of the code's behaviour that the model keeps:

* **Validation is deferred in `Parse`.** `Parse` is an iterator, so a
  missing reader surfaces on the first `MoveNext`, not at the call. The
  model reports it as the enumeration's failure.
* **Every typed getter is preceded by `IsDBNull`.** Only the helper-backed
  types skip the check and hand the cell to their helper.
* **The constructor with the fewest parameters wins.** The constructors are
  ordered by parameter count and the first is taken, so a parameterless one
  beats any other.
* **Case variants clash.** A second `Add` of a name that differs from an
  earlier one only in letter case throws, so the model fails with
  `DuplicateKey`.

## Model

| member | source | states |
|---|---|---|
| ObjectParser.OrderByArity | SQLEConnect/SQLEConnect/Parsers/Base/BaseObjectParser.cs:21-23 | The constructors come out ordered by parameter count. The result is a permutation of the input with the same length. |
| ObjectParser.InsertByArity | SQLEConnect/SQLEConnect/Parsers/Base/BaseObjectParser.cs:23-23 | Inserting one constructor into an ordered list keeps it ordered. The result adds exactly that constructor to the multiset. |
| ObjectParser.FirstIsCheapest | SQLEConnect/SQLEConnect/Parsers/Base/BaseObjectParser.cs:21-29 | The head of the ordered list exists when any constructor does. No constructor has fewer parameters than the head. |
| ObjectParser.ChooseConstructor | SQLEConnect/SQLEConnect/Parsers/Base/BaseObjectParser.cs:19-55 | No constructor gives an InvalidOperation failure, and only then. Otherwise the plan uses one of the type's constructors with the fewest parameters. The plan is zero-argument exactly when a parameterless constructor exists. Otherwise every parameter gets its type's default. |
| ObjectParser.BuildNewFunc | SQLEConnect/SQLEConnect/Parsers/Base/BaseObjectParser.cs:19-55 | Takes the first ordered constructor and loops over its parameters. The result is exactly ChooseConstructor's plan. The outer foreach always returns on its first pass. |
| ObjectParser.Lower | SQLEConnect/SQLEConnect/Parsers/Base/BaseObjectParser.cs:233-233 | Lower-casing a member name keeps its length. Each character is kept or replaced by a case variant, and no upper-case letter remains. |
| ObjectParser.LowerAlike | SQLEConnect/SQLEConnect/Parsers/Base/BaseObjectParser.cs:233-233 | Two names get the same key exactly when they have the same length and differ only in ASCII letter case. |
| ObjectParser.LowerIdempotent | SQLEConnect/SQLEConnect/Parsers/Base/BaseObjectParser.cs:233-233 | Lower-casing a key again changes nothing. |
| ObjectParser.BuildSetterDictionary | SQLEConnect/SQLEConnect/Parsers/Base/BaseObjectParser.cs:74-234 | The foreach over the members leaves exactly PlanOf's dictionary, or its DuplicateKey failure. Unrecognised types are skipped. |
| ObjectParser.PlanOf | SQLEConnect/SQLEConnect/Parsers/Base/BaseObjectParser.cs:74-234 | The dictionary the foreach loops leave (lines 74-234, and 257-417 for fields). Every failure is a DuplicateKey. Every key is the lower-cased name of the member its setter assigns. |
| ObjectParser.FailureSticks | SQLEConnect/SQLEConnect/Parsers/Base/BaseObjectParser.cs:233-233 | Once an Add has thrown, later members change nothing: the whole build fails with that error. |
| ObjectParser.Writable | SQLEConnect/SQLEConnect/Parsers/Base/BaseObjectParser.cs:66-66 | Exactly the properties with CanWrite take part: every member comes from a writable property, and every writable property is a member. No more members come out than properties went in, and as many when all are writable. |
| ObjectParser.WritableAppend | SQLEConnect/SQLEConnect/Parsers/Base/BaseObjectParser.cs:66-66 | Where keeps order and multiplicity: filtering p + q gives the filtered p followed by the filtered q. |
| ObjectParser.WritableOne | SQLEConnect/SQLEConnect/Parsers/Base/BaseObjectParser.cs:66-66 | A single property takes part exactly when it has CanWrite. |
| ObjectParser.BuildObjectPropertiesExpressions | SQLEConnect/SQLEConnect/Parsers/Base/BaseObjectParser.cs:57-238 | The properties builder returns the plan of the writable properties. |
| ObjectParser.BuildObjectFieldsExpressions | SQLEConnect/SQLEConnect/Parsers/Base/BaseObjectParser.cs:240-421 | The fields builder returns the plan of the fields, with the same cascade and keys. |
| ObjectParser.ApplySetter | SQLEConnect/SQLEConnect/Parsers/Base/BaseObjectParser.cs:224-231 | A setter fails exactly when its extraction fails, with the same error. On success the named member holds the extracted value and every other member is unchanged. |
| ObjectParser.PlanEntries | SQLEConnect/SQLEConnect/Parsers/Base/BaseObjectParser.cs:83-233 | A key is in a successful plan exactly when some recognised member lower-cases to it. Its setter is that member's rule. |
| ObjectParser.PlanSucceedsIffKeysDistinct | SQLEConnect/SQLEConnect/Parsers/Base/BaseObjectParser.cs:233-233 | A build succeeds exactly when no two recognised members share a lower-cased name. Every failure is a DuplicateKey. |
| ObjectParser.ReadOnlyPropertiesIgnored | SQLEConnect/SQLEConnect/Parsers/Base/BaseObjectParser.cs:66-66 | A key is in the properties plan exactly when a writable property of a recognised type provides it. A read-only property never provides a key. |
| ObjectParser.KeysIgnoreCase | SQLEConnect/SQLEConnect/Parsers/Base/BaseObjectParser.cs:233-233 | "Id", "ID" and "iD" all get the key "id". |
| ObjectParser.CaseVariantsClash | SQLEConnect/SQLEConnect/Parsers/Base/BaseObjectParser.cs:233-233 | Members "Id" and "ID" of recognised types make the build fail with DuplicateKey("id"). |
| ObjectParser.RecordExamplePlan | SQLEConnect/SQLEConnect/Parsers/Base/BaseObjectParser.cs:83-86 | An int "Id" and a string "Name" get the keys "id" and "name", with the GetInt32 and GetString rules. |
| ObjectParser.RecordExample | SQLEConnect/SQLEConnect/Parsers/Base/BaseObjectParser.cs:224-233 | Applying those two setters to a row (5, "Ann") sets Id to 5 and Name to "Ann". |
| TypeCatalog.Classify | SQLEConnect/SQLEConnect/Parsers/Base/BaseObjectParser.cs:83-222 | A type gets no rule exactly when it is outside the list. A helper rule goes exactly to char, char?, Stream, byte[] and char[]. A Convert rule goes exactly to the sbyte, ushort, uint and ulong widths and their nullables. Every other scalar gets its typed getter. Each rule converts to the member's own declared type. |
| TypeCatalog.Default | SQLEConnect/SQLEConnect/Parsers/Base/BaseObjectParser.cs:432-432 | `default(T)` is null exactly for reference and Nullable types; an unsupported struct other than Nullable<T> is marked by its `nonNullableValueType` flag. A plain scalar's default is its zero. |
| TypeCatalog.Extract | SQLEConnect/SQLEConnect/Parsers/Base/BaseObjectParser.cs:423-447 | What a setter assigns. An ordinal outside the row raises IndexOutOfRange, and no other path does. Errors are only IndexOutOfRange, InvalidCast, Overflow or Format. A NULL cell under a getter or Convert rule gives default(T). A getter rule's success is the stored value. A Convert rule's success is an integer in the target range. A helper rule hands the cell to its helper. |
| TypeCatalog.KindAtIndex | SQLEConnect/SQLEConnect/Parsers/Base/BaseObjectParser.cs:95-206 | Every scalar kind has a place in the cascade order. |
| TypeCatalog.IndexKindAt | SQLEConnect/SQLEConnect/Parsers/Base/BaseObjectParser.cs:95-206 | The cascade order lists each scalar kind once. |
| TypeCatalog.ClassifiedAreListed | SQLEConnect/SQLEConnect/Parsers/Base/BaseObjectParser.cs:83-218 | Every type that gets a rule is in the recognised list, at its own position. |
| TypeCatalog.ListedAreClassified | SQLEConnect/SQLEConnect/Parsers/Base/BaseObjectParser.cs:83-218 | The recognised list has 34 distinct types. Each of them gets a rule. |
| TypeCatalog.RecognisedExactly | SQLEConnect/SQLEConnect/Parsers/Base/BaseObjectParser.cs:83-222 | A type gets a rule exactly when it is one of the 34 listed types. |
| TypeCatalog.NullCellYieldsDefault | SQLEConnect/SQLEConnect/Parsers/Base/BaseObjectParser.cs:423-447 | For every getter or Convert rule, a NULL cell yields the member type's default and never an error. |
| TypeCatalog.NullTruncatesToZero | SQLEConnect/SQLEConnect/Parsers/Base/BaseObjectParser.cs:430-446 | A NULL cell read into a non-nullable scalar other than char yields that scalar's zero. This covers both the getter branch (lines 430-432) and the Convert branch (lines 444-446). A char member goes to GetCharFromString instead (lines 87-90). |
| TypeCatalog.NullableReadsAlike | SQLEConnect/SQLEConnect/Parsers/Base/BaseObjectParser.cs:95-206 | A non-NULL cell reads the same into T and T? for every scalar T other than char. char and char? go to two different helpers (lines 87-94). |
| TypeCatalog.DirectReadsPayload | SQLEConnect/SQLEConnect/Parsers/Base/BaseObjectParser.cs:430-432 | A getter rule on a non-NULL cell yields the stored value when it has the getter's shape and, for an integer, its value fits the getter's width. Otherwise it gives InvalidCast. |
| TypeCatalog.GenericNeverWraps | SQLEConnect/SQLEConnect/Parsers/Base/BaseObjectParser.cs:444-446 | A Convert rule on a stored integer yields it when it fits the target width, and Overflow when it does not. It never wraps. |
| TypeCatalog.DelegatedBypassesNullCheck | SQLEConnect/SQLEConnect/Parsers/Base/BaseObjectParser.cs:87-94 | A helper-backed member hands the cell, NULL or not, to its helper. The same holds for Stream, byte[] and char[] at lines 207-218. |
| Conversions.ConvertTo | SQLEConnect/SQLEConnect/Parsers/UIntegerParser.cs:29-29 | A conversion that succeeds gives an integer in the target range. A stored integer is kept when in range, and otherwise gives Overflow. Booleans become 1 or 0. Dates, GUIDs and binary give InvalidCast. |
| Conversions.DigitsValueOfDecimalDigits | SQLEConnect/SQLEConnect/Parsers/UIntegerParser.cs:29-29 | Reading back the decimal digits rendered for n gives n. |
| Conversions.ParseIntegerText | SQLEConnect/SQLEConnect/Parsers/UIntegerParser.cs:29-29 | The text parser of Convert reads back the decimal text of any integer. |
| Reader.Get | SQLEConnect/SQLEConnect/Parsers/Base/BaseObjectParser.cs:431-431 | A typed getter succeeds exactly when the stored value has its shape and, for an integer, its value fits the getter's width; it then returns that value. Otherwise it gives InvalidCast. |
| Reader.DataReader.Read | SQLEConnect/SQLEConnect/Parsers/CharsParser.cs:27-31 | Read() is true exactly when a next row exists. It advances the cursor to that row, or past the end. |
| ScalarParser.ParseColumn0 | SQLEConnect/SQLEConnect/Parsers/CharsParser.cs:21-36 | A null reader fails with InvalidReader. Otherwise the loop yields exactly ParseSpec of the rows from the old cursor, and leaves the cursor at ParseEnd. |
| ScalarParser.ParseSingleColumn0 | SQLEConnect/SQLEConnect/Parsers/CharsParser.cs:44-53 | A null reader fails with InvalidReader. Otherwise the result is ParseSingleSpec, and the cursor advances by at most one row. |
| ScalarParser.DrainMeaning | SQLEConnect/SQLEConnect/Parsers/CharsParser.cs:29-34 | Row j yields decode of its cell at ordinal 0, in order. Enumeration stops at the first row that raises, with that row's error, and only then. Every row yields when none raises. |
| ScalarParser.DrainFailureSticks | SQLEConnect/SQLEConnect/Parsers/CharsParser.cs:31-33 | Rows after the one that raised are never decoded. |
| ScalarParser.DrainStep | SQLEConnect/SQLEConnect/Parsers/CharsParser.cs:31-33 | A further row whose cell decodes appends exactly its value to what was yielded before. |
| ScalarParser.DrainStop | SQLEConnect/SQLEConnect/Parsers/CharsParser.cs:31-33 | A row whose cell raises ends the enumeration with that error. One value has been yielded for each earlier row. |
| ScalarParser.OnePerRow | SQLEConnect/SQLEConnect/Parsers/CharsParser.cs:27-35 | Parse yields nothing when the first Read() fails or FieldCount is 0. Otherwise, when nothing raises, it yields exactly one decoded value per remaining row, in cursor order. |
| ScalarParser.SingleAgreesWithParse | SQLEConnect/SQLEConnect/Parsers/CharsParser.cs:44-53 | ParseSingle returns (true, v) exactly when Parse would start with v. It raises exactly when Parse would raise before yielding. It returns (false, default) exactly when Parse yields nothing. |
| ScalarParser.EachYieldDecodesItsRow | SQLEConnect/SQLEConnect/Parsers/CharsParser.cs:29-33 | Every value yielded, even one before an exception, is the decoded cell of its own row. |
| CharsParser.Decode | SQLEConnect/SQLEConnect/Parsers/CharsParser.cs:25-29 | A NULL cell gives the null array. Any other cell goes to CharsHelperParser.GetChars at ordinal 0. |
| CharsParser.Parse | SQLEConnect/SQLEConnect/Parsers/CharsParser.cs:21-36 | Yields ParseSpec with this decoding; a null reader gives InvalidReader. |
| CharsParser.ParseSingle | SQLEConnect/SQLEConnect/Parsers/CharsParser.cs:44-53 | Returns ParseSingleSpec with this decoding and default null, reading at most one row. |
| CharsParser.DecodeMatchesPlan | SQLEConnect/SQLEConnect/Parsers/CharsParser.cs:29-29 | On a non-NULL cell the parser reads exactly as a char[] member's setter does. |
| NullableBooleanParser.Decode | SQLEConnect/SQLEConnect/Parsers/NullableBooleanParser.cs:25-29 | A NULL cell gives null. A stored boolean is returned as is. Anything else gives InvalidCast. |
| NullableBooleanParser.Parse | SQLEConnect/SQLEConnect/Parsers/NullableBooleanParser.cs:21-36 | Yields ParseSpec with this decoding; a null reader gives InvalidReader. |
| NullableBooleanParser.ParseSingle | SQLEConnect/SQLEConnect/Parsers/NullableBooleanParser.cs:44-53 | Returns ParseSingleSpec with this decoding and default null, reading at most one row. |
| NullableBooleanParser.DecodeMatchesPlan | SQLEConnect/SQLEConnect/Parsers/NullableBooleanParser.cs:29-29 | The parser reads a cell exactly as a bool? member's setter does. |
| NullableBooleanParser.SingleOnNullOrNoRow | SQLEConnect/SQLEConnect/Parsers/NullableBooleanParser.cs:48-52 | ParseSingle returns (false, null) with no row left, and (true, null) for a row whose cell is NULL. |
| UIntegerParser.Decode | SQLEConnect/SQLEConnect/Parsers/UIntegerParser.cs:25-29 | A NULL cell gives 0. Any other cell goes through Convert.ToUInt32. |
| UIntegerParser.Parse | SQLEConnect/SQLEConnect/Parsers/UIntegerParser.cs:21-36 | Yields ParseSpec with this decoding; a null reader gives InvalidReader. |
| UIntegerParser.ParseSingle | SQLEConnect/SQLEConnect/Parsers/UIntegerParser.cs:44-53 | Returns ParseSingleSpec with this decoding and default 0, reading at most one row. |
| UIntegerParser.DecodeMatchesPlan | SQLEConnect/SQLEConnect/Parsers/UIntegerParser.cs:29-29 | The parser reads a cell exactly as a uint member's setter does. |
| UIntegerParser.ValuesAreUInt32 | SQLEConnect/SQLEConnect/Parsers/UIntegerParser.cs:29-33 | Every value Parse yields is an integer in [0, 4294967295]. |
| NullableGuidParser.Decode | SQLEConnect/SQLEConnect/Parsers/NullableGuidParser.cs:25-29 | A NULL cell gives null. A stored GUID is returned as is. Anything else gives InvalidCast. |
| NullableGuidParser.Parse | SQLEConnect/SQLEConnect/Parsers/NullableGuidParser.cs:21-36 | Yields ParseSpec with this decoding; a null reader gives InvalidReader. |
| NullableGuidParser.ParseSingle | SQLEConnect/SQLEConnect/Parsers/NullableGuidParser.cs:44-53 | Returns ParseSingleSpec with this decoding and default null, reading at most one row. |
| NullableGuidParser.DecodeMatchesPlan | SQLEConnect/SQLEConnect/Parsers/NullableGuidParser.cs:29-29 | The parser reads a cell exactly as a Guid? member's setter does. |
| NullableLongParser.Decode | EConnect/EConnect/Parsers/NullableLongParser.cs:25-29 | A NULL cell gives null. An integer payload whose value fits in 64 bits is returned as is. Anything else gives InvalidCast. |
| NullableLongParser.Parse | EConnect/EConnect/Parsers/NullableLongParser.cs:21-36 | Yields ParseSpec with this decoding; a null reader gives InvalidReader. |
| NullableLongParser.ParseSingle | EConnect/EConnect/Parsers/NullableLongParser.cs:44-53 | Returns ParseSingleSpec with this decoding and default null, reading at most one row. |
| NullableLongParser.DecodeMatchesPlan | EConnect/EConnect/Parsers/NullableLongParser.cs:29-29 | The parser reads a cell exactly as a long? member's setter does. |
| NullableLongParser.SingleOnNullOrNoRow | EConnect/EConnect/Parsers/NullableLongParser.cs:48-52 | ParseSingle returns (false, null) with no row left, and (true, null) for a row whose cell is NULL. |
| DateTimeParser.Decode | EConnect/EConnect/Parsers/DateTimeParser.cs:25-29 | A NULL cell gives default(DateTime). A stored date is returned as is. Anything else gives InvalidCast. |
| DateTimeParser.Parse | EConnect/EConnect/Parsers/DateTimeParser.cs:21-36 | Yields ParseSpec with this decoding; a null reader gives InvalidReader. |
| DateTimeParser.ParseSingle | EConnect/EConnect/Parsers/DateTimeParser.cs:44-53 | Returns ParseSingleSpec with this decoding and default default(DateTime), reading at most one row. |
| DateTimeParser.DecodeMatchesPlan | EConnect/EConnect/Parsers/DateTimeParser.cs:29-29 | The parser reads a cell exactly as a DateTime member's setter does. |
| DateTimeParser.NeverNull | EConnect/EConnect/Parsers/DateTimeParser.cs:29-33 | Parse never yields null: a NULL cell becomes default(DateTime). |

## Left out

- Expression trees and their compilation are not modelled. A setter is modelled by what it computes (`ApplySetter`). The lambda, label and goto plumbing is not.
- Reflection is not modelled: `GetConstructors`, `GetProperties` and `GetFields` with their binding flags. The builders take the constructors, the public instance properties and the public instance fields as sequences.
- `GetConstructors` guarantees no order. The model does not claim which of several constructors with equally few parameters is chosen. It only claims the chosen one has the fewest.
- An indexer with a setter passes the `CanWrite` filter. `Expression.Property(x, propertyInfo)` at BaseObjectParser.cs:76 then throws `ArgumentException` for it, so the build fails. The model has no indexer flag on `Property`: it treats every property as a plain named member, so it misses this failure.
- A public `readonly` field would make `Expression.Assign` throw when the fields builder compiles its setter. That is the expression compiler's behaviour, so it is not modelled, and a field is treated as assignable.
- Constructor bodies are not modelled. What a constructor does with its synthetic default arguments is invisible, so the claim that those values never leak into the populated instance is out of reach.
- The bodies of `CharsHelperParser`, `BytesHelperParser` and `StreamHelperParser` are not part of this model. Their results are opaque values naming the helper and the cell it was given. The helpers are taken never to throw. So in the model a helper-backed setter succeeds on every in-range ordinal, and `CharsParser.Parse` never raises on a non-null reader. Whatever the real helpers throw, for example on a cell of the wrong type, is not captured.
- `BaseParser.ValidateDbDataReader` is not part of this model. It is modelled as the null check the library documents: a missing reader fails with `InvalidReader`.
- `Parse`'s laziness is not modelled. The model enumerates eagerly and records the exception that ended the enumeration. So a reader validation that fails is reported with the enumeration, not on the first `MoveNext`.
- Integer payloads carry no column width. An integer getter succeeds on any integer payload whose value fits its width, so a smallint or bigint column holding 5 reads through `GetInt32`. Two kinds of provider behaviour are left out: rejecting a column of another declared type with `InvalidCastException`, as strict providers do, and coercing payloads of other shapes.
- `Conversions.ConvertTo`: floating-point and decimal values are opaque tokens that carry their rounded integer (none for NaN or infinity). This is instead of modelling IEEE or decimal arithmetic.
- `Conversions.ConvertTo`: text parsing uses ASCII whitespace and the invariant `+`/`-` signs. Culture-specific sign symbols and the trailing-NUL tolerance of the .NET integer parsers are left out.
- `ObjectParser.Lower` lower-cases ASCII letters only; culture-sensitive and non-ASCII case mapping is left out.
- Which of the two builders a concrete object parser uses is not part of this model, and neither is matching reader columns to dictionary keys. Both are the concrete parser's job: `BaseObjectParser` only builds the dictionaries, so they live in the subclasses and not in the base class.
- The parser registry, plan caching and concurrency are left out. They live outside the modelled files.
- Reference identity and aliasing are left out: the instance being populated is a map from member name to value, so a setter returns a new map.
- The benchmark program, the constructor unit tests and the Oracle test model are not part of the projection logic and are not modelled.
