# db_scan in Dafny

A model of `db_scan`, a small Go package that turns the rows of a
`database/sql`-style cursor into Go values. `Scan(rows, target)` works in
three steps:

1. It checks the target. The code as written panics on a target of a kind
   that has no nil (see "## Findings"). The model's `Scan` uses the corrected
   guard, which refuses every target that is not a non-nil pointer.
2. It extracts every row into a map from column name to raw value
   (`ExtraDatasFromRows`).
3. It binds the rows to the destination:
   - a slice destination gets one freshly allocated element per row
     (`multiResults`);
   - any other destination is bound from the first row only
     (`singleResult`).

Binding walks a struct's fields in order. It skips a field that is
unexported, has no non-empty `pg` tag, or names a column the row lacks.
Every other field is converted by `valueConvert`, whose rules are:

- nil is a no-op;
- an assignable value is stored as it is;
- a `time.Time` becomes its `2006-01-02 15:04:05` text;
- `int64` and float values are stored numerically;
- a `[]byte` is parsed according to the field's kind;
- anything else is an error.

Module layout, following the program's structure:

- `GoTypes` (go_types.dfy): reflect kinds and the kind predicates, the
  field types, dynamic values, and the wrap-around of `SetInt`/`SetUint`.
- `Strconv` (strconv.dfy): base-10 `ParseInt`/`ParseUint` with the 64-bit
  range, and the decimal formatting they invert.
- `TimeFormat` (time_format.dfy): `Format` with `DefaultTimeFormat`, and a
  parser that inverts it.
- `Destinations` (destinations.dfy): field declarations and shapes that
  stand in for reflection. The class `Location` is a struct or a pointer
  updated in place. The class `SliceDest` is a slice destination.
- `Convert` (convert.dfy):
  - `ConvertRule`, the decision table of `valueConvert`, as a function;
  - its properties;
  - the methods `DirectSet`, `HandleConvertTime`,
    `HandleConvertMapSliceToField` and `ValueConvert`, which write a
    field of a `Location` as the rule prescribes.
- `Rows` (rows.dfy):
  - the class `Cursor`, for `IRows`, holding a column outcome, one scan
    outcome per row and a position;
  - the function `ExtractRows`;
  - the method `ExtraDatasFromRows`, with its reused slot buffer (an
    array) and its copy loop.
- `Binding` (binding.dfy):
  - tag lookup and the per-field step;
  - `Bind` and `BindAll`, which say what `singleResult` and
    `multiResults` produce;
  - the methods `BindStruct`, `SingleResult` and `MultiResults`, proved
    against those functions.
- `DbScan` (scan.dfy): the `Scan` entry point, and the guard on the
  target.
- `Scenarios` (scenarios.dfy): worked examples on concrete rows.

Each method's `ensures` ties its result and the new state to a
specification function of its inputs. The properties of the code are
lemmas about those functions.

## Model

| member | source | states |
|---|---|---|
| GoTypes.IsFloat | db_scan/db_scan.go:51-53 | true exactly for the kinds Float32 and Float64, i.e. between their reflect codes |
| GoTypes.IsInteger | db_scan/db_scan.go:55-57 | true exactly for the kinds from Int to Uintptr in reflect's numbering |
| GoTypes.IsSignedInteger | db_scan/db_scan.go:59-61 | the range Int..Int64 of reflect's constants is exactly {Int, Int8, Int16, Int32, Int64} |
| GoTypes.IsUnsignedInteger | db_scan/db_scan.go:63-65 | the range Uint..Uintptr is exactly {Uint, Uint8, Uint16, Uint32, Uint64, Uintptr} |
| GoTypes.Kind.Code | db_scan/db_scan.go:51-65 | reflect's numbering of the Kind constants: Invalid is 0 and every other kind lies in 1..26 |
| GoTypes.CodeInjective | db_scan/db_scan.go:51-65 | distinct kinds have distinct codes, so the range tests on codes select sets of kinds |
| GoTypes.KindOf | db_scan/db_scan.go:69 | reflect.Type.Kind never gives Invalid for a field type; KindOfUnderlying says which kind each type has |
| GoTypes.KindOfUnderlying | db_scan/db_scan.go:218-232 | the kind is decided by the underlying type: integer kinds exactly for integer types, float, string, bool, slice and pointer kinds for those types, Struct exactly for struct types and time.Time, Interface exactly for the empty interface |
| GoTypes.BitSize | db_scan/db_scan.go:222-225 | the width SetInt/SetUint store into is one of 8, 16, 32, 64 |
| GoTypes.Underlying | db_scan/db_scan.go:193 | the underlying type is never a declared type, has the same kind, and is the type itself for an undeclared type |
| GoTypes.AssignableTo | db_scan/db_scan.go:193 | reflect's AssignableTo: identical types are assignable; any type is assignable to an interface field; two distinct named types never are otherwise; when one of the two is unnamed, assignable exactly when the underlying types match; assignability never changes the kind |
| GoTypes.WrapUnsigned | db_scan/db_scan.go:224-225 | SetUint's store: a value below 2^bits, congruent to the input modulo 2^bits, equal to it when it already fits |
| GoTypes.WrapSigned | db_scan/db_scan.go:222-223 | SetInt's store: a value in [-2^(bits-1), 2^(bits-1)), equal to the unsigned residue or to it minus 2^bits, and equal to the input when it fits |
| GoTypes.TypeOf | db_scan/db_scan.go:186-189 | reflect.TypeOf gives no type exactly for the nil interface; a time has the type time.Time, and a well-typed value has it only when it is a time; integers, strings and byte slices have types of their kinds |
| GoTypes.Zero | db_scan/db_scan.go:129 | the zero value reflect.New gives a field is a value the field can hold |
| GoTypes.Assigned | db_scan/db_scan.go:193-194 | Set on a field: an interface field holds the value itself; otherwise the value, nil exactly when the source is nil, takes the field's type with its contents intact |
| GoTypes.AssignedHasType | db_scan/db_scan.go:193-194 | a value assignable to the field's type, once Set, is a value the field can hold |
| Strconv.ParseUint64 | db_scan/db_scan.go:260 | a parsed value never exceeds the uint64 maximum |
| Strconv.ParseInt64 | db_scan/db_scan.go:254 | a parsed value lies in the int64 range |
| Strconv.ParseFormatUint | db_scan/db_scan.go:260 | ParseUint reads back the decimal text of every uint64 |
| Strconv.ParseFormatInt | db_scan/db_scan.go:254 | ParseInt reads back the decimal text of every int64, negatives included |
| Strconv.ParseUintRejectsSign | db_scan/db_scan.go:260 | ParseUint refuses a leading sign |
| Strconv.ParseIntPlus | db_scan/db_scan.go:254 | a '+' before a digit does not change what ParseInt reads |
| Strconv.ParseIntRange | db_scan/db_scan.go:254-260 | 2^63 is beyond ParseInt's range but within ParseUint's |
| TimeFormat.Format | db_scan/db_scan.go:20 | the formatted time has exactly the length of the layout, 19 bytes |
| TimeFormat.ParseFormat | db_scan/db_scan.go:279 | the formatted text determines the time: parsing it gives back every calendar field |
| Destinations.Zeros | db_scan/db_scan.go:129 | a freshly allocated struct's fields conform to their declarations |
| Destinations.ZeroPlace | db_scan/db_scan.go:153 | a freshly allocated location (struct or nil pointer) conforms to its shape |
| Destinations.Location.constructor | db_scan/db_scan.go:153 | reflect.New: a valid location of the shape, alone in its footprint, holding the zero value |
| Destinations.Location.SetField | db_scan/db_scan.go:194 | Set on one field: that field now holds the value, every other field and the footprint are unchanged |
| Destinations.Location.SetPointee | db_scan/db_scan.go:156 | Set on a pointer level: it now points at the given location, and its value is that location's value |
| Convert.Direct | db_scan/db_scan.go:185-198 | directSet never fails; when it stores, what it stores is a value the field can hold |
| Convert.TimeRule | db_scan/db_scan.go:277-284 | handleConvertTime always writes or fails, and what it writes fits the field |
| Convert.SliceRule | db_scan/db_scan.go:242-275 | handleConvertMapSliceToField always writes or fails, and what it writes fits the field |
| Convert.IntRule | db_scan/db_scan.go:221-226 | the int64 case never fails, and what it writes fits the field |
| Convert.FloatRule | db_scan/db_scan.go:227-234 | the float cases never fail, and what they write fits the field |
| Convert.ConvertRule | db_scan/db_scan.go:201-239 | valueConvert's decision table: whatever it writes is a value the field can hold |
| Convert.NilIsNoOp | db_scan/db_scan.go:203-206 | a nil source leaves every field unchanged and never fails |
| Convert.SameTypeStoresSource | db_scan/db_scan.go:193-195 | a source of exactly the field's type is stored unchanged |
| Convert.AssignableStoresContents | db_scan/db_scan.go:193-195 | an assignable source is stored with its contents intact |
| Convert.UncoveredKindFails | db_scan/db_scan.go:235-236 | a non-assignable source of any kind but slice, int64, float32, float64 or time.Time fails with ErrConvertValue |
| Convert.WrapThroughUint64 | db_scan/db_scan.go:225 | reinterpreting as uint64 first does not change the residue modulo a field's width |
| Convert.Int64IntoSigned | db_scan/db_scan.go:221-223 | an int64 into a signed field is stored wrapped to its width, and unchanged when it fits the width |
| Convert.Int64IntoUnsigned | db_scan/db_scan.go:224-225 | an int64 into an unsigned field is uint64(v) truncated to its width; for 64 bits, v + 2^64 when v < 0 |
| Convert.Int64IntoOther | db_scan/db_scan.go:221-226 | an int64 into a non-integer field it is not assignable to is a silent no-op |
| Convert.FloatSource | db_scan/db_scan.go:227-234 | a float fills a float field and is silently dropped by any other non-assignable field |
| Convert.TimeSource | db_scan/db_scan.go:213-216 | a time into a string-kind field writes 19 bytes of text that parse back to it; into any other non-assignable field, ErrConvertValue |
| Convert.BytesSource | db_scan/db_scan.go:242-275 | a []byte: text for a string field; the ParseInt/ParseUint result, wrapped, or ErrConvertValue for integer fields; ErrUnSupportTypeConvert for non-float other kinds |
| Convert.ParsedTextIntoInt64 | db_scan/db_scan.go:253-258 | bytes that ParseInt accepts put exactly that number into an int64 field |
| Convert.DecimalTextIntoInt64 | db_scan/db_scan.go:253-258 | round trip: the decimal text of any int64 fills an int64 field with that number |
| Convert.OtherSliceFails | db_scan/db_scan.go:245-248 | a slice other than []byte fails with ErrSliceToString unless assignable |
| Convert.DirectSet | db_scan/db_scan.go:185-198 | directSet on a location: reports whether it handled the value, and the fields are those Direct prescribes |
| Convert.HandleConvertTime | db_scan/db_scan.go:277-284 | the field and the error are those TimeRule prescribes; no other field changes |
| Convert.HandleConvertMapSliceToField | db_scan/db_scan.go:242-275 | the field and the error are those SliceRule prescribes; on error the field is unchanged |
| Convert.SetFromInt64 | db_scan/db_scan.go:221-226 | the field is written as IntRule prescribes |
| Convert.SetFromFloat | db_scan/db_scan.go:227-234 | the field is written as FloatRule prescribes |
| Convert.ValueConvert | db_scan/db_scan.go:201-239 | valueConvert on a location: the field and the error are those ConvertRule prescribes, nothing else changes |
| Rows.RowMap | db_scan/db_scan.go:108-111 | the map built from one row has only column names as keys; RowMapKeys and RowMapLastWins pin its contents |
| Rows.RowMapKeys | db_scan/db_scan.go:108-111 | the row map has one key per column name and no other |
| Rows.RowMapLastWins | db_scan/db_scan.go:108-111 | a duplicated column name is bound to the value of its last occurrence |
| Rows.RowMapValues | db_scan/db_scan.go:108-111 | every value in the map is the slot of a column with its key |
| Rows.RowMapOk | db_scan/db_scan.go:110 | when every slot is a value the converter accepts, so is every value in the map |
| Rows.ExtractRows | db_scan/db_scan.go:103-113 | on success there is one map per row; an error is the error of some row's scan |
| Rows.Extraction | db_scan/db_scan.go:91-115 | ExtraDatasFromRows: a Columns error is returned as it is; on success one map per row; otherwise the error of some row's scan; when every row scans, it succeeds |
| Rows.ExtractAllRows | db_scan/db_scan.go:103-113 | when every row scans, map i is built from row i, in cursor order |
| Rows.ExtractFirstFailure | db_scan/db_scan.go:104-107 | the first row that fails to scan decides the error |
| Rows.ExtractPrefixFailure | db_scan/db_scan.go:104-107 | once a prefix fails, later rows do not change the outcome |
| Rows.ExtractRowsOk | db_scan/db_scan.go:108-112 | every extracted map holds only values the converter accepts |
| Rows.ExtractSnoc | db_scan/db_scan.go:103-113 | one more scanned row appends its map, or ends extraction with its error |
| Rows.ExtractStep | db_scan/db_scan.go:103-113 | the same, for the row at the cursor's position |
| Rows.Cursor.constructor | db_scan/db_scan.go:24-29 | a cursor over the given outcomes, before its first row |
| Rows.Cursor.Remaining | db_scan/db_scan.go:91-115 | what extraction would return from here, whose maps hold only acceptable values |
| Rows.Cursor.Columns | db_scan/db_scan.go:26 | Columns returns the column outcome |
| Rows.Cursor.Next | db_scan/db_scan.go:27 | Next is true exactly when a row remains, and then moves past it |
| Rows.Cursor.Scan | db_scan/db_scan.go:28 | Scan fills the slots with the current row, or returns its error with the slots untouched |
| Rows.CopyRow | db_scan/db_scan.go:108-111 | the copy loop builds exactly the row map of the slots |
| Rows.ExtraDatasFromRows | db_scan/db_scan.go:91-115 | returns the Columns error, the first Scan error, or one map per remaining row in order; on success the cursor is exhausted |
| Binding.Lookup | db_scan/db_scan.go:168 | Tag.Lookup: None exactly when no pair has the key; a found value belongs to a pair with the key |
| Binding.LookupFirst | db_scan/db_scan.go:168 | the first pair with the key is the one found |
| Binding.ColumnOf | db_scan/db_scan.go:165-171 | a field names a column exactly when it is exported and its pg tag is present and non-empty |
| Binding.FieldStep | db_scan/db_scan.go:161-180 | a field that does not take part is kept; one that does gets ConvertRule of its column's value |
| Binding.Run | db_scan/db_scan.go:161-180 | the field loop from field i: the fields keep their number, and an error is the error of some field's step at or after i; BindFieldsFirstFailure and RunAll pin which one and the fields |
| Binding.BindFields | db_scan/db_scan.go:161-181 | binding a struct leaves fields that conform to their declarations |
| Binding.BindFieldsSucceeds | db_scan/db_scan.go:161-181 | binding fails exactly when some field's conversion fails; on success every field has had its step |
| Binding.BindFieldsFirstFailure | db_scan/db_scan.go:176-179 | the first failing field's error is returned; earlier fields keep their writes, later ones are untouched |
| Binding.SkippedFieldsUnchanged | db_scan/db_scan.go:165-175 | unexported, untagged, empty-tagged and unmatched fields are never written |
| Binding.BindFieldsWrites | db_scan/db_scan.go:161-181 | when every field is written, the struct holds exactly the written values |
| Binding.Bind | db_scan/db_scan.go:141-182 | singleResult's outcome conforms to the destination's shape |
| Binding.BindThroughPointers | db_scan/db_scan.go:152-158 | through pointer levels: the innermost struct is bound from zero values, and on success the value through every level is that binding; on failure the destination's value is as it was (freshness of the new storage is SingleResult's contract) |
| Binding.Collect | db_scan/db_scan.go:128-135 | on success, one element per row |
| Binding.CollectSucceeds | db_scan/db_scan.go:128-135 | collection succeeds exactly when every row binds, and element i is row i's value |
| Binding.CollectFirstFailure | db_scan/db_scan.go:130-133 | the first failing row decides the error |
| Binding.FreshBinds | db_scan/db_scan.go:129-130 | each row is bound to a freshly allocated zero element |
| Binding.BindAll | db_scan/db_scan.go:118-138 | on success, one element per row |
| Binding.BindAllSucceeds | db_scan/db_scan.go:118-138 | multiResults succeeds exactly when every row binds on its own, and element i comes from row i |
| Binding.BindAllFirstFailure | db_scan/db_scan.go:130-133 | the error is that of the first row that fails; later rows are not looked at |
| Binding.BindAllWrites | db_scan/db_scan.go:118-138 | when every row binds, the slice holds exactly those values |
| Binding.BindField | db_scan/db_scan.go:162-179 | one field of singleResult's loop, as FieldStep prescribes |
| Binding.BindStruct | db_scan/db_scan.go:161-181 | the loop over the fields: the error and the fields are those BindFields prescribes, with no rollback |
| Binding.SingleResult | db_scan/db_scan.go:141-182 | the error and the destination's new value are those Bind prescribes; new storage is fresh |
| Binding.NewElement | db_scan/db_scan.go:129-130 | reflect.New then singleResult: a fresh element holding row's binding |
| Binding.MultiResults | db_scan/db_scan.go:118-138 | on failure the error is returned and the destination is not assigned; on success it holds one fresh element per row, element i being row i's binding |
| DbScan.GuardAsWritten | db_scan/db_scan.go:69-71 | the guard as written accepts exactly non-nil pointers, and panics exactly on a target of a kind without nil |
| DbScan.Guard | db_scan/db_scan.go:69-71 | the corrected guard never panics, accepts exactly non-nil pointers, and agrees with the code wherever the code does not panic |
| DbScan.StructValueTarget | db_scan/db_scan.go:69 | a struct value as target: the code panics, the corrected guard refuses it |
| DbScan.Scan | db_scan/db_scan.go:68-89 | refuses an unusable target without touching the cursor; propagates an extraction error; with no rows leaves a slice alone and gives any other destination ErrEmptyResult; otherwise binds all rows to a slice or the first row to anything else |
| Scenarios.PersonColumns | db_scan/db_scan.go:168-171 | the fields tagged pg:"id" and pg:"name" are bound from columns "id" and "name" |
| Scenarios.PersonSteps | db_scan/db_scan.go:176 | the int64 id is stored as it is and the []byte name becomes text |
| Scenarios.BindPerson | db_scan/db_scan.go:161-181 | one such row binds to the record {id, name} |
| Scenarios.BindTwoPeople | db_scan/db_scan.go:118-138 | two such rows bind to a slice of their two records, in row order |
| Scenarios.AliceAndBob | db_scan/db_scan.go:118-138 | rows (1, "Alice") and (2, "Bob") bind to [{1, "Alice"}, {2, "Bob"}] |
| Scenarios.FortyTwo | db_scan/db_scan.go:253-258 | the text "42" fills an int64 field with 42 |
| Scenarios.FortyTwoIntoBool | db_scan/db_scan.go:271-272 | the text "42" into a bool field fails with ErrUnSupportTypeConvert |

## Left out

- Reflection is replaced by explicit field declarations and shapes. Struct tags are (key, value) pairs, already parsed; the tag-string syntax is not modelled.
- Panic paths:
  - `reflect.Value.IsNil` on a non-pointer target of a kind that has no nil (line 69) appears only as the finding below.
  - `NumField` on a destination that is not a chain of pointers ending in a struct (line 161) is excluded by the shape type.
  - The type assertions `.(int64)`, `.(float32)` and `.(float64)` panic on a value of a declared type with those kinds. `GoTypes.RawOk` excludes every value of a declared type with kind int64, float32 or float64. That is wider than the panic: `directSet` (lines 193-195) stores such a value into a field of its own type or an `interface{}` field without reaching the assertion. Database drivers do not produce such values.
- Targets other than a struct chain or a slice of struct chains. `Shape` and `Target` only describe a pointer to a chain of pointers ending in a struct, or a pointer to a slice whose element is such a chain. For a target like `*int` or `*[]int`, the code can end without calling `NumField`, and the model cannot express these outcomes:
  - an extraction error (line 74);
  - `ErrEmptyResult` when there are no rows (line 84);
  - nil for a slice when there are no rows (line 79).
- Interfaces with methods. Go's `AssignableTo` checks that the source type implements the interface's method set. The model has only the empty interface: `GoTypes.AssignableTo` takes every field of interface kind to accept any value. So a case like a `[]byte` into a `fmt.Stringer` field, which fails with `ErrUnSupportTypeConvert` at line 272, cannot be expressed.
- The `CanSet` checks of `multiResults` and `singleResult` (lines 120-122 and 144-146) always hold for the element of a pointer. Their `ErrTargetNotSettable` branches cannot be reached and are not modelled.
- Floating point is opaque. `strconv.ParseFloat` is a parameter of the model that either yields a float or fails. The float32→float64 widening at line 229 is not modelled, and neither is the rounding `SetFloat` performs when it stores a float64 into a float32 field (lines 233 and 270); the float token is stored unchanged.
- `time.Time` is its calendar fields for years 0 to 9999. Time zones and the monotonic clock are not modelled.
- Errors are an enumeration. The message texts are not modelled; a cursor's own errors carry only a code.
- The `IRows` cursor is a column outcome plus one scan outcome per row:
  - the database behind it is not modelled;
  - `Close` is never called by the code, so it is not modelled;
  - `rows.Err()` is never consulted by the code, so a cursor that stops early looks like one with fewer rows.
- Go distinguishes a nil slice from an empty one. Here both are the empty sequence. `ExtraDatasFromRows` returns nil exactly when there are no rows, so `Scan`'s `datas == nil` test becomes a test for no rows.
- A pointer level in `singleResult` always allocates a fresh pointee (line 153), even when the pointer is already set. The model follows the code in this.
- The platform is 64-bit: `int`, `uint` and `uintptr` have 64 bits.
- Rows.RowMap is total: a column with no slot is left unbound. A cursor never produces such a row, because `Cursor.Valid` requires one value per column.
- GoTypes.WrapSigned is stated as the two's-complement reading of the residue modulo 2^bits, not as a congruence with the input.

## Findings

| source | as written | input that shows it | evidently intended | confidence | as-written member | corrected member |
|---|---|---|---|---|---|---|
| db_scan/db_scan.go:69 | `IsNil()` is called on the target before its kind is checked, and reflect panics when the kind has no nil | `Scan(rows, Person{})` with a struct value as the target | refuse every target that is not a non-nil pointer with `ErrTargetNotSettable` | high; not executed | DbScan.GuardAsWritten (with DbScan.StructValueTarget) | DbScan.Guard, used by DbScan.Scan |
