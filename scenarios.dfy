/**
 * Worked examples: concrete rows bound to concrete destinations, with the
 * outcome the scanner is meant to produce.
 */
module Scenarios {
  import opened Wrappers
  import opened GoTypes
  import opened Strconv
  import opened Destinations
  import opened Convert
  import opened Rows
  import opened Binding

  /** A record { ID int64 `pg:"id"`; Name string `pg:"name"` }. */
  const Person: seq<FieldDecl> := [
    FieldDecl("ID", true, [("pg", "id")], IntType(Size64)),
    FieldDecl("Name", true, [("pg", "name")], StringType)
  ]

  const Alice: seq<byte> := [65, 108, 105, 99, 101]
  const Bob: seq<byte> := [66, 111, 98]

  /** A row with an int64 "id" column and a []byte "name" column. */
  function PersonRow(id: int, name: seq<byte>): (row: Row)
    requires MinInt64 <= id <= MaxInt64
    ensures RowOk(row)
    ensures "id" in row && row["id"] == IntVal(IntType(Size64), id)
    ensures "name" in row && row["name"] == BytesVal(ByteSlice, name)
  {
    map["id" := IntVal(IntType(Size64), id), "name" := BytesVal(ByteSlice, name)]
  }

  /** The fields of the record bound from such a row. */
  function PersonFields(id: int, name: seq<byte>): (vals: seq<GoValue>)
    ensures |vals| == |Person| && vals[0] == IntVal(IntType(Size64), id) && vals[1] == StringVal(StringType, name)
  {
    [IntVal(IntType(Size64), id), StringVal(StringType, name)]
  }

  /** The two fields are bound from the columns "id" and "name". */
  lemma PersonColumns()
    ensures ColumnOf(Person[0]) == Some("id") && ColumnOf(Person[1]) == Some("name")
  {
    assert Person[0].tags[0].0 == TagName;
    LookupFirst(Person[0].tags, TagName, 0);
    LookupFirst(Person[1].tags, TagName, 0);
  }

  /** The id is stored as it is and the name's bytes become text. */
  lemma PersonSteps(id: int, name: seq<byte>, parseFloat: FloatParser)
    requires MinInt64 <= id <= MaxInt64
    ensures forall j :: 0 <= j < |Person| ==>
      FieldStep(PersonRow(id, name), Person[j], parseFloat) == Write(PersonFields(id, name)[j])
  {
    var row := PersonRow(id, name);
    PersonColumns();
    SameTypeStoresSource(IntVal(IntType(Size64), id), IntType(Size64), parseFloat);
    assert FieldStep(row, Person[0], parseFloat) == Write(IntVal(IntType(Size64), id));
    BytesSource(name, StringType, parseFloat);
    assert FieldStep(row, Person[1], parseFloat) == Write(StringVal(StringType, name));
  }

  /** One row binds to a zeroed record as its id and its name as text. */
  lemma BindPerson(id: int, name: seq<byte>, parseFloat: FloatParser)
    requires MinInt64 <= id <= MaxInt64
    ensures Bind(PersonRow(id, name), Shape.Struct(Person), ZeroPlace(Shape.Struct(Person)), parseFloat)
            == BindResult(None, StructV(PersonFields(id, name)))
  {
    PersonSteps(id, name, parseFloat);
    BindFieldsWrites(PersonRow(id, name), Person, Zeros(Person), parseFloat, PersonFields(id, name));
  }

  /** Two rows that bind on their own bind, as a pair, to the pair of their values. */
  lemma BindPair(row1: Row, row2: Row, elem: Shape, parseFloat: FloatParser, v1: PlaceVal, v2: PlaceVal)
    requires RowOk(row1) && RowOk(row2)
    requires Bind(row1, elem, ZeroPlace(elem), parseFloat) == BindResult(None, v1)
    requires Bind(row2, elem, ZeroPlace(elem), parseFloat) == BindResult(None, v2)
    ensures BindAll([row1, row2], elem, parseFloat) == Success([v1, v2])
  {
    var rows := [row1, row2];
    assert rows[0] == row1 && rows[1] == row2;
    BindAllWrites(rows, elem, parseFloat, [v1, v2]);
  }

  /**
   * Two rows into a []Person: one record per row, in row order. The element
   * shape is a parameter fixed by the precondition, rather than the literal
   * itself, so that the verifier does not unfold the binding of the literal
   * shape here.
   */
  lemma BindTwoPeople(elem: Shape, id1: int, name1: seq<byte>, id2: int, name2: seq<byte>, parseFloat: FloatParser)
    requires elem == Shape.Struct(Person)
    requires MinInt64 <= id1 <= MaxInt64 && MinInt64 <= id2 <= MaxInt64
    ensures BindAll([PersonRow(id1, name1), PersonRow(id2, name2)], elem, parseFloat)
            == Success([StructV(PersonFields(id1, name1)), StructV(PersonFields(id2, name2))])
  {
    BindPerson(id1, name1, parseFloat);
    BindPerson(id2, name2, parseFloat);
    BindPair(PersonRow(id1, name1), PersonRow(id2, name2), elem, parseFloat,
             StructV(PersonFields(id1, name1)), StructV(PersonFields(id2, name2)));
  }

  /** The rows (1, "Alice") and (2, "Bob") bind to the records {1, "Alice"} and {2, "Bob"}. */
  lemma AliceAndBob(parseFloat: FloatParser)
    ensures BindAll([PersonRow(1, Alice), PersonRow(2, Bob)], Shape.Struct(Person), parseFloat)
            == Success([StructV([IntVal(IntType(Size64), 1), StringVal(StringType, Alice)]),
                        StructV([IntVal(IntType(Size64), 2), StringVal(StringType, Bob)])])
  {
    BindTwoPeople(Shape.Struct(Person), 1, Alice, 2, Bob, parseFloat);
  }

  /** The text "42" fills an int64 field with 42. */
  lemma FortyTwo(parseFloat: FloatParser)
    ensures ConvertRule(BytesVal(ByteSlice, [52, 50]), IntType(Size64), parseFloat)
            == Write(IntVal(IntType(Size64), 42))
  {
    var s: seq<byte> := [52, 50];
    assert s[..1] == [52];
    assert DigitsValue(s) == 42;
    ParsedTextIntoInt64(s, 42, parseFloat);
  }

  /** The text "42" is refused by a bool field. */
  lemma FortyTwoIntoBool(parseFloat: FloatParser)
    ensures ConvertRule(BytesVal(ByteSlice, [52, 50]), BoolType, parseFloat) == Fail(UnSupportTypeConvert)
  {
    BytesSource([52, 50], BoolType, parseFloat);
  }
}
