/**
 * The value converter: how one raw cursor value is stored into one struct
 * field. The decision is a pure function of the value and the field's type
 * (ConvertRule); the methods below carry it out on a struct location the
 * way valueConvert, directSet and the two handlers do, through reflect's
 * setters.
 */
module Convert {
  import opened Wrappers
  import opened GoTypes
  import opened Strconv
  import opened TimeFormat
  import opened Destinations

  /** strconv.ParseFloat(s, 64), left uninterpreted: it either yields a float or fails. */
  type FloatParser = seq<byte> -> Option<Float>

  /** What a conversion does to the field: store a value, leave it as it is, or fail. */
  datatype Outcome = Write(v: GoValue) | Keep | Fail(e: Error)

  function Applied(o: Outcome, cur: GoValue): GoValue {
    if o.Write? then o.v else cur
  }

  function ErrorOf(o: Outcome): Option<Error> {
    if o.Fail? then Some(o.e) else None
  }

  /** The fields after outcome o has been applied to field i. */
  function Apply(vals: seq<GoValue>, i: nat, o: Outcome): (r: seq<GoValue>)
    requires i < |vals|
    ensures |r| == |vals| && r[i] == Applied(o, vals[i])
    ensures forall j :: 0 <= j < |vals| && j != i ==> r[j] == vals[j]
  {
    vals[i := Applied(o, vals[i])]
  }

  /**
   * directSet: a nil value is accepted without a write; a value whose type is
   * assignable to the field's type is stored as it is; otherwise None, and
   * the other rules decide.
   */
  function Direct(src: GoValue, t: GoType): (r: Option<Outcome>)
    requires RawOk(src)
    ensures r.Some? ==> !r.value.Fail?
    ensures r.Some? && r.value.Write? ==> HasType(r.value.v, t)
  {
    match TypeOf(src)
    case None => Some(Keep)
    case Some(st) =>
      if AssignableTo(st, t) then AssignedHasType(src, t); Some(Write(Assigned(src, t)))
      else None
  }

  /** handleConvertTime: a time becomes its formatted text in a string-kind field, and fails elsewhere. */
  function TimeRule(ts: Timestamp, t: GoType): (o: Outcome)
    requires ValidTimestamp(ts)
    ensures o.Write? ==> HasType(o.v, t)
    ensures o.Keep? == false
  {
    if KindOf(t) == String then Write(StringVal(t, Format(ts))) else Fail(ConvertValue)
  }

  /**
   * handleConvertMapSliceToField: only a []byte is accepted; it is stored as
   * text, parsed as a base-10 integer or float, or refused by field kind.
   */
  function SliceRule(src: GoValue, t: GoType, parseFloat: FloatParser): (o: Outcome)
    ensures o.Write? ==> HasType(o.v, t)
    ensures o.Keep? == false
  {
    if !(src.BytesVal? && src.ty == ByteSlice) then Fail(SliceToString)
    else
      var text := src.b;
      var k := KindOf(t);
      if k == String then Write(StringVal(t, text))
      else if IsSignedInteger(k) then
        match ParseInt64(text)
        case None => Fail(ConvertValue)
        case Some(n) => Write(IntVal(t, WrapSigned(n, BitSize(k))))
      else if IsUnsignedInteger(k) then
        match ParseUint64(text)
        case None => Fail(ConvertValue)
        case Some(n) => Write(UintVal(t, WrapUnsigned(n, BitSize(k))))
      else if IsFloat(k) then
        match parseFloat(text)
        case None => Fail(ConvertValue)
        case Some(f) => Write(FloatVal(t, f))
      else Fail(UnSupportTypeConvert)
  }

  /** valueConvert's int64 case: SetInt into a signed field, SetUint(uint64(v)) into an unsigned one, else nothing. */
  function IntRule(v: int, t: GoType): (o: Outcome)
    ensures o.Write? ==> HasType(o.v, t)
    ensures !o.Fail?
  {
    var fk := KindOf(t);
    if IsSignedInteger(fk) then Write(IntVal(t, WrapSigned(v, BitSize(fk))))
    else if IsUnsignedInteger(fk) then Write(UintVal(t, WrapUnsigned(WrapUnsigned(v, 64), BitSize(fk))))
    else Keep
  }

  /** valueConvert's float32 and float64 cases: SetFloat into a float field, else nothing. */
  function FloatRule(f: Float, t: GoType): (o: Outcome)
    ensures o.Write? ==> HasType(o.v, t)
    ensures !o.Fail?
  {
    if IsFloat(KindOf(t)) then Write(FloatVal(t, f)) else Keep
  }

  /**
   * valueConvert's decision table, in the order the code tries it: nil,
   * direct assignment, time.Time, then by the value's kind (slice, int64,
   * float32, float64); every other kind is a conversion error.
   */
  function ConvertRule(src: GoValue, t: GoType, parseFloat: FloatParser): (o: Outcome)
    requires RawOk(src)
    ensures o.Write? ==> HasType(o.v, t)
  {
    match Direct(src, t)
    case Some(o) => o
    case None =>
      if src.TimeVal? then TimeRule(src.t, t)
      else
        var k := KindOf(TypeOf(src).value);
        if k == Slice then SliceRule(src, t, parseFloat)
        else if k == Int64 then IntRule(src.i, t)
        else if k == Float32 || k == Float64 then FloatRule(src.f, t)
        else Fail(ConvertValue)
  }

  // ----- Properties of the decision table -----

  /** A nil value never changes the field and never fails. */
  lemma NilIsNoOp(t: GoType, parseFloat: FloatParser)
    ensures ConvertRule(Nil, t, parseFloat) == Keep
  {
  }

  /** A value of exactly the field's type is stored unchanged. */
  lemma SameTypeStoresSource(src: GoValue, t: GoType, parseFloat: FloatParser)
    requires RawOk(src) && TypeOf(src) == Some(t)
    ensures ConvertRule(src, t, parseFloat) == Write(src)
  {
  }

  /** Any other assignable value is stored with its contents intact, retyped to the field's type. */
  lemma AssignableStoresContents(src: GoValue, t: GoType, parseFloat: FloatParser)
    requires RawOk(src) && !src.Nil? && AssignableTo(TypeOf(src).value, t)
    ensures ConvertRule(src, t, parseFloat) == Write(if KindOf(t) == Interface then src else Retype(src, t))
  {
  }

  /** Values of the kinds no rule covers fail with ErrConvertValue unless directly assignable. */
  lemma UncoveredKindFails(src: GoValue, t: GoType, parseFloat: FloatParser)
    requires RawOk(src) && !src.Nil? && !src.TimeVal?
    requires KindOf(TypeOf(src).value) !in {Slice, Int64, Float32, Float64}
    requires !AssignableTo(TypeOf(src).value, t)
    ensures ConvertRule(src, t, parseFloat) == Fail(ConvertValue)
  {
  }

  lemma ShiftMod8(a: int, r: int)
    ensures (0x100 * a + r) % 0x100 == r % 0x100
  {
  }

  lemma ShiftMod16(a: int, r: int)
    ensures (0x1_0000 * a + r) % 0x1_0000 == r % 0x1_0000
  {
  }

  lemma ShiftMod32(a: int, r: int)
    ensures (0x1_0000_0000 * a + r) % 0x1_0000_0000 == r % 0x1_0000_0000
  {
  }

  /** x mod 2^64 mod 2^bits is x mod 2^bits, for the narrower widths. */
  lemma ModThroughUint64(v: int)
    ensures (v % 0x1_0000_0000_0000_0000) % 0x100 == v % 0x100
    ensures (v % 0x1_0000_0000_0000_0000) % 0x1_0000 == v % 0x1_0000
    ensures (v % 0x1_0000_0000_0000_0000) % 0x1_0000_0000 == v % 0x1_0000_0000
  {
    var q := v / 0x1_0000_0000_0000_0000;
    var r := v % 0x1_0000_0000_0000_0000;
    assert v == 0x100 * (q * 0x100_0000_0000_0000) + r;
    ShiftMod8(q * 0x100_0000_0000_0000, r);
    assert v == 0x1_0000 * (q * 0x1_0000_0000_0000) + r;
    ShiftMod16(q * 0x1_0000_0000_0000, r);
    assert v == 0x1_0000_0000 * (q * 0x1_0000_0000) + r;
    ShiftMod32(q * 0x1_0000_0000, r);
  }

  /** Reinterpreting as uint64 first does not change the residue modulo a narrower width. */
  lemma WrapThroughUint64(v: int, bits: nat)
    requires bits in {8, 16, 32, 64}
    ensures WrapUnsigned(WrapUnsigned(v, 64), bits) == WrapUnsigned(v, bits)
  {
    ModThroughUint64(v);
  }

  /** An int64 that a field does not accept directly goes through the int64 case of the kind switch. */
  lemma Int64Rule(v: int, t: GoType, parseFloat: FloatParser)
    requires MinInt64 <= v <= MaxInt64
    requires !AssignableTo(IntType(Size64), t)
    ensures ConvertRule(IntVal(IntType(Size64), v), t, parseFloat) == IntRule(v, t)
  {
    var src := IntVal(IntType(Size64), v);
    assert RawOk(src);
    assert TypeOf(src) == Some(IntType(Size64));
    assert Direct(src, t) == None;
    assert KindOf(IntType(Size64)) == Int64;
  }

  /**
   * An int64 stored into a signed field that does not accept it directly
   * keeps its value when it fits the field's width and wraps around
   * (two's complement) otherwise.
   */
  lemma Int64IntoSigned(v: int, t: GoType, parseFloat: FloatParser)
    requires MinInt64 <= v <= MaxInt64
    requires !AssignableTo(IntType(Size64), t) && IsSignedInteger(KindOf(t))
    ensures var o := ConvertRule(IntVal(IntType(Size64), v), t, parseFloat);
      && o == Write(IntVal(t, WrapSigned(v, BitSize(KindOf(t)))))
      && (-Half(BitSize(KindOf(t))) <= v < Half(BitSize(KindOf(t))) ==> o == Write(IntVal(t, v)))
  {
    Int64Rule(v, t, parseFloat);
  }

  /**
   * An int64 stored into an unsigned field is uint64(v), two's complement,
   * truncated to the field's width.
   */
  lemma Int64IntoUnsigned(v: int, t: GoType, parseFloat: FloatParser)
    requires MinInt64 <= v <= MaxInt64
    requires !AssignableTo(IntType(Size64), t) && IsUnsignedInteger(KindOf(t))
    ensures var o := ConvertRule(IntVal(IntType(Size64), v), t, parseFloat);
      && o == Write(UintVal(t, WrapUnsigned(v, BitSize(KindOf(t)))))
      && (BitSize(KindOf(t)) == 64 ==> o == Write(UintVal(t, if v < 0 then v + Modulus(64) else v)))
  {
    Int64Rule(v, t, parseFloat);
    WrapThroughUint64(v, BitSize(KindOf(t)));
  }

  /** An int64 is silently dropped by a non-assignable field of any non-integer kind. */
  lemma Int64IntoOther(v: int, t: GoType, parseFloat: FloatParser)
    requires MinInt64 <= v <= MaxInt64
    requires !AssignableTo(IntType(Size64), t) && !IsInteger(KindOf(t))
    ensures ConvertRule(IntVal(IntType(Size64), v), t, parseFloat) == Keep
  {
    Int64Rule(v, t, parseFloat);
  }

  /** A float fills a float field and is silently dropped by any other non-assignable field. */
  lemma FloatSource(f: Float, double: bool, t: GoType, parseFloat: FloatParser)
    requires !AssignableTo(if double then Float64Type else Float32Type, t)
    ensures ConvertRule(FloatVal(if double then Float64Type else Float32Type, f), t, parseFloat)
            == if IsFloat(KindOf(t)) then Write(FloatVal(t, f)) else Keep
  {
  }

  /**
   * A time fills a string-kind field with its 19-byte layout text, from which
   * it can be read back, and fails with ErrConvertValue for any other
   * non-assignable field.
   */
  lemma TimeSource(ts: Timestamp, t: GoType, parseFloat: FloatParser)
    requires ValidTimestamp(ts) && !AssignableTo(TimeType, t)
    ensures var o := ConvertRule(TimeVal(ts), t, parseFloat);
      && (KindOf(t) == String ==>
            o.Write? && o.v.StringVal? && |o.v.s| == 19 && Parse(o.v.s) == Some(ts))
      && (KindOf(t) != String ==> o == Fail(ConvertValue))
  {
    if KindOf(t) == String {
      ParseFormat(ts);
    }
  }

  /**
   * A []byte that is not directly assignable: text for a string field, a
   * base-10 parse for an integer field (ErrConvertValue when the parse
   * fails), ErrUnSupportTypeConvert for other non-float kinds.
   */
  lemma BytesSource(b: seq<byte>, t: GoType, parseFloat: FloatParser)
    requires !AssignableTo(ByteSlice, t)
    ensures var o := ConvertRule(BytesVal(ByteSlice, b), t, parseFloat);
      && (KindOf(t) == String ==> o == Write(StringVal(t, b)))
      && (IsSignedInteger(KindOf(t)) ==>
            o == if ParseInt64(b).None? then Fail(ConvertValue)
                 else Write(IntVal(t, WrapSigned(ParseInt64(b).value, BitSize(KindOf(t))))))
      && (IsUnsignedInteger(KindOf(t)) ==>
            o == if ParseUint64(b).None? then Fail(ConvertValue)
                 else Write(UintVal(t, WrapUnsigned(ParseUint64(b).value, BitSize(KindOf(t))))))
      && (KindOf(t) !in {String, Float32, Float64} && !IsInteger(KindOf(t)) ==> o == Fail(UnSupportTypeConvert))
  {
  }

  /** A []byte that parses as a base-10 int64 stores that number in an int64 field. */
  lemma ParsedTextIntoInt64(text: seq<byte>, n: int, parseFloat: FloatParser)
    requires ParseInt64(text) == Some(n)
    ensures ConvertRule(BytesVal(ByteSlice, text), IntType(Size64), parseFloat)
            == Write(IntVal(IntType(Size64), n))
  {
    var src := BytesVal(ByteSlice, text);
    var t := IntType(Size64);
    assert Direct(src, t).None?;
    assert SliceRule(src, t, parseFloat) == Write(IntVal(t, WrapSigned(n, 64)));
  }

  /** The decimal text of any int64 fills an int64 field with exactly that number. */
  lemma DecimalTextIntoInt64(n: int, parseFloat: FloatParser)
    requires MinInt64 <= n <= MaxInt64
    ensures ConvertRule(BytesVal(ByteSlice, FormatInt(n)), IntType(Size64), parseFloat)
            == Write(IntVal(IntType(Size64), n))
  {
    ParseFormatInt(n);
    ParsedTextIntoInt64(FormatInt(n), n, parseFloat);
  }

  /** A slice value other than a []byte fails with ErrSliceToString unless directly assignable. */
  lemma OtherSliceFails(src: GoValue, t: GoType, parseFloat: FloatParser)
    requires RawOk(src) && !src.Nil? && !src.TimeVal? && KindOf(TypeOf(src).value) == Slice
    requires TypeOf(src) != Some(ByteSlice) && !AssignableTo(TypeOf(src).value, t)
    ensures ConvertRule(src, t, parseFloat) == Fail(SliceToString)
  {
  }

  // ----- The converter acting on a struct location -----

  /** directSet on field i of loc. */
  method DirectSet(src: GoValue, loc: Location, i: nat) returns (done: bool)
    requires loc.Valid() && loc.shape.Struct? && i < |loc.shape.decls| && RawOk(src)
    modifies loc
    ensures loc.Valid() && loc.Repr == old(loc.Repr)
    ensures var d := Direct(src, loc.shape.decls[i].ty);
      && done == d.Some?
      && loc.fields == if d.Some? then Apply(old(loc.fields), i, d.value) else old(loc.fields)
  {
    var t := loc.shape.decls[i].ty;
    var sourceType := TypeOf(src);
    if sourceType.None? {
      return true;
    }
    if AssignableTo(sourceType.value, t) {
      AssignedHasType(src, t);
      loc.SetField(i, Assigned(src, t));
      return true;
    }
    return false;
  }

  /** handleConvertTime on field i of loc. */
  method HandleConvertTime(ts: Timestamp, loc: Location, i: nat) returns (err: Option<Error>)
    requires loc.Valid() && loc.shape.Struct? && i < |loc.shape.decls| && ValidTimestamp(ts)
    modifies loc
    ensures loc.Valid() && loc.Repr == old(loc.Repr)
    ensures var o := TimeRule(ts, loc.shape.decls[i].ty);
      loc.fields == Apply(old(loc.fields), i, o) && err == ErrorOf(o)
  {
    var t := loc.shape.decls[i].ty;
    if KindOf(t) == String {
      var str := Format(ts);
      loc.SetField(i, StringVal(t, str));
      return None;
    }
    return Some(ConvertValue);
  }

  /** handleConvertMapSliceToField on field i of loc. */
  method HandleConvertMapSliceToField(src: GoValue, loc: Location, i: nat, parseFloat: FloatParser)
    returns (err: Option<Error>)
    requires loc.Valid() && loc.shape.Struct? && i < |loc.shape.decls|
    modifies loc
    ensures loc.Valid() && loc.Repr == old(loc.Repr)
    ensures var o := SliceRule(src, loc.shape.decls[i].ty, parseFloat);
      loc.fields == Apply(old(loc.fields), i, o) && err == ErrorOf(o)
  {
    var t := loc.shape.decls[i].ty;
    var kind := KindOf(t);
    if !(src.BytesVal? && src.ty == ByteSlice) {
      return Some(SliceToString);
    }
    var text := src.b;
    if kind == String {
      loc.SetField(i, StringVal(t, text));
    } else if IsSignedInteger(kind) {
      var intVal := ParseInt64(text);
      if intVal.None? {
        return Some(ConvertValue);
      }
      loc.SetField(i, IntVal(t, WrapSigned(intVal.value, BitSize(kind))));
    } else if IsUnsignedInteger(kind) {
      var uintVal := ParseUint64(text);
      if uintVal.None? {
        return Some(ConvertValue);
      }
      loc.SetField(i, UintVal(t, WrapUnsigned(uintVal.value, BitSize(kind))));
    } else if IsFloat(kind) {
      var floatVal := parseFloat(text);
      if floatVal.None? {
        return Some(ConvertValue);
      }
      loc.SetField(i, FloatVal(t, floatVal.value));
    } else {
      return Some(UnSupportTypeConvert);
    }
    return None;
  }

  /** The int64 case of valueConvert on field i of loc. */
  method SetFromInt64(v: int, loc: Location, i: nat)
    requires loc.Valid() && loc.shape.Struct? && i < |loc.shape.decls|
    modifies loc
    ensures loc.Valid() && loc.Repr == old(loc.Repr)
    ensures loc.fields == Apply(old(loc.fields), i, IntRule(v, loc.shape.decls[i].ty))
  {
    var t := loc.shape.decls[i].ty;
    var targetKind := KindOf(t);
    if IsSignedInteger(targetKind) {
      loc.SetField(i, IntVal(t, WrapSigned(v, BitSize(targetKind))));
    } else if IsUnsignedInteger(targetKind) {
      loc.SetField(i, UintVal(t, WrapUnsigned(WrapUnsigned(v, 64), BitSize(targetKind))));
    }
  }

  /** The float32 and float64 cases of valueConvert on field i of loc. */
  method SetFromFloat(f: Float, loc: Location, i: nat)
    requires loc.Valid() && loc.shape.Struct? && i < |loc.shape.decls|
    modifies loc
    ensures loc.Valid() && loc.Repr == old(loc.Repr)
    ensures loc.fields == Apply(old(loc.fields), i, FloatRule(f, loc.shape.decls[i].ty))
  {
    var t := loc.shape.decls[i].ty;
    if IsFloat(KindOf(t)) {
      loc.SetField(i, FloatVal(t, f));
    }
  }

  /** valueConvert on field i of loc: the field and the error are those ConvertRule prescribes. */
  method ValueConvert(src: GoValue, loc: Location, i: nat, parseFloat: FloatParser) returns (err: Option<Error>)
    requires loc.Valid() && loc.shape.Struct? && i < |loc.shape.decls| && RawOk(src)
    modifies loc
    ensures loc.Valid() && loc.Repr == old(loc.Repr)
    ensures var o := ConvertRule(src, loc.shape.decls[i].ty, parseFloat);
      loc.fields == Apply(old(loc.fields), i, o) && err == ErrorOf(o)
  {
    if TypeOf(src).None? {
      return None;
    }
    var done := DirectSet(src, loc, i);
    if done {
      return None;
    }
    if src.TimeVal? {
      err := HandleConvertTime(src.t, loc, i);
      return;
    }
    var kind := KindOf(TypeOf(src).value);
    if kind == Slice {
      err := HandleConvertMapSliceToField(src, loc, i, parseFloat);
    } else if kind == Int64 {
      SetFromInt64(src.i, loc, i);
      err := None;
    } else if kind == Float32 || kind == Float64 {
      SetFromFloat(src.f, loc, i);
      err := None;
    } else {
      err := Some(ConvertValue);
    }
  }
}
