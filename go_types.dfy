/**
 * The part of Go's runtime type system that the scanner inspects: reflect
 * kinds, the static types a struct field can have, the dynamic values a
 * cursor yields, and the wrap-around that reflect's SetInt and SetUint
 * perform when they store into a narrower field.
 *
 * The platform is taken to be 64-bit: `int`, `uint` and `uintptr` have 64 bits.
 */
module GoTypes {
  import opened Wrappers

  newtype byte = b: int | 0 <= b < 256

  /** The errors the scanner returns; a cursor's own failures are carried by code. */
  datatype Error =
    | TargetNotSettable
    | ConvertValue
    | UnSupportTypeConvert
    | SliceToString
    | EmptyResult
    | CursorError(code: nat)

  /** reflect.Kind, with the constants of the reflect package. */
  datatype Kind =
    | Invalid | Bool | Int | Int8 | Int16 | Int32 | Int64
    | Uint | Uint8 | Uint16 | Uint32 | Uint64 | Uintptr
    | Float32 | Float64 | Complex64 | Complex128
    | Array | Chan | Func | Interface | Map | Pointer | Slice | String | Struct | UnsafePointer
  {
    /** The numeric value of the constant in the reflect package: 0 for Invalid, then 1 to 26 in declaration order. */
    function Code(): (c: nat)
      ensures c <= 26
      ensures c == 0 <==> this == Invalid
    {
      match this
      case Invalid => 0
      case Bool => 1
      case Int => 2
      case Int8 => 3
      case Int16 => 4
      case Int32 => 5
      case Int64 => 6
      case Uint => 7
      case Uint8 => 8
      case Uint16 => 9
      case Uint32 => 10
      case Uint64 => 11
      case Uintptr => 12
      case Float32 => 13
      case Float64 => 14
      case Complex64 => 15
      case Complex128 => 16
      case Array => 17
      case Chan => 18
      case Func => 19
      case Interface => 20
      case Map => 21
      case Pointer => 22
      case Slice => 23
      case String => 24
      case Struct => 25
      case UnsafePointer => 26
    }
  }

  /** Distinct kinds have distinct codes, so a range of codes is a set of kinds. */
  lemma CodeInjective(a: Kind, b: Kind)
    requires a.Code() == b.Code()
    ensures a == b
  {
  }

  /** isFloat: the kind is one of the two floating-point kinds. */
  function IsFloat(k: Kind): (b: bool)
    ensures b <==> Float32.Code() <= k.Code() <= Float64.Code()
  {
    k == Float32 || k == Float64
  }

  /** isSignedInteger: the kind lies in the range Int ... Int64 of reflect's constants. */
  function IsSignedInteger(k: Kind): (b: bool)
    ensures b <==> k in {Int, Int8, Int16, Int32, Int64}
  {
    Int.Code() <= k.Code() <= Int64.Code()
  }

  /** isUnsignedInteger: the kind lies in the range Uint ... Uintptr of reflect's constants. */
  function IsUnsignedInteger(k: Kind): (b: bool)
    ensures b <==> k in {Uint, Uint8, Uint16, Uint32, Uint64, Uintptr}
  {
    Uint.Code() <= k.Code() <= Uintptr.Code()
  }

  /** isInteger: signed or unsigned. */
  function IsInteger(k: Kind): (b: bool)
    ensures b <==> Int.Code() <= k.Code() <= Uintptr.Code()
  {
    IsSignedInteger(k) || IsUnsignedInteger(k)
  }

  /** The width reflect's SetInt and SetUint store into, for each integer kind. */
  function BitSize(k: Kind): (n: nat)
    requires IsInteger(k)
    ensures n in {8, 16, 32, 64}
  {
    if k == Int8 || k == Uint8 then 8
    else if k == Int16 || k == Uint16 then 16
    else if k == Int32 || k == Uint32 then 32
    else 64
  }

  datatype IntSize = Size8 | Size16 | Size32 | Size64 | SizeWord

  /**
   * A Go type: the predeclared scalar types, the type literals the scanner
   * meets (slices, pointers, the empty interface), time.Time, any other
   * named struct type, and a type declared as `type Name Underlying`.
   */
  datatype GoType =
    | BoolType
    | StringType
    | IntType(size: IntSize)
    | UintType(size: IntSize)
    | UintptrType
    | Float32Type
    | Float64Type
    | SliceType(elem: GoType)
    | PointerType(elem: GoType)
    | StructType(name: string)
    | TimeType
    | AnyType
    | Defined(name: string, underlying: GoType)

  /** []byte, that is []uint8. */
  const ByteSlice: GoType := SliceType(UintType(Size8))

  /** reflect.Type.Kind: the kind of the underlying type. */
  function KindOf(t: GoType): (k: Kind)
    ensures k != Invalid
  {
    match t
    case BoolType => Bool
    case StringType => String
    case IntType(size) =>
      (match size case Size8 => Int8 case Size16 => Int16 case Size32 => Int32
                  case Size64 => Int64 case SizeWord => Int)
    case UintType(size) =>
      (match size case Size8 => Uint8 case Size16 => Uint16 case Size32 => Uint32
                  case Size64 => Uint64 case SizeWord => Uint)
    case UintptrType => Uintptr
    case Float32Type => Float32
    case Float64Type => Float64
    case SliceType(_) => Slice
    case PointerType(_) => Pointer
    case StructType(_) => Struct
    case TimeType => Struct
    case AnyType => Interface
    case Defined(_, u) => KindOf(u)
  }

  /** The underlying type: a declared type is replaced by what it was declared as. */
  function Underlying(t: GoType): (u: GoType)
    ensures !u.Defined?
    ensures KindOf(u) == KindOf(t)
    ensures !t.Defined? ==> u == t
  {
    if t.Defined? then Underlying(t.underlying) else t
  }

  /** The kind is decided by the underlying type, as reflect decides it. */
  lemma {:induction false} KindOfUnderlying(t: GoType)
    ensures IsInteger(KindOf(t)) <==> Underlying(t).IntType? || Underlying(t).UintType? || Underlying(t) == UintptrType
    ensures IsFloat(KindOf(t)) <==> Underlying(t) in {Float32Type, Float64Type}
    ensures KindOf(t) == String <==> Underlying(t) == StringType
    ensures KindOf(t) == Bool <==> Underlying(t) == BoolType
    ensures KindOf(t) == Slice <==> Underlying(t).SliceType?
    ensures KindOf(t) == Pointer <==> Underlying(t).PointerType?
    ensures KindOf(t) == Struct <==> Underlying(t).StructType? || Underlying(t) == TimeType
    ensures KindOf(t) == Interface <==> Underlying(t) == AnyType
  {
    if t.Defined? {
      KindOfUnderlying(t.underlying);
    }
  }

  /** Type literals are unnamed; predeclared, declared and library types are named. */
  predicate Named(t: GoType) {
    !(t.SliceType? || t.PointerType? || t.AnyType?)
  }

  /**
   * reflect.Type.AssignableTo for a concrete dynamic type x and a field type t:
   * identical types, the empty interface, or identical underlying types when
   * one of the two is unnamed.
   */
  function AssignableTo(x: GoType, t: GoType): (b: bool)
    ensures x == t ==> b
    ensures KindOf(t) == Interface ==> b
    ensures Named(x) && Named(t) && x != t && KindOf(t) != Interface ==> !b
    ensures !Named(x) || !Named(t) ==> (b <==> KindOf(t) == Interface || Underlying(x) == Underlying(t))
    ensures b ==> KindOf(t) == Interface || KindOf(x) == KindOf(t)
  {
    x == t || KindOf(t) == Interface || (Underlying(x) == Underlying(t) && (!Named(x) || !Named(t)))
  }

  /** 2^bits for the integer widths Go has. */
  function Modulus(bits: nat): (m: nat)
    requires bits in {8, 16, 32, 64}
    ensures m >= 256
  {
    if bits == 8 then 0x100
    else if bits == 16 then 0x1_0000
    else if bits == 32 then 0x1_0000_0000
    else 0x1_0000_0000_0000_0000
  }

  /** 2^(bits - 1): the bound of the signed integers of the given width. */
  function Half(bits: nat): (h: int)
    requires bits in {8, 16, 32, 64}
    ensures h >= 128
  {
    if bits == 8 then 0x80
    else if bits == 16 then 0x8000
    else if bits == 32 then 0x8000_0000
    else 0x8000_0000_0000_0000
  }

  /** x and y agree modulo 2^bits. */
  predicate Congruent(x: int, y: int, bits: nat)
    requires bits in {8, 16, 32, 64}
  {
    if bits == 8 then (x - y) % 0x100 == 0
    else if bits == 16 then (x - y) % 0x1_0000 == 0
    else if bits == 32 then (x - y) % 0x1_0000_0000 == 0
    else (x - y) % 0x1_0000_0000_0000_0000 == 0
  }

  /** Storing x into an unsigned integer of the given width: the residue modulo 2^bits. */
  function WrapUnsigned(x: int, bits: nat): (r: nat)
    requires bits in {8, 16, 32, 64}
    ensures r < Modulus(bits)
    ensures Congruent(x, r, bits)
    ensures 0 <= x < Modulus(bits) ==> r == x
  {
    if bits == 8 then x % 0x100
    else if bits == 16 then x % 0x1_0000
    else if bits == 32 then x % 0x1_0000_0000
    else x % 0x1_0000_0000_0000_0000
  }

  /** Two's-complement reinterpretation of the residue m of some x modulo 2 * half. */
  function Signed(m: int, half: int): (r: int)
    requires 0 <= m < 2 * half
    ensures -half <= r < half && (r == m || r == m - 2 * half)
  {
    if m >= half then m - 2 * half else m
  }

  /** Storing x into a two's-complement integer of the given width. */
  function WrapSigned(x: int, bits: nat): (r: int)
    requires bits in {8, 16, 32, 64}
    ensures -Half(bits) <= r < Half(bits)
    ensures r == WrapUnsigned(x, bits) || r == WrapUnsigned(x, bits) - Modulus(bits)
    ensures -Half(bits) <= x < Half(bits) ==> r == x
  {
    if bits == 8 then Signed(x % 0x100, 0x80)
    else if bits == 16 then Signed(x % 0x1_0000, 0x8000)
    else if bits == 32 then Signed(x % 0x1_0000_0000, 0x8000_0000)
    else Signed(x % 0x1_0000_0000_0000_0000, 0x8000_0000_0000_0000)
  }

  /** A floating-point value; the model never computes with one. */
  datatype Float = Float(token: nat)

  /** A time.Time seen through its broken-down calendar fields. */
  datatype Timestamp = Timestamp(year: int, month: int, day: int, hour: int, minute: int, second: int)

  predicate IsLeapYear(y: int) {
    y % 4 == 0 && (y % 100 != 0 || y % 400 == 0)
  }

  function DaysIn(month: int, year: int): int
    requires 1 <= month <= 12
  {
    if month == 2 then (if IsLeapYear(year) then 29 else 28)
    else if month in {4, 6, 9, 11} then 30
    else 31
  }

  predicate ValidTimestamp(t: Timestamp) {
    && 0 <= t.year <= 9999
    && 1 <= t.month <= 12
    && 1 <= t.day <= DaysIn(t.month, t.year)
    && 0 <= t.hour < 24
    && 0 <= t.minute < 60
    && 0 <= t.second < 60
  }

  /** The zero time.Time: January 1 of year 1, 00:00:00. */
  const ZeroTime: Timestamp := Timestamp(1, 1, 1, 0, 0, 0)

  /**
   * A Go value together with its dynamic type. Nil is the interface that
   * holds nothing. OpaqueVal stands for a value (a bool, a pointer, another
   * slice or struct) that the scanner only ever copies as a whole.
   */
  datatype GoValue =
    | Nil
    | IntVal(ty: GoType, i: int)
    | UintVal(ty: GoType, n: nat)
    | FloatVal(ty: GoType, f: Float)
    | StringVal(ty: GoType, s: seq<byte>)
    | BytesVal(ty: GoType, b: seq<byte>)
    | TimeVal(t: Timestamp)
    | OpaqueVal(ty: GoType, token: nat)

  /** reflect.TypeOf: None for the nil interface. */
  function TypeOf(v: GoValue): (r: Option<GoType>)
    ensures r.None? <==> v.Nil?
    ensures v.TimeVal? ==> r == Some(TimeType)
    ensures WellTyped(v) ==> (r == Some(TimeType) <==> v.TimeVal?)
    ensures WellTyped(v) && (v.IntVal? || v.UintVal?) ==> IsInteger(KindOf(r.value))
    ensures WellTyped(v) && v.StringVal? ==> KindOf(r.value) == String
    ensures WellTyped(v) && v.BytesVal? ==> KindOf(r.value) == Slice
  {
    match v
    case Nil => None
    case TimeVal(_) => Some(TimeType)
    case _ => Some(v.ty)
  }

  /** A non-nil value whose contents fit its dynamic type. */
  predicate WellTyped(v: GoValue) {
    match v
    case Nil => false
    case IntVal(ty, i) =>
      IsSignedInteger(KindOf(ty)) && -Half(BitSize(KindOf(ty))) <= i < Half(BitSize(KindOf(ty)))
    case UintVal(ty, n) =>
      IsUnsignedInteger(KindOf(ty)) && n < Modulus(BitSize(KindOf(ty)))
    case FloatVal(ty, _) => IsFloat(KindOf(ty))
    case StringVal(ty, _) => KindOf(ty) == String
    case BytesVal(ty, _) => Underlying(ty) == ByteSlice
    case TimeVal(t) => ValidTimestamp(t)
    case OpaqueVal(ty, _) =>
      KindOf(ty) in {Bool, Pointer, Slice, Struct} && ty != TimeType && Underlying(ty) != ByteSlice
  }

  /** A value a field of type t can hold: anything in an interface field, otherwise a value of type t. */
  predicate HasType(v: GoValue, t: GoType) {
    if KindOf(t) == Interface then v.Nil? || WellTyped(v)
    else WellTyped(v) && TypeOf(v) == Some(t)
  }

  /**
   * A value a cursor can hand to the scanner without making one of its type
   * assertions panic: `sourceVal.(int64)`, `.(float32)` and `.(float64)` are
   * applied to every value of those kinds, so such a value must have exactly
   * that predeclared type.
   */
  predicate RawOk(v: GoValue) {
    v.Nil? ||
    (&& WellTyped(v)
     && (KindOf(TypeOf(v).value) == Int64 ==> TypeOf(v).value == IntType(Size64))
     && (KindOf(TypeOf(v).value) == Float32 ==> TypeOf(v).value == Float32Type)
     && (KindOf(TypeOf(v).value) == Float64 ==> TypeOf(v).value == Float64Type))
  }

  /** The zero value of a type, as reflect.New allocates it. */
  function Zero(t: GoType): (z: GoValue)
    ensures HasType(z, t)
  {
    var k := KindOf(t);
    if k == Interface then Nil
    else if IsSignedInteger(k) then IntVal(t, 0)
    else if IsUnsignedInteger(k) then UintVal(t, 0)
    else if IsFloat(k) then FloatVal(t, Float(0))
    else if k == String then StringVal(t, [])
    else if Underlying(t) == ByteSlice then BytesVal(t, [])
    else if t == TimeType then TimeVal(ZeroTime)
    else OpaqueVal(t, 0)
  }

  /** The same contents, now carrying type t (what a conversion to an assignable type does). */
  function Retype(v: GoValue, t: GoType): GoValue {
    match v
    case Nil => Nil
    case IntVal(_, i) => IntVal(t, i)
    case UintVal(_, n) => UintVal(t, n)
    case FloatVal(_, f) => FloatVal(t, f)
    case StringVal(_, s) => StringVal(t, s)
    case BytesVal(_, b) => BytesVal(t, b)
    case TimeVal(ts) => TimeVal(ts)
    case OpaqueVal(_, tok) => OpaqueVal(t, tok)
  }

  /** What reflect.Value.Set leaves in a field of type t when given an assignable value. */
  function Assigned(v: GoValue, t: GoType): (a: GoValue)
    ensures KindOf(t) == Interface ==> a == v
    ensures a.Nil? <==> v.Nil?
    ensures !v.Nil? && !v.TimeVal? ==> Retype(a, v.ty) == v
    ensures KindOf(t) != Interface && !v.Nil? && !v.TimeVal? ==> TypeOf(a) == Some(t)
  {
    if KindOf(t) == Interface then v else Retype(v, t)
  }

  /** Assigning a well-typed value to a field whose type accepts it leaves a value the field can hold. */
  lemma AssignedHasType(v: GoValue, t: GoType)
    requires WellTyped(v) && AssignableTo(TypeOf(v).value, t)
    ensures HasType(Assigned(v, t), t)
  {
    var x := TypeOf(v).value;
    if KindOf(t) != Interface && x != t {
      // x and t share an underlying type, and one of them is a type literal
      assert KindOf(x) == KindOf(Underlying(x)) == KindOf(t);
    }
  }
}
