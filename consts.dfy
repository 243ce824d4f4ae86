/**
 * Constants of the term language (`ConstName`): a type tag together with 128 bits of
 * raw data, or a name.  Signed factories store the two's-complement bit pattern of
 * their argument, sign-extended to 128 bits.
 */
module Consts {
  import opened Wrappers

  datatype ConstType =
    | U8 | U16 | U32 | U64 | U128
    | I8 | I16 | I32 | I64 | I128
    | USize | ISize
    | Bool | Char | Char8 | Char32
    | Name
    | F32 | F64

  const TWO_127: int := 0x8000_0000_0000_0000_0000_0000_0000_0000
  const TWO_128: int := 0x1_0000_0000_0000_0000_0000_0000_0000_0000

  /** The C# `UInt128` field `_data`. */
  type U128 = n: int | 0 <= n < 0x1_0000_0000_0000_0000_0000_0000_0000_0000

  // The C# parameter types of the factories.  `nuint`/`nint` are taken as 64 bits wide.
  type Byte = x: int | 0 <= x < 0x100
  type UShort = x: int | 0 <= x < 0x1_0000
  type UInt = x: int | 0 <= x < 0x1_0000_0000
  type ULong = x: int | 0 <= x < 0x1_0000_0000_0000_0000
  type SByte = x: int | -0x80 <= x < 0x80
  type Short = x: int | -0x8000 <= x < 0x8000
  type Int = x: int | -0x8000_0000 <= x < 0x8000_0000
  type Long = x: int | -0x8000_0000_0000_0000 <= x < 0x8000_0000_0000_0000
  type Int128 = x: int | -0x8000_0000_0000_0000_0000_0000_0000_0000 <= x < 0x8000_0000_0000_0000_0000_0000_0000_0000

  /**
   * `name` is `_name` (set only by `FromName`), `data` is `_data`, `ty` is `Type`.
   */
  datatype ConstName = ConstName(name: Option<string>, data: U128, ty: ConstType)

  /** `(UInt128)v` for a signed `v`: the 128-bit two's-complement pattern. */
  function ToU128(v: Int128): U128 {
    v % TWO_128
  }

  /** `(Int128)d`: the 128-bit pattern `d` read as a signed number. */
  function ToInt128(d: U128): Int128 {
    if d < TWO_127 then d else d - TWO_128
  }

  lemma TwosComplementRoundTrip(v: Int128, d: U128)
    ensures ToInt128(ToU128(v)) == v
    ensures ToU128(ToInt128(d)) == d
    ensures ToInt128(d) >= 0 <==> d < TWO_127
  {
  }

  function FromBool(b: bool): ConstName { ConstName(None, if b then 1 else 0, Bool) }
  function FromU8(v: Byte): ConstName { ConstName(None, v, U8) }
  function FromU16(v: UShort): ConstName { ConstName(None, v, U16) }
  function FromU32(v: UInt): ConstName { ConstName(None, v, U32) }
  function FromU64(v: ULong): ConstName { ConstName(None, v, U64) }
  function FromI8(v: SByte): ConstName { ConstName(None, ToU128(v), I8) }
  function FromI16(v: Short): ConstName { ConstName(None, ToU128(v), I16) }
  function FromI32(v: Int): ConstName { ConstName(None, ToU128(v), I32) }
  function FromI64(v: Long): ConstName { ConstName(None, ToU128(v), I64) }
  function FromChar(v: UShort): ConstName { ConstName(None, v, Char) }
  function FromChar8(v: Byte): ConstName { ConstName(None, v, Char8) }
  function FromChar32(v: UInt): ConstName { ConstName(None, v, Char32) }
  function FromU128(v: U128): ConstName { ConstName(None, v, U128) }
  function FromI128(v: Int128): ConstName { ConstName(None, ToU128(v), I128) }
  function FromName(n: string): ConstName { ConstName(Some(n), 0, Name) }
  function FromUSize(v: ULong): ConstName { ConstName(None, v, USize) }
  function FromISize(v: Long): ConstName { ConstName(None, ToU128(v), ISize) }

  predicate IsSigned(c: ConstName) {
    c.ty == I8 || c.ty == I16 || c.ty == I32 || c.ty == I64 || c.ty == I128 || c.ty == ISize
  }

  /** The tags whose receiver compares only with a value of the same tag. */
  predicate IsTagExact(t: ConstType) {
    t == Bool || t == Char || t == Char8 || t == Char32 || t == Name
  }

  /** `ConstName.Equals(ConstName)`, as written: the receiver `a` decides the rule. */
  function Equals(a: ConstName, b: ConstName): bool {
    if a.ty == Bool then b.ty == Bool && a.data == b.data
    else if a.ty == Char then b.ty == Char && a.data == b.data
    else if a.ty == Char8 then b.ty == Char8 && a.data == b.data
    else if a.ty == Char32 then b.ty == Char32 && a.data == b.data
    else if a.ty == Name then b.ty == Name && a.name == b.name
    else if IsSigned(a) == IsSigned(b) then a.data == b.data
    else if IsSigned(a) then ToInt128(a.data) >= 0 && a.data == b.data
    else ToInt128(b.data) >= 0 && a.data == b.data
  }

  /** The number a constant of an integer kind stands for: signed kinds read their bits as `Int128`. */
  function Value(c: ConstName): int {
    if IsSigned(c) then ToInt128(c.data) else c.data
  }

  /** Every factory of an integer kind stores a constant whose `Value` is its argument. */
  lemma FactoriesKeepValue(v: int)
    ensures 0 <= v < 0x100 ==> Value(FromU8(v)) == v
    ensures 0 <= v < 0x1_0000 ==> Value(FromU16(v)) == v
    ensures 0 <= v < 0x1_0000_0000 ==> Value(FromU32(v)) == v
    ensures 0 <= v < 0x1_0000_0000_0000_0000 ==> Value(FromU64(v)) == v && Value(FromUSize(v)) == v
    ensures 0 <= v < TWO_128 ==> Value(FromU128(v)) == v
    ensures -0x80 <= v < 0x80 ==> Value(FromI8(v)) == v
    ensures -0x8000 <= v < 0x8000 ==> Value(FromI16(v)) == v
    ensures -0x8000_0000 <= v < 0x8000_0000 ==> Value(FromI32(v)) == v
    ensures -0x8000_0000_0000_0000 <= v < 0x8000_0000_0000_0000 ==> Value(FromI64(v)) == v && Value(FromISize(v)) == v
    ensures -TWO_127 <= v < TWO_127 ==> Value(FromI128(v)) == v
  {
    if -TWO_127 <= v < TWO_127 {
      TwosComplementRoundTrip(v, 0);
    }
  }

  /**
   * Between two constants of integer kinds (or F32/F64, which carry raw unsigned data),
   * `Equals` is equality of the numbers they stand for, whatever their widths and signs.
   */
  lemma IntegerEqualsIsValueEquality(a: ConstName, b: ConstName)
    requires !IsTagExact(a.ty) && !IsTagExact(b.ty)
    ensures Equals(a, b) <==> Value(a) == Value(b)
  {
    TwosComplementRoundTrip(0, a.data);
    TwosComplementRoundTrip(0, b.data);
  }

  /** Consequences for values built by factories: `FromU8(5) == FromU64(5)`, `-1` is never an unsigned value. */
  lemma FactoryEqualityExamples()
    ensures Equals(FromU8(5), FromU64(5)) && Equals(FromU64(5), FromU8(5))
    ensures Equals(FromI8(-1), FromI64(-1))
    ensures Equals(FromI32(7), FromU16(7)) && Equals(FromU16(7), FromI32(7))
    ensures !Equals(FromI8(-1), FromU128(TWO_128 - 1)) && !Equals(FromU128(TWO_128 - 1), FromI8(-1))
  {
    FactoriesKeepValue(5);
    FactoriesKeepValue(-1);
    FactoriesKeepValue(7);
    FactoriesKeepValue(TWO_128 - 1);
    IntegerEqualsIsValueEquality(FromI8(-1), FromU128(TWO_128 - 1));
    IntegerEqualsIsValueEquality(FromU128(TWO_128 - 1), FromI8(-1));
  }

  /** A Bool, Char, Char8, Char32 or Name receiver equals only a value with its own tag. */
  lemma TagExactReceiver(a: ConstName, b: ConstName)
    requires IsTagExact(a.ty)
    ensures Equals(a, b) <==> a.ty == b.ty && (if a.ty == Name then a.name == b.name else a.data == b.data)
  {
  }

  /** `Equals` is reflexive on every value. */
  lemma EqualsReflexive(a: ConstName)
    ensures Equals(a, a)
  {
  }

  /** `Equals` is not symmetric: an integer receiver ignores the other value's tag. */
  lemma EqualsNotSymmetric()
    ensures Equals(FromU8(1), FromBool(true))
    ensures !Equals(FromBool(true), FromU8(1))
  {
  }

  /** What `object.Equals` may be handed. */
  datatype Obj = Null | ConstObj(c: ConstName) | OtherObj

  function ObjectEquals(a: ConstName, o: Obj): bool {
    if o.Null? then false
    else if !o.ConstObj? then false
    else Equals(a, o.c)
  }

  function OpEquals(a: ConstName, b: ConstName): bool { Equals(a, b) }
  function OpNotEquals(a: ConstName, b: ConstName): bool { !Equals(a, b) }

  /** `==`, `!=` and `object.Equals` agree with `Equals(ConstName)`. */
  lemma OperatorsAgree(a: ConstName, b: ConstName)
    ensures OpEquals(a, b) == Equals(a, b)
    ensures OpNotEquals(a, b) == !Equals(a, b)
    ensures ObjectEquals(a, ConstObj(b)) == Equals(a, b)
    ensures !ObjectEquals(a, Null) && !ObjectEquals(a, OtherObj)
  {
  }
}
