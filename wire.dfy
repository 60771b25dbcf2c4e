/** Values, errors, wire types and tag framing shared by the writer and the reader of main.go.

    Go's bit operations on bytes are written arithmetically throughout the model:
    `b & 0x7F` is `b % 0x80`, `b & 0x80 == 0x80` is `b >= 0x80`, `x >> n` on a non-negative
    value is `x / 2^n`, `x << n` is `x * 2^n` (wrapped to 64 bits where it can overflow) and
    the conversion `byte(x)` of a non-negative value is `x % 0x100`. */
module Wire {

  /** A Go `byte`. */
  type byte = x: int | 0 <= x < 0x100

  /** A Go `int` on a 64-bit platform. */
  type int64 = x: int | -0x8000_0000_0000_0000 <= x < 0x8000_0000_0000_0000

  predicate IsAscii(s: seq<byte>) {
    forall j :: 0 <= j < |s| ==> s[j] < 0x80
  }

  /** The dynamic value stored under a field number. The source keeps an `interface{}` and
      only ever distinguishes `int`, `string` (held here as its bytes) and everything else,
      nil included. */
  datatype Value = IntVal(i: int64) | StrVal(s: seq<byte>) | Unsupported

  /** Why a call panics. */
  datatype Error =
    | IndexOutOfRange   // a slice or array index outside its bounds
    | UnsupportedType   // the error of ToTagType, re-raised by Write
    | MismatchedType    // a payload whose dynamic type does not match its wire type

  datatype Result<T> = Ok(value: T) | Err(error: Error)

  /** How a call that returns nothing ends: normally, or with a panic. */
  datatype Outcome = Pass | Fail(error: Error)

  datatype Option<T> = None | Some(value: T)

  datatype WireType = VarInt | LEN

  /** The two-entry table from wire-type bits to wire types (`globalMap`). */
  const globalMap: seq<WireType> := [VarInt, LEN]

  /** `globalMap[w]`: only the selectors 0 and 1 exist; any other index panics. */
  function LookupWireType(w: int): (r: Result<WireType>)
    ensures r.Ok? <==> w == 0 || w == 1
    ensures r.Ok? ==> (r.value == VarInt <==> w == 0)
    ensures r.Err? ==> r.error == IndexOutOfRange
  {
    if 0 <= w < |globalMap| then Ok(globalMap[w]) else Err(IndexOutOfRange)
  }

  /** The wire-type bits for a value: 0 for an int, 1 for a string, an error otherwise. */
  function ToTagType(v: Value): (r: Result<byte>)
    ensures r.Ok? <==> !v.Unsupported?
    ensures r.Err? ==> r.error == UnsupportedType
    ensures r.Ok? ==> LookupWireType(r.value) == Ok(if v.IntVal? then VarInt else LEN)
  {
    match v
    case IntVal(_) => Ok(0)
    case StrVal(_) => Ok(1)
    case Unsupported => Err(UnsupportedType)
  }

  /** `getWireType`: the low two bits of a tag byte (the function is never called). */
  function GetWireType(tag: byte): (r: int)
    ensures 0 <= r < 4
    ensures (tag - r) % 4 == 0
  {
    tag % 4
  }

  /** A Go `int` computation wrapped into 64 bits, two's complement. */
  function Wrap64(x: int): int64
    decreases if x >= 0x8000_0000_0000_0000 then x - 0x8000_0000_0000_0000 + 1
              else if x < -0x8000_0000_0000_0000 then -0x8000_0000_0000_0000 - x
              else 0
  {
    if x >= 0x8000_0000_0000_0000 then Wrap64(x - 0x1_0000_0000_0000_0000)
    else if x < -0x8000_0000_0000_0000 then Wrap64(x + 0x1_0000_0000_0000_0000)
    else x
  }

  /** Wrapping keeps a value that fits and otherwise changes it by a multiple of 2^64. */
  lemma {:induction false} Wrap64Congruent(x: int)
    ensures (x - Wrap64(x)) % 0x1_0000_0000_0000_0000 == 0
    ensures -0x8000_0000_0000_0000 <= x < 0x8000_0000_0000_0000 ==> Wrap64(x) == x
    decreases if x >= 0x8000_0000_0000_0000 then x - 0x8000_0000_0000_0000 + 1
              else if x < -0x8000_0000_0000_0000 then -0x8000_0000_0000_0000 - x
              else 0
  {
    if x >= 0x8000_0000_0000_0000 {
      var y := x - 0x1_0000_0000_0000_0000;
      Wrap64Congruent(y);
      assert x - Wrap64(x) == (y - Wrap64(y)) + 0x1_0000_0000_0000_0000;
    } else if x < -0x8000_0000_0000_0000 {
      var y := x + 0x1_0000_0000_0000_0000;
      Wrap64Congruent(y);
      assert x - Wrap64(x) == (y - Wrap64(y)) - 0x1_0000_0000_0000_0000;
    }
  }

  /** `index << 3` on a Go `int`, which wraps once the shift overflows. */
  function Shl3(index: int64): (r: int64)
    ensures -0x1000_0000_0000_0000 <= index < 0x1000_0000_0000_0000 ==> r == index * 8
  {
    Wrap64(index * 8)
  }

  /** The reader's split of a decoded tag into `tag >> 3` and `tag & 0x07`. */
  function SplitTag(tag: nat): (r: (nat, nat))
    ensures r.1 < 8 && tag == r.0 * 8 + r.1
  {
    (tag / 8, tag % 8)
  }

  /** `b | t` for a wire-type selector `t`, which is 0 or 1: sets the low bit when `t` does. */
  function OrLowBit(b: byte, t: byte): (r: byte)
    requires t <= 1
    ensures r / 2 == b / 2
    ensures r % 2 == (if b % 2 == 1 || t == 1 then 1 else 0)
  {
    if b % 2 == 0 then b + t else b
  }

  /** A decoded tag splits back into the field number and selector that were framed into it. */
  lemma SplitTagInverse(field: nat, wire: nat)
    requires wire < 8
    ensures SplitTag(field * 8 + wire) == (field, wire)
  {
  }

  /** On tag bytes whose selector is 0 or 1 (all that the writer produces), the unused
      two-bit `getWireType` agrees with the reader's three-bit split. */
  lemma GetWireTypeAgrees(field: nat, wire: nat)
    requires wire <= 1 && field * 8 + wire < 0x100
    ensures GetWireType(field * 8 + wire) == SplitTag(field * 8 + wire).1
  {
    SplitTagInverse(field, wire);
  }
}
