/**
  Fixed-width big-endian integers, the building blocks of both wire formats:
  the `u8_pack`/`u8_unpack` and `u32_pack`/`u32_unpack` helpers of the
  protocol utilities, which wrap Python's `struct` with the formats `!B`
  and `!I`.
*/
module Wire {

  /** One octet of a Python 2 `str`. */
  type byte = b: int | 0 <= b < 256
  type Bytes = seq<byte>

  /** The value-or-exception outcome of an operation that may raise. */
  datatype Result<+T, +E> = Ok(value: T) | Err(error: E)

  /** The two ways `struct.pack`/`struct.unpack` raise `struct.error` here. */
  datatype StructError =
    | OutOfRange   // the value does not fit the format
    | WrongLength  // the buffer is not exactly the format's size

  const U8Size: nat := 1
  const U32Size: nat := 4
  const U32Bound: nat := 0x1_0000_0000

  /** The number a 4-byte string denotes in network (big-endian) order. */
  function Be32Value(b: Bytes): (v: nat)
    requires |b| == 4
    ensures v < U32Bound
  {
    (b[0] as int) * 0x100_0000 + (b[1] as int) * 0x1_0000 + (b[2] as int) * 0x100 + b[3] as int
  }

  /** The 4-byte big-endian encoding of `v`. */
  function Be32(v: nat): (r: Bytes)
    requires v < U32Bound
    ensures |r| == 4 && Be32Value(r) == v
  {
    var q1 := v / 0x100;
    var q2 := q1 / 0x100;
    var q3 := q2 / 0x100;
    assert v == q1 * 0x100 + v % 0x100 && q1 == q2 * 0x100 + q1 % 0x100 && q2 == q3 * 0x100 + q2 % 0x100;
    [q3, q2 % 0x100, q1 % 0x100, v % 0x100]
  }

  /** `u8_pack(v)`: a single byte, or `struct.error` when `v` is not an unsigned byte. */
  function U8Pack(v: int): (r: Result<Bytes, StructError>)
    ensures r.Ok? <==> 0 <= v < 256
    ensures r.Ok? ==> |r.value| == U8Size && r.value[0] == v
    ensures r.Err? ==> r.error == OutOfRange
  {
    if 0 <= v < 256 then Ok([v]) else Err(OutOfRange)
  }

  /** `u8_unpack(b)`: the value of a 1-byte string; any other length raises. */
  function U8Unpack(b: Bytes): (r: Result<nat, StructError>)
    ensures r.Ok? <==> |b| == U8Size
    ensures r.Ok? ==> r.value < 256 && [r.value] == b
    ensures r.Err? ==> r.error == WrongLength
  {
    if |b| == 1 then Ok(b[0]) else Err(WrongLength)
  }

  /** `u32_pack(v)`: four big-endian bytes, or `struct.error` outside 0 .. 2^32 - 1. */
  function U32Pack(v: int): (r: Result<Bytes, StructError>)
    ensures r.Ok? <==> 0 <= v < U32Bound
    ensures r.Ok? ==> |r.value| == U32Size && Be32Value(r.value) == v
    ensures r.Err? ==> r.error == OutOfRange
  {
    if 0 <= v < U32Bound then Ok(Be32(v)) else Err(OutOfRange)
  }

  /** `u32_unpack(b)`: the big-endian value of a 4-byte string; any other length raises. */
  function U32Unpack(b: Bytes): (r: Result<nat, StructError>)
    ensures r.Ok? <==> |b| == U32Size
    ensures r.Ok? ==> r.value < U32Bound && r.value == Be32Value(b)
    ensures r.Err? ==> r.error == WrongLength
  {
    if |b| == 4 then Ok(Be32Value(b)) else Err(WrongLength)
  }

  /** Unpacking what was packed gives the value back. */
  lemma U8PackUnpack(v: int)
    requires 0 <= v < 256
    ensures U8Pack(v).Ok? && U8Unpack(U8Pack(v).value) == Ok(v)
  {
  }

  /** Packing what was unpacked gives the bytes back: the 1-byte encoding is a bijection. */
  lemma U8UnpackPack(b: Bytes)
    requires |b| == U8Size
    ensures U8Unpack(b).Ok? && U8Pack(U8Unpack(b).value) == Ok(b)
  {
  }

  /** Unpacking what was packed gives the value back. */
  lemma U32PackUnpack(v: int)
    requires 0 <= v < U32Bound
    ensures U32Pack(v).Ok? && U32Unpack(U32Pack(v).value) == Ok(v)
  {
  }

  /** Splitting off the low byte of `hi * 256 + lo`. */
  lemma SplitLowByte(hi: nat, lo: byte)
    ensures (hi * 0x100 + lo) % 0x100 == lo && (hi * 0x100 + lo) / 0x100 == hi
  {
  }

  /** Two 4-byte strings with the same big-endian value are equal. */
  lemma Be32Injective(a: Bytes, b: Bytes)
    requires |a| == 4 && |b| == 4 && Be32Value(a) == Be32Value(b)
    ensures a == b
  {
    var v := Be32Value(a);
    var a2: nat := (a[0] as int) * 0x100 + a[1] as int;
    var a1: nat := a2 * 0x100 + a[2] as int;
    var b2: nat := (b[0] as int) * 0x100 + b[1] as int;
    var b1: nat := b2 * 0x100 + b[2] as int;
    assert v == a1 * 0x100 + a[3] == b1 * 0x100 + b[3];
    SplitLowByte(a1, a[3]);
    SplitLowByte(b1, b[3]);
    SplitLowByte(a2, a[2]);
    SplitLowByte(b2, b[2]);
    SplitLowByte(a[0], a[1]);
    SplitLowByte(b[0], b[1]);
  }

  /** Packing what was unpacked gives the bytes back: the 4-byte encoding is a bijection. */
  lemma U32UnpackPack(b: Bytes)
    requires |b| == U32Size
    ensures U32Unpack(b).Ok? && U32Pack(U32Unpack(b).value) == Ok(b)
  {
    Be32Injective(Be32(Be32Value(b)), b);
  }

  /** Bit 31 of a 32-bit big-endian value is the top bit of its first byte. */
  lemma Be32TopBit(b: Bytes)
    requires |b| == 4
    ensures Be32Value(b) >= 0x8000_0000 <==> b[0] >= 0x80
  {
  }

  /** Concatenation regroups freely. */
  lemma AppendAssoc<T>(a: seq<T>, b: seq<T>, c: seq<T>)
    ensures (a + b) + c == a + (b + c)
  {
  }
}
