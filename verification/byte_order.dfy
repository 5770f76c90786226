/** Fixed-width integers, Rust's integer casts and the endian-aware byte source that the
    extension reader pulls its size and code fields from. The source is an in-memory byte
    sequence together with the byte order chosen by the caller. */
module ByteOrder {
  import opened Wrappers
  import opened NiftiErrors

  type byte = b: int | 0 <= b < 256

  const I32_MIN: int := -0x8000_0000
  const I32_MAX: int := 0x7FFF_FFFF
  const U32_MODULUS: int := 0x1_0000_0000
  // `usize` and `isize` are taken at their width on a 64-bit target.
  const USIZE_MODULUS: int := 0x1_0000_0000_0000_0000
  const USIZE_MAX: int := USIZE_MODULUS - 1
  const ISIZE_MAX: int := 0x7FFF_FFFF_FFFF_FFFF

  type i32 = x: int | I32_MIN <= x <= I32_MAX
  type usize = x: int | 0 <= x <= USIZE_MAX

  /** `x as usize` for an `i32`: sign extension to 64 bits, so a negative value wraps to a
      value above `isize::MAX`. */
  function UsizeFromI32(x: i32): (r: usize)
    ensures x >= 0 ==> r == x
    ensures x < 0 ==> r > ISIZE_MAX && r - USIZE_MODULUS == x
  {
    if x >= 0 then x else x + USIZE_MODULUS
  }

  /** `a.saturating_sub(b)` on `usize`. */
  function SaturatingSub(a: usize, b: usize): (r: usize)
    ensures a >= b ==> r + b == a
    ensures a < b ==> r == 0
  {
    if a >= b then a - b else 0
  }

  function Max(a: int, b: int): int { if a >= b then a else b }

  function Min(a: int, b: int): int { if a <= b then a else b }

  datatype Endianness = LittleEndian | BigEndian

  /** The value of four bytes, least significant first. */
  function LeValue(b: seq<byte>): (u: nat)
    requires |b| == 4
    ensures u < U32_MODULUS
  {
    b[0] as int + 256 * (b[1] as int + 256 * (b[2] as int + 256 * b[3] as int))
  }

  /** The four bytes of an unsigned 32-bit value, least significant first. */
  function LeBytes(u: nat): (b: seq<byte>)
    requires u < U32_MODULUS
    ensures |b| == 4
  {
    var q1 := u / 256;
    var q2 := q1 / 256;
    var q3 := q2 / 256;
    [u % 256, q1 % 256, q2 % 256, q3]
  }

  function Reverse4(b: seq<byte>): (r: seq<byte>)
    requires |b| == 4
    ensures |r| == 4
  {
    [b[3], b[2], b[1], b[0]]
  }

  /** The two's-complement reading of an unsigned 32-bit pattern. */
  function ToSigned(u: nat): i32
    requires u < U32_MODULUS
  {
    if u <= I32_MAX then u else u - U32_MODULUS
  }

  /** The unsigned 32-bit pattern of a two's-complement value. */
  function ToUnsigned(x: i32): (u: nat)
    ensures u < U32_MODULUS
  {
    if x >= 0 then x else x + U32_MODULUS
  }

  /** The wire bytes of an `i32` in the given byte order. */
  function EncodeI32(x: i32, order: Endianness): (b: seq<byte>)
    ensures |b| == 4
  {
    var le := LeBytes(ToUnsigned(x));
    match order
    case LittleEndian => le
    case BigEndian => Reverse4(le)
  }

  /** The `i32` that four wire bytes hold in the given byte order. */
  function DecodeI32(b: seq<byte>, order: Endianness): i32
    requires |b| == 4
  {
    match order
    case LittleEndian => ToSigned(LeValue(b))
    case BigEndian => ToSigned(LeValue(Reverse4(b)))
  }

  lemma LeRoundTrip(u: nat)
    requires u < U32_MODULUS
    ensures LeValue(LeBytes(u)) == u
  {
  }

  lemma DivModByte(r: int, q: int)
    requires 0 <= r < 256
    ensures (r + 256 * q) / 256 == q && (r + 256 * q) % 256 == r
  {
  }

  lemma LeBytesOfValue(b: seq<byte>)
    requires |b| == 4
    ensures LeBytes(LeValue(b)) == b
  {
    var x3 := b[3] as int;
    var x2 := b[2] as int + 256 * x3;
    var x1 := b[1] as int + 256 * x2;
    DivModByte(b[0], x1);
    DivModByte(b[1], x2);
    DivModByte(b[2], x3);
  }

  /** Decoding recovers every encoded `i32`, in both byte orders. */
  lemma DecodeEncodeI32(x: i32, order: Endianness)
    ensures DecodeI32(EncodeI32(x, order), order) == x
  {
    LeRoundTrip(ToUnsigned(x));
    var le := LeBytes(ToUnsigned(x));
    if order == BigEndian {
      assert Reverse4(Reverse4(le)) == le;
    }
  }

  /** Every 4-byte pattern is the encoding of the value it decodes to: the codec is a
      bijection between `i32` and 4-byte sequences. */
  lemma EncodeDecodeI32(b: seq<byte>, order: Endianness)
    requires |b| == 4
    ensures EncodeI32(DecodeI32(b, order), order) == b
  {
    match order
    case LittleEndian =>
      LeBytesOfValue(b);
    case BigEndian =>
      LeBytesOfValue(Reverse4(b));
      assert Reverse4(Reverse4(b)) == b;
  }

  /** `read_exact` on an in-memory source: exactly `n` bytes, or an end-of-stream error. */
  function ReadExact(src: seq<byte>, n: nat): (r: Result<(seq<byte>, seq<byte>), NiftiError>)
    ensures r.Success? <==> n <= |src|
    ensures r.Failure? ==> r.error == Io(UnexpectedEof)
    ensures r.Success? ==> |r.value.0| == n && r.value.0 + r.value.1 == src
  {
    if |src| < n then Failure(Io(UnexpectedEof)) else Success((src[..n], src[n..]))
  }

  /** A byte source read in a fixed byte order (the crate's `ByteOrdered` over a reader). */
  datatype ByteOrdered = ByteOrdered(bytes: seq<byte>, order: Endianness)

  /** `read_i32`: four bytes decoded in the source's byte order. */
  function ReadI32(src: ByteOrdered): (r: Result<(i32, ByteOrdered), NiftiError>)
    ensures r.Success? <==> |src.bytes| >= 4
    ensures r.Failure? ==> r.error == Io(UnexpectedEof)
    ensures r.Success? ==>
      && r.value.1.order == src.order
      && src.bytes == EncodeI32(r.value.0, src.order) + r.value.1.bytes
  {
    match ReadExact(src.bytes, 4)
    case Failure(e) => Failure(e)
    case Success((field, rest)) =>
      EncodeDecodeI32(field, src.order);
      Success((DecodeI32(field, src.order), ByteOrdered(rest, src.order)))
  }

  /** `take(n).read_to_end(..)`: as many of the next `n` bytes as the source still holds;
      running out early is not an error here. */
  function Take(src: ByteOrdered, n: nat): (r: (seq<byte>, ByteOrdered))
    ensures |r.0| == Min(n, |src.bytes|)
    ensures r.0 + r.1.bytes == src.bytes && r.1.order == src.order
  {
    var k := Min(n, |src.bytes|);
    (src.bytes[..k], ByteOrdered(src.bytes[k..], src.order))
  }
}
