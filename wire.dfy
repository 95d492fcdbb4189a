/**
 * The vocabulary of the wire format: bytes, the fixed-width integer types of
 * the protocol in two's complement, and their big-endian layout
 * (`to_be_bytes` / `from_be_bytes`).
 */
module Wire {

  type Byte = b: int | 0 <= b < 0x100
  type I8 = x: int | -0x80 <= x < 0x80
  type I16 = x: int | -0x8000 <= x < 0x8000
  type U16 = x: int | 0 <= x < 0x1_0000
  type I32 = x: int | -0x8000_0000 <= x < 0x8000_0000
  type U32 = x: int | 0 <= x < 0x1_0000_0000
  type I64 = x: int | -0x8000_0000_0000_0000 <= x < 0x8000_0000_0000_0000

  const TWO_8: nat := 0x100
  const TWO_16: nat := 0x1_0000
  const TWO_31: nat := 0x8000_0000
  const TWO_32: nat := 0x1_0000_0000
  const TWO_64: nat := 0x1_0000_0000_0000_0000

  /**
   * The ways a read can panic in the source: indexing past the buffer, a
   * VarInt over its byte limit, or string bytes that are not UTF-8.
   */
  datatype DecodeError = OutOfBounds | VarIntTooBig | InvalidUtf8

  datatype Result<+T> = Ok(value: T) | Err(error: DecodeError) {
    predicate IsFailure() { Err? }
    function PropagateFailure<U>(): Result<U>
      requires Err?
    {
      Err(error)
    }
    function Extract(): T
      requires Ok?
    {
      value
    }
  }

  /** A value read from a buffer together with the cursor position after it. */
  datatype Read<+T> = Read(value: T, next: nat)

  /** Forgets the cursor of a successful read. */
  function Drop<T>(r: Result<Read<T>>): Result<T>
  {
    match r
    case Ok(rd) => Ok(rd.value)
    case Err(e) => Err(e)
  }

  /** `x` sits in `buf` at `pos`. */
  predicate SliceIs(buf: seq<Byte>, pos: nat, x: seq<Byte>)
  {
    pos + |x| <= |buf| && buf[pos..pos + |x|] == x
  }

  lemma SliceOfConcat(pre: seq<Byte>, x: seq<Byte>, post: seq<Byte>)
    ensures SliceIs(pre + x + post, |pre|, x)
  {
  }

  lemma SliceSplit(buf: seq<Byte>, pos: nat, x: seq<Byte>, y: seq<Byte>)
    requires SliceIs(buf, pos, x + y)
    ensures SliceIs(buf, pos, x) && SliceIs(buf, pos + |x|, y)
  {
    assert buf[pos..pos + |x|] == (x + y)[..|x|];
    assert buf[pos + |x|..pos + |x| + |y|] == (x + y)[|x|..];
  }

  function Pow256(n: nat): (r: nat)
    ensures r >= 1 && (n > 0 ==> r % 2 == 0)
  {
    if n == 0 then 1 else 256 * Pow256(n - 1)
  }

  lemma PowersOf256()
    ensures Pow256(1) == TWO_8 && Pow256(2) == TWO_16
    ensures Pow256(4) == TWO_32 && Pow256(8) == TWO_64
  {
    assert Pow256(2) == TWO_16;
    assert Pow256(4) == TWO_32;
    assert Pow256(6) == 0x1_0000_0000_0000;
  }

  /** The bit pattern of a signed value in a type with `m` distinct values (`as u8`, `as u32`, ...). */
  function AsUnsigned(v: int, m: nat): (u: nat)
    requires m > 0 && m % 2 == 0 && -(m / 2) <= v < m / 2
    ensures u < m && (u == v || u == v + m)
  {
    if v < 0 then v + m else v
  }

  /** The signed value of a bit pattern in a type with `m` distinct values (`as i8`, `as i32`, ...). */
  function AsSigned(u: nat, m: nat): (v: int)
    requires m > 0 && m % 2 == 0 && u < m
    ensures -(m / 2) <= v < m / 2 && (v == u || v == u - m)
  {
    if u < m / 2 then u else u - m
  }

  lemma SignedOfUnsigned(v: int, m: nat)
    requires m > 0 && m % 2 == 0 && -(m / 2) <= v < m / 2
    ensures AsSigned(AsUnsigned(v, m), m) == v
  {
  }

  lemma UnsignedOfSigned(u: nat, m: nat)
    requires m > 0 && m % 2 == 0 && u < m
    ensures AsUnsigned(AsSigned(u, m), m) == u
  {
  }

  /** `n` bytes holding `u`, most significant first; higher bits of `u` are dropped. */
  function BigEndian(u: nat, n: nat): (r: seq<Byte>)
    ensures |r| == n
  {
    if n == 0 then [] else BigEndian(u / 256, n - 1) + [u % 256]
  }

  /** The unsigned value of a big-endian byte sequence. */
  function FromBigEndian(s: seq<Byte>): (u: nat)
    ensures u < Pow256(|s|)
  {
    if s == [] then 0 else FromBigEndian(s[..|s| - 1]) * 256 + s[|s| - 1]
  }

  lemma {:induction false} BigEndianRoundTrip(u: nat, n: nat)
    requires u < Pow256(n)
    ensures FromBigEndian(BigEndian(u, n)) == u
  {
    if n > 0 {
      assert u / 256 < Pow256(n - 1);
      BigEndianRoundTrip(u / 256, n - 1);
      var s := BigEndian(u, n);
      assert s[..n - 1] == BigEndian(u / 256, n - 1);
    }
  }

  lemma {:induction false} FromBigEndianInverse(s: seq<Byte>)
    ensures BigEndian(FromBigEndian(s), |s|) == s
  {
    if s != [] {
      var init := s[..|s| - 1];
      FromBigEndianInverse(init);
      var u := FromBigEndian(s);
      assert u / 256 == FromBigEndian(init) && u % 256 == s[|s| - 1];
    }
  }

  /** `i64::to_be_bytes` */
  function LongBytes(v: I64): (r: seq<Byte>)
  {
    BigEndian(AsUnsigned(v, TWO_64), 8)
  }

  /** `i32::to_be_bytes` */
  function IntBytes(v: I32): (r: seq<Byte>)
  {
    BigEndian(AsUnsigned(v, TWO_32), 4)
  }

  /** `i16::to_be_bytes` */
  function ShortBytes(v: I16): (r: seq<Byte>)
  {
    BigEndian(AsUnsigned(v, TWO_16), 2)
  }

  /** `u16::to_be_bytes` */
  function UShortBytes(v: U16): (r: seq<Byte>)
  {
    BigEndian(v, 2)
  }

  /** `i64::from_be_bytes` of the eight bytes at `pos`. */
  function LongAt(buf: seq<Byte>, pos: nat): I64
    requires pos + 8 <= |buf|
  {
    PowersOf256();
    AsSigned(FromBigEndian(buf[pos..pos + 8]), TWO_64)
  }

  /** `i32::from_be_bytes` of the four bytes at `pos`. */
  function IntAt(buf: seq<Byte>, pos: nat): I32
    requires pos + 4 <= |buf|
  {
    PowersOf256();
    AsSigned(FromBigEndian(buf[pos..pos + 4]), TWO_32)
  }

  /** `u16::from_be_bytes` of the two bytes at `pos`. */
  function UShortAt(buf: seq<Byte>, pos: nat): U16
    requires pos + 2 <= |buf|
  {
    PowersOf256();
    FromBigEndian(buf[pos..pos + 2])
  }

  /** Reading back, at any offset, what the signed big-endian writer produced gives the value written. */
  lemma SignedBigEndianRoundTrip(pre: seq<Byte>, v: int, n: nat, post: seq<Byte>)
    requires n > 0 && -(Pow256(n) / 2) <= v < Pow256(n) / 2
    ensures AsSigned(FromBigEndian((pre + BigEndian(AsUnsigned(v, Pow256(n)), n) + post)[|pre|..|pre| + n]), Pow256(n)) == v
  {
    var m := Pow256(n);
    assert m > 0 && m % 2 == 0;
    var u := AsUnsigned(v, m);
    var bytes := BigEndian(u, n);
    assert (pre + bytes + post)[|pre|..|pre| + n] == bytes;
    BigEndianRoundTrip(u, n);
    assert FromBigEndian(bytes) == u;
    SignedOfUnsigned(v, m);
  }

  lemma LongRoundTrip(pre: seq<Byte>, v: I64, post: seq<Byte>)
    ensures LongAt(pre + LongBytes(v) + post, |pre|) == v
  {
    PowersOf256();
    SignedBigEndianRoundTrip(pre, v, 8, post);
  }

  lemma IntRoundTrip(pre: seq<Byte>, v: I32, post: seq<Byte>)
    ensures IntAt(pre + IntBytes(v) + post, |pre|) == v
  {
    PowersOf256();
    SignedBigEndianRoundTrip(pre, v, 4, post);
  }

  lemma UShortRoundTrip(pre: seq<Byte>, v: U16, post: seq<Byte>)
    ensures UShortAt(pre + UShortBytes(v) + post, |pre|) == v
  {
    PowersOf256();
    var buf := pre + UShortBytes(v) + post;
    assert buf[|pre|..|pre| + 2] == UShortBytes(v);
    BigEndianRoundTrip(v, 2);
  }

  /** Every eight-byte sequence is what the long writer produces for the value the long reader finds in it. */
  lemma LongBytesOfLongAt(s: seq<Byte>)
    requires |s| == 8
    ensures LongBytes(LongAt(s, 0)) == s
  {
    PowersOf256();
    assert s[0..8] == s;
    UnsignedOfSigned(FromBigEndian(s), TWO_64);
    FromBigEndianInverse(s);
  }
}
