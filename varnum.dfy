/**
 * The VarInt / VarLong codec of `src/packets.rs` as specification functions:
 * seven data bits per byte, least significant group first, bit 7 set on every
 * byte that is followed by another.
 */
module VarNum {
  import opened Wire

  /** The byte limit `read_varint` and `read_varlong` both enforce: reading a sixth byte panics. */
  const VARINT_MAX_BYTES: nat := 5
  /** The byte limit the protocol sets for a VarLong (used by the corrected reader `VarLongTenAt` only). */
  const VARLONG_MAX_BYTES: nat := 10

  function Pow128(n: nat): (r: nat)
    ensures r >= 1
  {
    if n == 0 then 1 else 128 * Pow128(n - 1)
  }

  lemma PowersOf128()
    ensures Pow128(1) == 0x80 && Pow128(5) == 0x8_0000_0000
    ensures Pow128(10) == 0x40_0000_0000_0000_0000
  {
    assert Pow128(5) == 0x8_0000_0000;
    assert Pow128(8) == 0x100_0000_0000_0000;
  }

  // ---------------------------------------------------------------- writing

  /**
   * The bytes `write_varint` and `write_varlong` append for a non-negative
   * value: the low seven bits, with bit 7 set when more bits remain, then the
   * rest of the value shifted right by seven.
   */
  function VarIntBytes(x: nat): (r: seq<Byte>)
    ensures 1 <= |r|
    decreases x
  {
    if x < 128 then [x] else [x % 128 + 128] + VarIntBytes(x / 128)
  }

  /** Every byte but the last carries the continuation bit, the last does not; zero is the single byte 0x00. */
  lemma {:induction false} VarIntBytesShape(x: nat)
    ensures VarIntBytes(x)[|VarIntBytes(x)| - 1] < 128
    ensures forall k :: 0 <= k < |VarIntBytes(x)| - 1 ==> VarIntBytes(x)[k] >= 128
    ensures x == 0 ==> VarIntBytes(x) == [0x00]
    decreases x
  {
    if x >= 128 {
      var r := VarIntBytes(x);
      var rest := VarIntBytes(x / 128);
      VarIntBytesShape(x / 128);
      assert r == [x % 128 + 128] + rest;
      forall k | 1 <= k < |r| - 1
        ensures r[k] >= 128
      {
        assert r[k] == rest[k - 1];
      }
    }
  }

  /** The encoding fits in `n` bytes exactly when the value is below 2^(7n). */
  lemma {:induction false} VarIntBytesLength(x: nat, n: nat)
    requires n >= 1
    ensures |VarIntBytes(x)| <= n <==> x < Pow128(n)
    decreases n
  {
    if x >= 128 && n > 1 {
      VarIntBytesLength(x / 128, n - 1);
    }
  }

  // ---------------------------------------------------------------- reading

  /** The value of a run of 7-bit groups, least significant first: the `result |= value << (7 * num_read)` accumulation. */
  function GroupValue(s: seq<Byte>): nat
  {
    if s == [] then 0 else s[0] % 128 + 128 * GroupValue(s[1..])
  }

  lemma {:induction false} GroupValueAppend(s: seq<Byte>, b: Byte)
    ensures GroupValue(s + [b]) == GroupValue(s) + b % 128 * Pow128(|s|)
  {
    if s != [] {
      assert (s + [b])[1..] == s[1..] + [b];
      GroupValueAppend(s[1..], b);
      calc {
        GroupValue(s + [b]);
        s[0] % 128 + 128 * GroupValue(s[1..] + [b]);
        s[0] % 128 + 128 * (GroupValue(s[1..]) + b % 128 * Pow128(|s| - 1));
        { assert 128 * (b % 128 * Pow128(|s| - 1)) == b % 128 * (128 * Pow128(|s| - 1)); }
        GroupValue(s) + b % 128 * Pow128(|s|);
      }
    }
  }

  lemma {:induction false} GroupValueOfEncoding(x: nat)
    ensures GroupValue(VarIntBytes(x)) == x
    decreases x
  {
    if x >= 128 {
      GroupValueOfEncoding(x / 128);
      assert VarIntBytes(x)[1..] == VarIntBytes(x / 128);
    }
  }

  /**
   * How many bytes the read loop consumes when it has already read `k` bytes
   * of a VarInt starting at `pos`, or the panic it ends in: indexing past the
   * buffer, or a byte read after `limit` bytes (`num_read > 5`).
   */
  function VarNumSize(buf: seq<Byte>, pos: nat, limit: nat, k: nat): (r: Result<nat>)
    requires k <= limit
    ensures r.Ok? ==> k < r.value <= limit && pos + r.value <= |buf|
    decreases limit - k
  {
    if pos + k >= |buf| then Err(OutOfBounds)
    else if k == limit then Err(VarIntTooBig)
    else if buf[pos + k] < 128 then Ok(k + 1)
    else VarNumSize(buf, pos, limit, k + 1)
  }

  /** The untruncated value of a VarInt and the number of bytes it occupies. */
  datatype VarNum = VarNum(raw: nat, size: nat)

  function VarNumAt(buf: seq<Byte>, pos: nat, limit: nat): (r: Result<VarNum>)
    ensures r.Ok? ==> 1 <= r.value.size <= limit && pos + r.value.size <= |buf|
  {
    var n :- VarNumSize(buf, pos, limit, 0);
    Ok(VarNum(GroupValue(buf[pos..pos + n]), n))
  }

  /** `read_varint`: at most five bytes, accumulated in an `i32` (bits past 31 are shifted out). */
  function VarIntAt(buf: seq<Byte>, pos: nat): (r: Result<Read<I32>>)
    ensures r.Ok? ==> pos < r.value.next <= |buf|
  {
    var n :- VarNumAt(buf, pos, VARINT_MAX_BYTES);
    Ok(Read(AsSigned(n.raw % TWO_32, TWO_32), pos + n.size))
  }

  /** `read_varlong` as written: accumulated in an `i64`, but with the five-byte VarInt limit. */
  function VarLongAt(buf: seq<Byte>, pos: nat): (r: Result<Read<I64>>)
    ensures r.Ok? ==> pos < r.value.next <= |buf|
  {
    var n :- VarNumAt(buf, pos, VARINT_MAX_BYTES);
    Ok(Read(AsSigned(n.raw % TWO_64, TWO_64), pos + n.size))
  }

  /** The read stops at the first byte whose bit 7 is clear, provided that byte is within the limit. */
  lemma {:induction false} VarNumStopsAtFirstClearByte(buf: seq<Byte>, pos: nat, limit: nat, k: nat, n: nat)
    requires k <= limit
    ensures VarNumSize(buf, pos, limit, k) == Ok(n) <==>
              && k < n <= limit && pos + n <= |buf| && buf[pos + n - 1] < 128
              && forall t :: pos + k <= t < pos + n - 1 ==> buf[t] >= 128
    decreases limit - k
  {
    if pos + k < |buf| && k < limit && buf[pos + k] >= 128 {
      VarNumStopsAtFirstClearByte(buf, pos, limit, k + 1, n);
    }
  }

  lemma {:induction false} VarNumSizeAllContinued(buf: seq<Byte>, pos: nat, limit: nat, k: nat)
    requires k <= limit
    requires pos + limit <= |buf| && forall t :: pos + k <= t < pos + limit ==> buf[t] >= 128
    ensures VarNumSize(buf, pos, limit, k) == Err(if pos + limit < |buf| then VarIntTooBig else OutOfBounds)
    decreases limit - k
  {
    if k < limit {
      VarNumSizeAllContinued(buf, pos, limit, k + 1);
    }
  }

  /** When the first `limit` bytes all carry the continuation bit the read fails, on the byte after them. */
  lemma VarNumTooLong(buf: seq<Byte>, pos: nat, limit: nat)
    requires pos + limit <= |buf| && forall t :: pos <= t < pos + limit ==> buf[t] >= 128
    ensures VarNumAt(buf, pos, limit) == Err(if pos + limit < |buf| then VarIntTooBig else OutOfBounds)
  {
    VarNumSizeAllContinued(buf, pos, limit, 0);
  }

  lemma {:induction false} VarNumSizeReadsAtMost(buf: seq<Byte>, m: nat, pos: nat, limit: nat, k: nat)
    requires k <= limit && pos + limit < m <= |buf|
    ensures VarNumSize(buf[..m], pos, limit, k) == VarNumSize(buf, pos, limit, k)
    decreases limit - k
  {
    if k < limit {
      VarNumSizeReadsAtMost(buf, m, pos, limit, k + 1);
    }
  }

  /** The read never looks past byte `limit + 1`: the bytes after it do not change its outcome. */
  lemma VarNumReadsAtMost(buf: seq<Byte>, m: nat, pos: nat, limit: nat)
    requires pos + limit < m <= |buf|
    ensures VarNumAt(buf[..m], pos, limit) == VarNumAt(buf, pos, limit)
  {
    VarNumSizeReadsAtMost(buf, m, pos, limit, 0);
    if VarNumAt(buf, pos, limit).Ok? {
      var n := VarNumAt(buf, pos, limit).value.size;
      assert buf[..m][pos..pos + n] == buf[pos..pos + n];
    }
  }

  lemma {:induction false} VarNumSizeOnPrefix(buf: seq<Byte>, m: nat, pos: nat, limit: nat, k: nat)
    requires k <= limit && m <= |buf|
    requires VarNumSize(buf, pos, limit, k).Ok? && pos + VarNumSize(buf, pos, limit, k).value <= m
    ensures VarNumSize(buf[..m], pos, limit, k) == VarNumSize(buf, pos, limit, k)
    decreases limit - k
  {
    if buf[pos + k] >= 128 {
      VarNumSizeOnPrefix(buf, m, pos, limit, k + 1);
    }
  }

  /** A successful read depends only on the bytes it consumed. */
  lemma VarNumOnPrefix(buf: seq<Byte>, m: nat, pos: nat, limit: nat)
    requires m <= |buf| && VarNumAt(buf, pos, limit).Ok?
    requires pos + VarNumAt(buf, pos, limit).value.size <= m
    ensures VarNumAt(buf[..m], pos, limit) == VarNumAt(buf, pos, limit)
  {
    VarNumSizeOnPrefix(buf, m, pos, limit, 0);
    var n := VarNumAt(buf, pos, limit).value.size;
    assert buf[..m][pos..pos + n] == buf[pos..pos + n];
  }

  // ---------------------------------------------------------------- round trips

  lemma {:induction false} VarNumSizeOfEncoding(buf: seq<Byte>, pos: nat, limit: nat, k: nat, x: nat)
    requires k + |VarIntBytes(x)| <= limit
    requires pos + k + |VarIntBytes(x)| <= |buf|
    requires buf[pos + k..pos + k + |VarIntBytes(x)|] == VarIntBytes(x)
    ensures VarNumSize(buf, pos, limit, k) == Ok(k + |VarIntBytes(x)|)
    decreases x
  {
    var r := VarIntBytes(x);
    assert buf[pos + k] == r[0];
    if x >= 128 {
      var rest := VarIntBytes(x / 128);
      assert r == [r[0]] + rest;
      calc {
        buf[pos + k + 1..pos + k + 1 + |rest|];
        buf[pos + k..pos + k + |r|][1..];
        r[1..];
        rest;
      }
      VarNumSizeOfEncoding(buf, pos, limit, k + 1, x / 128);
    }
  }

  /** Reading the encoding of a value that fits in `limit` bytes, wherever it sits in a buffer, gives the value and its length. */
  lemma VarNumDecodes(buf: seq<Byte>, pos: nat, x: nat, limit: nat)
    requires limit >= 1 && x < Pow128(limit)
    requires pos + |VarIntBytes(x)| <= |buf| && buf[pos..pos + |VarIntBytes(x)|] == VarIntBytes(x)
    ensures VarNumAt(buf, pos, limit) == Ok(VarNum(x, |VarIntBytes(x)|))
  {
    VarIntBytesLength(x, limit);
    VarNumSizeOfEncoding(buf, pos, limit, 0, x);
    GroupValueOfEncoding(x);
  }

  lemma VarNumRoundTrip(pre: seq<Byte>, x: nat, post: seq<Byte>, limit: nat)
    requires limit >= 1 && x < Pow128(limit)
    ensures VarNumAt(pre + VarIntBytes(x) + post, |pre|, limit) == Ok(VarNum(x, |VarIntBytes(x)|))
  {
    var r := VarIntBytes(x);
    assert (pre + r + post)[|pre|..|pre| + |r|] == r;
    VarNumDecodes(pre + r + post, |pre|, x, limit);
  }

  /** `read_varint` on a buffer holding the encoding of a non-negative `i32` at `pos` returns it and moves past exactly those bytes. */
  lemma VarIntDecodes(buf: seq<Byte>, pos: nat, x: nat, next: nat)
    requires x < TWO_31 && SliceIs(buf, pos, VarIntBytes(x)) && next == pos + |VarIntBytes(x)|
    ensures VarIntAt(buf, pos) == Ok(Read(x, next))
  {
    PowersOf128();
    VarNumDecodes(buf, pos, x, VARINT_MAX_BYTES);
  }

  /** `read_varint` on what `write_varint` appended for a non-negative `i32` returns it and moves past exactly those bytes. */
  lemma VarIntRoundTrip(pre: seq<Byte>, x: nat, post: seq<Byte>)
    requires x < TWO_31
    ensures |VarIntBytes(x)| <= VARINT_MAX_BYTES
    ensures VarIntAt(pre + VarIntBytes(x) + post, |pre|) == Ok(Read(x, |pre| + |VarIntBytes(x)|))
  {
    PowersOf128();
    VarIntBytesLength(x, VARINT_MAX_BYTES);
    VarNumRoundTrip(pre, x, post, VARINT_MAX_BYTES);
  }

  /** `read_varlong` on what `write_varlong` appended for a value below 2^35 returns it. */
  lemma VarLongRoundTrip(pre: seq<Byte>, x: nat, post: seq<Byte>)
    requires x < Pow128(VARINT_MAX_BYTES)
    ensures VarLongAt(pre + VarIntBytes(x) + post, |pre|) == Ok(Read(x, |pre| + |VarIntBytes(x)|))
  {
    PowersOf128();
    VarNumRoundTrip(pre, x, post, VARINT_MAX_BYTES);
  }

  // ---------------------------------------------------------------- findings

  /** `value >> 7` on a signed integer: an arithmetic shift, which rounds towards negative infinity. */
  function ShiftRight7(v: int): int
  {
    v / 128
  }

  /** The `value` that `write_varint`'s loop holds after `n` iterations. */
  function LoopValue(v: int, n: nat): int
  {
    if n == 0 then v else ShiftRight7(LoopValue(v, n - 1))
  }

  /**
   * As written, neither `write_varint` (an `i32`) nor `write_varlong` (an
   * `i64`) leaves its loop for a negative value: `value == 0` never holds.
   */
  lemma {:induction false} NegativeVarIntNeverTerminates(v: int, n: nat)
    requires v < 0
    ensures LoopValue(v, n) < 0
  {
    if n > 0 {
      NegativeVarIntNeverTerminates(v, n - 1);
    }
  }

  /** The protocol's VarInt writer: the 32-bit pattern of the value, seven bits at a time (a logical shift). */
  function VarIntBytes32(v: I32): seq<Byte>
  {
    VarIntBytes(AsUnsigned(v, TWO_32))
  }

  /** Every `i32`, negative ones included, survives the corrected writer and `read_varint`; on non-negative values the corrected writer is `write_varint`. */
  lemma VarInt32RoundTrip(pre: seq<Byte>, v: I32, post: seq<Byte>)
    ensures |VarIntBytes32(v)| <= VARINT_MAX_BYTES
    ensures v >= 0 ==> VarIntBytes32(v) == VarIntBytes(v)
    ensures VarIntAt(pre + VarIntBytes32(v) + post, |pre|) == Ok(Read(v, |pre| + |VarIntBytes32(v)|))
  {
    PowersOf128();
    var u := AsUnsigned(v, TWO_32);
    VarIntBytesLength(u, VARINT_MAX_BYTES);
    VarNumRoundTrip(pre, u, post, VARINT_MAX_BYTES);
    SignedOfUnsigned(v, TWO_32);
  }

  /** The corrected writer's bytes, wherever they sit in a buffer, read back as the value. */
  lemma VarInt32Decodes(buf: seq<Byte>, pos: nat, v: I32, next: nat)
    requires SliceIs(buf, pos, VarIntBytes32(v)) && next == pos + |VarIntBytes32(v)|
    ensures VarIntAt(buf, pos) == Ok(Read(v, next))
  {
    PowersOf128();
    var u := AsUnsigned(v, TWO_32);
    VarNumDecodes(buf, pos, u, VARINT_MAX_BYTES);
    SignedOfUnsigned(v, TWO_32);
  }

  /** As written, what `write_varlong` emits for a value of 2^35 or more is rejected by `read_varlong`. */
  lemma VarLongOverFiveBytesRejected(x: nat, post: seq<Byte>)
    requires Pow128(VARINT_MAX_BYTES) <= x
    ensures VarLongAt(VarIntBytes(x) + post, 0) == Err(VarIntTooBig)
  {
    var r := VarIntBytes(x);
    VarIntBytesLength(x, VARINT_MAX_BYTES);
    VarIntBytesShape(x);
    var buf := r + post;
    forall t | 0 <= t < VARINT_MAX_BYTES
      ensures buf[t] >= 128
    {
      assert buf[t] == r[t];
    }
    VarNumTooLong(buf, 0, VARINT_MAX_BYTES);
  }

  /** The protocol's VarLong reader: up to ten bytes, accumulated in an `i64`. */
  function VarLongTenAt(buf: seq<Byte>, pos: nat): Result<Read<I64>>
  {
    var n :- VarNumAt(buf, pos, VARLONG_MAX_BYTES);
    Ok(Read(AsSigned(n.raw % TWO_64, TWO_64), pos + n.size))
  }

  /** The protocol's VarLong writer: the 64-bit pattern of the value, seven bits at a time. */
  function VarLongBytes(v: I64): seq<Byte>
  {
    VarIntBytes(AsUnsigned(v, TWO_64))
  }

  /** Every `i64` survives the corrected VarLong writer and reader. */
  lemma VarLongTenRoundTrip(pre: seq<Byte>, v: I64, post: seq<Byte>)
    ensures |VarLongBytes(v)| <= VARLONG_MAX_BYTES
    ensures VarLongTenAt(pre + VarLongBytes(v) + post, |pre|) == Ok(Read(v, |pre| + |VarLongBytes(v)|))
  {
    PowersOf128();
    var u := AsUnsigned(v, TWO_64);
    VarIntBytesLength(u, VARLONG_MAX_BYTES);
    VarNumRoundTrip(pre, u, post, VARLONG_MAX_BYTES);
    SignedOfUnsigned(v, TWO_64);
  }
}
