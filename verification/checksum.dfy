/**
 The packing step of `calculate_crc32`: the checksum is masked to 32 bits
 and written as four big-endian bytes. The CRC-32 itself (the zlib/gzip
 polynomial of section 8 of RFC 1952) is a foreign library call and enters
 the model as a function parameter from bytes to an unbounded integer.
 */
module Checksum {
  import opened Wrappers
  import opened BigEndian

  /** Width of the packed checksum, the `I` of the `'>I'` format. */
  const ChecksumWidth: nat := 4

  /** `2^w`, the modulus of a `w`-bit mask. */
  function Pow2(w: nat): (r: nat)
    ensures r >= 1
  {
    if w == 0 then 1 else 2 * Pow2(w - 1)
  }

  /**
   Python's `x & (2^w - 1)` computed bit by bit on the two's-complement view
   of an unbounded integer: the lowest bit is `x % 2`, the rest come from
   `x >> 1`, which is floor division by 2 (Dafny's `/` by a positive divisor
   floors as well, also for negative `x`).
   */
  function LowBits(x: int, w: nat): (r: nat)
    ensures r < Pow2(w)
    decreases w
  {
    if w == 0 then 0 else x % 2 + 2 * LowBits(x / 2, w - 1)
  }

  /** The mask `& 0xFFFFFFFF` applied to a checksum value. */
  function Mask32(x: int): (r: nat)
    ensures r < Two32
    ensures (x - r) % Two32 == 0
  {
    x % Two32
  }

  /** Keeping the low `w` bits is the non-negative remainder modulo 2^w. */
  lemma {:induction false} LowBitsIsMod(x: int, w: nat)
    ensures LowBits(x, w) == x % Pow2(w)
    decreases w
  {
    if w > 0 {
      LowBitsIsMod(x / 2, w - 1);
      var p := Pow2(w - 1);
      var q := x / 2;
      assert x == 2 * q + x % 2;
      assert q == p * (q / p) + q % p;
      assert x == (2 * p) * (q / p) + (2 * (q % p) + x % 2);
      assert 0 <= 2 * (q % p) + x % 2 < 2 * p;
      ModUnique(x, 2 * p, q / p, 2 * (q % p) + x % 2);
    }
  }

  /** The remainder of `x` by `m` is the one `r` in [0, m) with `x = m * d + r`. */
  lemma ModUnique(x: int, m: nat, d: int, r: int)
    requires m > 0 && 0 <= r < m && x == m * d + r
    ensures x % m == r
  {
    var q := x / m;
    var e := d - q;
    assert x == m * q + x % m;
    assert m * e == x % m - r by {
      assert m * e == m * d - m * q;
    }
    if e >= 1 {
      MulAtLeast(m, e);
      assert false;
    } else if e <= -1 {
      assert m * e == -(m * -e);
      MulAtLeast(m, -e);
      assert false;
    }
  }

  lemma MulAtLeast(m: nat, e: int)
    requires e >= 1
    ensures m * e >= m
  {
    assert m * e == m + m * (e - 1);
  }

  /** Widths add, moduli multiply. */
  lemma {:induction false} Pow2Add(a: nat, b: nat)
    ensures Pow2(a + b) == Pow2(a) * Pow2(b)
    decreases a
  {
    if a > 0 {
      Pow2Add(a - 1, b);
      assert Pow2(a + b) == 2 * Pow2(a - 1 + b);
    }
  }

  lemma Pow2ThirtyTwo()
    ensures Pow2(32) == Two32
  {
    assert Pow2(8) == 256;
    Pow2Add(8, 8);
    Pow2Add(16, 16);
  }

  /** The modular mask agrees with Python's bitwise `& 0xFFFFFFFF` on every integer, negative ones included. */
  lemma Mask32IsBitwiseAnd(x: int)
    ensures Mask32(x) == LowBits(x, 32)
  {
    Pow2ThirtyTwo();
    LowBitsIsMod(x, 32);
  }

  /** A checksum that already fits 32 bits passes the mask unchanged, and masking twice is masking once. */
  lemma Mask32Fixes(x: int)
    ensures 0 <= x < Two32 ==> Mask32(x) == x
    ensures Mask32(Mask32(x)) == Mask32(x)
  {
  }

  /**
   `struct.pack('>I', v)`: four big-endian bytes, or None where Python raises
   `struct.error` for a value outside 0 .. 2^32 - 1.
   */
  function PackU32(v: int): (r: Option<seq<byte>>)
    ensures r.Some? <==> 0 <= v < Two32
    ensures r.Some? ==> |r.value| == ChecksumWidth && FromBytes(r.value) == v
  {
    Pow256Four();
    if v < 0 then None else ToBytes(v, ChecksumWidth)
  }

  /**
   `calculate_crc32(data)`: the checksum, masked to 32 bits, packed as four
   big-endian bytes. Packing never fails because the mask keeps the value in range.
   */
  function Crc32Bytes(crc32: seq<byte> -> int, data: seq<byte>): (r: seq<byte>)
    ensures |r| == ChecksumWidth
    ensures FromBytes(r) == crc32(data) % Two32
  {
    PackU32(Mask32(crc32(data))).value
  }

  /** The packed checksum holds exactly the low 32 bits of the CRC value, as `& 0xFFFFFFFF` keeps them. */
  lemma Crc32BytesBitwise(crc32: seq<byte> -> int, data: seq<byte>)
    ensures FromBytes(Crc32Bytes(crc32, data)) == LowBits(crc32(data), 32)
  {
    Mask32IsBitwiseAnd(crc32(data));
  }

  /** Two payloads get the same packed checksum exactly when their checksums agree modulo 2^32. */
  lemma Crc32BytesAgree(crc32: seq<byte> -> int, a: seq<byte>, b: seq<byte>)
    ensures Crc32Bytes(crc32, a) == Crc32Bytes(crc32, b) <==> crc32(a) % Two32 == crc32(b) % Two32
  {
    var ra, rb := Crc32Bytes(crc32, a), Crc32Bytes(crc32, b);
    if crc32(a) % Two32 == crc32(b) % Two32 {
      Pow256Four();
      EncodeDecode(ra);
      EncodeDecode(rb);
    }
  }

  /** For an unsigned CRC-32, as `binascii.crc32` returns in Python 3, the bytes decode to the checksum itself. */
  lemma Crc32BytesUnsigned(crc32: seq<byte> -> int, data: seq<byte>)
    requires 0 <= crc32(data) < Two32
    ensures FromBytes(Crc32Bytes(crc32, data)) == crc32(data)
  {
    Mask32Fixes(crc32(data));
  }

  /** The CRC-32 of the ASCII string "123456789" is 0xCBF43926, the standard check value; it packs as CB F4 39 26. */
  lemma CheckValueExample(crc32: seq<byte> -> int, data: seq<byte>)
    requires crc32(data) == 0xCBF4_3926
    ensures Crc32Bytes(crc32, data) == [0xCB, 0xF4, 0x39, 0x26]
  {
    Pow256Four();
    var b0, b1, b2, b3: byte := 0xCB, 0xF4, 0x39, 0x26;
    assert ToBytes(0xCB, 1) == Some([b0]);
    assert 0xCBF4 / 256 == 0xCB && 0xCBF4 % 256 == 0xF4;
    assert ToBytes(0xCBF4, 2) == Some([b0] + [b1]);
    assert [b0] + [b1] == [b0, b1];
    assert 0xCBF439 / 256 == 0xCBF4 && 0xCBF439 % 256 == 0x39;
    assert ToBytes(0xCBF439, 3) == Some([b0, b1] + [b2]);
    assert [b0, b1] + [b2] == [b0, b1, b2];
    assert 0xCBF4_3926 / 256 == 0xCBF439 && 0xCBF4_3926 % 256 == 0x26;
    assert ToBytes(0xCBF4_3926, 4) == Some([b0, b1, b2] + [b3]);
    assert [b0, b1, b2] + [b3] == [0xCB, 0xF4, 0x39, 0x26];
  }
}
