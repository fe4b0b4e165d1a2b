/**
 Fixed-width unsigned big-endian integers, as produced by Python's
 `int.to_bytes(width, byteorder='big')` and `struct.pack('>I', x)` and read
 back by `int.from_bytes(b, 'big')`.
 */
module BigEndian {
  import opened Wrappers

  /** One octet on the serial line, as the integer 0..255 that Python's `bytes` holds. */
  newtype byte = b: int | 0 <= b < 256

  /** Number of distinct values a `width`-byte unsigned field can hold. */
  function Pow256(width: nat): (r: nat)
    ensures r >= 1
  {
    if width == 0 then 1 else 256 * Pow256(width - 1)
  }

  /** Two to the 32nd: the first size that no longer fits the 4-byte header. */
  const Two32: nat := 0x1_0000_0000

  lemma Pow256Four()
    ensures Pow256(4) == Two32
  {
  }

  /** The unsigned value of a big-endian byte string; the first byte is the most significant. */
  function FromBytes(b: seq<byte>): (r: nat)
    ensures r < Pow256(|b|)
  {
    if |b| == 0 then 0
    else
      var hi := FromBytes(b[..|b| - 1]);
      assert hi <= Pow256(|b| - 1) - 1;
      hi * 256 + b[|b| - 1] as nat
  }

  /**
   Encodes `n` in exactly `width` bytes, most significant first. Like Python's
   `to_bytes`, it refuses (None) a value that does not fit.
   */
  function ToBytes(n: nat, width: nat): (r: Option<seq<byte>>)
    ensures r.Some? <==> n < Pow256(width)
    ensures r.Some? ==> |r.value| == width && FromBytes(r.value) == n
  {
    if width == 0 then
      if n == 0 then Some([]) else None
    else
      DivFits(n, Pow256(width - 1));
      match ToBytes(n / 256, width - 1)
      case None => None
      case Some(hi) =>
        var b := hi + [(n % 256) as byte];
        AppendLowByte(hi, n);
        Some(b)
  }

  /** Appending the low byte of `n` to the encoding of `n / 256` encodes `n`. */
  lemma AppendLowByte(hi: seq<byte>, n: nat)
    requires FromBytes(hi) == n / 256
    ensures FromBytes(hi + [(n % 256) as byte]) == n
  {
    var low := (n % 256) as byte;
    var b := hi + [low];
    assert b[..|b| - 1] == hi;
    assert FromBytes(b) == FromBytes(hi) * 256 + n % 256;
  }

  /** Splitting `q * 256 + r` back into quotient and remainder. */
  lemma DivModByte(q: nat, r: nat)
    requires r < 256
    ensures (q * 256 + r) / 256 == q && (q * 256 + r) % 256 == r
  {
  }

  /** `n` fits in one more byte than `n / 256` does. */
  lemma DivFits(n: nat, p: nat)
    ensures n < 256 * p <==> n / 256 < p
  {
  }

  /** Decoding then re-encoding at the same width gives the original bytes back. */
  lemma {:induction false} EncodeDecode(b: seq<byte>)
    ensures ToBytes(FromBytes(b), |b|) == Some(b)
  {
    if |b| > 0 {
      var front := b[..|b| - 1];
      EncodeDecode(front);
      var last := b[|b| - 1];
      DivModByte(FromBytes(front), last as nat);
      assert (FromBytes(b) % 256) as byte == last;
      assert front + [last] == b;
    }
  }

  /** Encoding is injective: two values with the same encoding are equal. */
  lemma EncodingInjective(m: nat, n: nat, width: nat)
    requires ToBytes(m, width).Some? && ToBytes(n, width).Some?
    requires ToBytes(m, width) == ToBytes(n, width)
    ensures m == n
  {
  }
}
