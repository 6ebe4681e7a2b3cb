/** Octets and fixed-width big-endian integers, the layer the codec takes
    from the `byteorder` crate (`BigEndian::read_u16/u32/u64` and the matching
    writers). */
module ByteOrder {

  /** One octet of input or output, `u8` in the source. */
  type byte = b: int | 0 <= b < 256

  /** 2^32, one more than `u32::MAX`. */
  const TWO_32: nat := 0x1_0000_0000

  /** 2^64, one more than `u64::MAX`. */
  const TWO_64: nat := 0x1_0000_0000_0000_0000

  /** The byte widths of the fixed-width integer types: 1 for `u8`/`i8`, up
      to 8 for `u64`/`i64`. */
  type IntSize = w: nat | w == 1 || w == 2 || w == 4 || w == 8 witness 1

  /** 256^w: the number of values a w-byte field can hold. */
  function Pow256(w: nat): (p: nat)
    ensures p > 0
  {
    if w == 0 then 1 else 256 * Pow256(w - 1)
  }

  /** A negative argument wraps to itself plus the modulus. */
  lemma WrapNegative(a: int, p: int)
    requires p > 0 && -p <= a < 0
    ensures a % p == a + p
  {
  }

  /** An argument in range is its own remainder. */
  lemma WrapInRange(a: int, p: int)
    requires 0 <= a < p
    ensures a % p == a
  {
  }

  /** The capacities of the four widths a CBOR argument can take. */
  lemma Pow256Widths()
    ensures Pow256(1) == 0x100
    ensures Pow256(2) == 0x1_0000
    ensures Pow256(4) == TWO_32
    ensures Pow256(8) == TWO_64
  {
    assert Pow256(0) == 1;
    assert Pow256(1) == 0x100;
    assert Pow256(2) == 0x1_0000;
    assert Pow256(3) == 0x100_0000;
    assert Pow256(4) == TWO_32;
    assert Pow256(5) == 0x100_0000_0000;
    assert Pow256(6) == 0x1_0000_0000_0000;
    assert Pow256(7) == 0x100_0000_0000_0000;
  }

  /** The unsigned integer a big-endian byte string denotes. */
  function FromBE(b: seq<byte>): (n: nat)
    ensures n < Pow256(|b|)
  {
    if |b| == 0 then 0
    else
      var hi := FromBE(b[..|b| - 1]);
      assert hi * 256 + b[|b| - 1] < Pow256(|b|) by {
        assert hi <= Pow256(|b| - 1) - 1;
        assert hi * 256 <= Pow256(|b| - 1) * 256 - 256;
      }
      hi * 256 + b[|b| - 1]
  }

  /** The w-byte big-endian form of n; it reads back as n. */
  function ToBE(n: nat, w: nat): (b: seq<byte>)
    requires n < Pow256(w)
    ensures |b| == w
    ensures FromBE(b) == n
  {
    if w == 0 then []
    else
      var hi := ToBE(n / 256, w - 1);
      assert (hi + [n % 256])[..w - 1] == hi;
      hi + [n % 256]
  }

  /** Writing back what was read gives the same bytes: the big-endian
      form of a width is unique. */
  lemma {:induction false} ToBEFromBE(b: seq<byte>)
    ensures ToBE(FromBE(b), |b|) == b
  {
    if |b| > 0 {
      var init := b[..|b| - 1];
      ToBEFromBE(init);
      var n := FromBE(b);
      assert n / 256 == FromBE(init);
      assert n % 256 == b[|b| - 1];
      assert b == init + [b[|b| - 1]];
    }
  }
}
