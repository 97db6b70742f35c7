/** Bytes, big-endian lengths and the outcome types shared by every other module. */
module Wire {
  datatype Option<+T> = None | Some(value: T)

  datatype Result<+T, +E> = Success(value: T) | Failure(error: E)

  type byte = b: int | 0 <= b < 256

  type bytes = seq<byte>

  /** One flag byte and a 32-bit length. */
  const HEADER_SIZE: nat := 5

  const U32_LIMIT: nat := 0x1_0000_0000

  const USIZE_LIMIT: nat := 0x1_0000_0000_0000_0000

  /** The `width` low bytes of a number, most significant first. */
  function BigEndian(n: nat, width: nat): (b: bytes)
    ensures |b| == width
    decreases width
  {
    if width == 0 then [] else BigEndian(n / 256, width - 1) + [n % 256]
  }

  function FromBigEndian(b: bytes): nat {
    if b == [] then 0 else 256 * FromBigEndian(b[..|b| - 1]) + b[|b| - 1] as int
  }

  function Pow256(k: nat): nat {
    if k == 0 then 1 else 256 * Pow256(k - 1)
  }

  lemma {:induction false} BigEndianRoundTrip(n: nat, width: nat)
    requires n < Pow256(width)
    ensures FromBigEndian(BigEndian(n, width)) == n
  {
    if width > 0 {
      BigEndianRoundTrip(n / 256, width - 1);
      assert BigEndian(n, width)[..width - 1] == BigEndian(n / 256, width - 1);
    }
  }

  const LENGTH_WIDTH: nat := 4

  /** A 32-bit length; a longer value is truncated, as `as u32` does. */
  function PutU32(n: nat): (b: bytes)
    ensures |b| == LENGTH_WIDTH
  {
    BigEndian(n % U32_LIMIT, LENGTH_WIDTH)
  }

  function GetU32(b: bytes): nat
    requires |b| == LENGTH_WIDTH
  {
    FromBigEndian(b)
  }

  lemma U32RoundTrip(n: nat)
    ensures GetU32(PutU32(n)) == n % U32_LIMIT
  {
    assert Pow256(LENGTH_WIDTH) == U32_LIMIT by {
      assert Pow256(1) == 256 && Pow256(2) == 0x1_0000 && Pow256(3) == 0x100_0000;
    }
    BigEndianRoundTrip(n % U32_LIMIT, LENGTH_WIDTH);
  }

  lemma U32Exact(n: nat)
    requires n < U32_LIMIT
    ensures GetU32(PutU32(n)) == n
  {
    U32RoundTrip(n);
  }

  lemma LastByte(n: nat, d: byte, width: nat)
    ensures BigEndian(n * 256 + d, width + 1) == BigEndian(n, width) + [d]
  {
    assert (n * 256 + d) / 256 == n && (n * 256 + d) % 256 == d;
  }

  lemma FourBytes(high: nat, middle: nat, low: nat, n: nat, a: byte, b: byte, c: byte, d: byte)
    requires high == a as nat && middle == high * 256 + b && low == middle * 256 + c && n == low * 256 + d
    ensures BigEndian(n, 4) == [a, b, c, d]
  {
    LastByte(0, a, 0);
    LastByte(high, b, 1);
    LastByte(middle, c, 2);
    LastByte(low, d, 3);
  }

  lemma BelowLimit(a: byte, b: byte, c: byte, d: byte)
    ensures 0x100_0000 * a + 0x1_0000 * b + 0x100 * c + d < U32_LIMIT
  {
  }

  /** The most significant byte comes first. */
  lemma U32IsBigEndian(a: byte, b: byte, c: byte, d: byte)
    ensures var n := 0x100_0000 * a + 0x1_0000 * b + 0x100 * c + d;
            PutU32(n) == [a, b, c, d] && GetU32([a, b, c, d]) == n
  {
    var n := 0x100_0000 * a + 0x1_0000 * b + 0x100 * c + d;
    FourBytes(a, 0x100 * a + b, 0x1_0000 * a + 0x100 * b + c, n, a, b, c, d);
    BelowLimit(a, b, c, d);
    assert n % U32_LIMIT == n;
    U32Exact(n);
  }
}
