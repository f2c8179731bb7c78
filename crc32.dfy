/** CRC-32 as `zlib.crc32(data, value)` computes it: the reflected IEEE 802.3 polynomial
    0xEDB88320, a register preset to the complement of `value` and a complemented result. */
module Crc {
  import opened Codec

  const POLY: bv32 := 0xEDB8_8320
  const BITS: nat := 8

  /** One bit of the reflected shift register. */
  function Shift(c: bv32): bv32
  {
    if c & 1 == 1 then (c >> 1) ^ POLY else c >> 1
  }

  /** The register after absorbing one byte: eight shifts. */
  function Step(c: bv32, b: byte): bv32
  {
    Shifts(c ^ ((b as int) as bv32), BITS)
  }

  /** k bits of the shift register. */
  function Shifts(c: bv32, k: nat): bv32
    decreases k
  {
    if k == 0 then c else Shifts(Shift(c), k - 1)
  }

  /** The register after absorbing the bytes of s in order, from register value c. */
  function Register(s: seq<byte>, c: bv32): bv32
  {
    if |s| == 0 then c else Register(s[1..], Step(c, s[0]))
  }

  /** The complement zlib applies on the way into and out of the register. */
  function Flip(c: bv32): bv32
  {
    c ^ 0xFFFF_FFFF
  }

  /** `zlib.crc32(s, prev)`. */
  function Crc32(s: seq<byte>, prev: bv32): bv32
  {
    Flip(Register(s, Flip(prev)))
  }

  lemma {:induction false} RegisterConcat(a: seq<byte>, b: seq<byte>, c: bv32)
    ensures Register(a + b, c) == Register(b, Register(a, c))
  {
    if |a| > 0 {
      assert (a + b)[1..] == a[1..] + b;
      RegisterConcat(a[1..], b, Step(c, a[0]));
    } else {
      assert a + b == b;
    }
  }

  /** Folding chunk after chunk through `zlib.crc32(chunk, last)` gives the CRC of the
      concatenation: the chunked accumulation in `append` and `read_into` is the CRC of
      the whole payload. */
  lemma {:induction false} Chunking(a: seq<byte>, b: seq<byte>, c: bv32)
    ensures Crc32(a + b, c) == Crc32(b, Crc32(a, c))
  {
    var r := Register(a, Flip(c));
    assert Flip(Flip(r)) == r;
    RegisterConcat(a, b, Flip(c));
  }

  /** `zlib.crc32(b"\x00") == 0xD202EF8D`: one full byte step of the register, pinning the
      polynomial, the preset and the final complement to zlib's values. */
  lemma ZeroByteCheck()
    ensures Crc32([0], 0) == 0xD202_EF8D
  {
    assert Flip(0) == 0xFFFF_FFFF;
    assert Shifts(0xFFFF_FFFF, 8) == 0x2DFD_1072;
    assert Register([0], 0xFFFF_FFFF) == Register([], 0x2DFD_1072);
  }
}
