/** Fixed-width little-endian unsigned integers (`_encode`/`_decode` in static.py), the
    size-mode widths of `CONV_MODE` and the capacities of `max_filesize`. */
module Codec {
  import opened Results

  newtype byte = x: int | 0 <= x < 256

  const BYTE: nat := 1
  const WORD: nat := 2
  const DWORD: nat := 4
  const QWORD: nat := 8

  /** 256 to the power t: the number of values t bytes can hold. */
  function Pow256(t: nat): (r: nat)
    ensures r > 0
  {
    if t == 0 then 1 else 256 * Pow256(t - 1)
  }

  /** `x.to_bytes(t, 'little', signed=False)` for a value that fits. */
  function EncodeLE(x: nat, t: nat): (r: seq<byte>)
    requires x < Pow256(t)
    ensures |r| == t
  {
    if t == 0 then [] else [(x % 256) as byte] + EncodeLE(x / 256, t - 1)
  }

  /** `int.from_bytes(s, 'little', signed=False)`. */
  function DecodeLE(s: seq<byte>): (r: nat)
    ensures r < Pow256(|s|)
  {
    if |s| == 0 then 0 else s[0] as nat + 256 * DecodeLE(s[1..])
  }

  /** `_encode` with its error path: `int.to_bytes` raises OverflowError for a negative value
      or one that needs more than t bytes, and never truncates. */
  function Encode(x: int, t: nat): (r: Result<seq<byte>>)
    ensures r.Success? <==> 0 <= x < Pow256(t)
    ensures r.Success? ==> |r.value| == t && DecodeLE(r.value) == x
    ensures r.Failure? ==> r.error == Overflow
  {
    if 0 <= x < Pow256(t) then
      DecodeEncode(x, t);
      Success(EncodeLE(x, t))
    else
      Failure(Overflow)
  }

  lemma {:induction false} DecodeEncode(x: nat, t: nat)
    requires x < Pow256(t)
    ensures DecodeLE(EncodeLE(x, t)) == x
  {
    if t > 0 {
      DecodeEncode(x / 256, t - 1);
      var s := EncodeLE(x, t);
      assert s[1..] == EncodeLE(x / 256, t - 1);
    }
  }

  lemma {:induction false} EncodeDecode(s: seq<byte>)
    ensures EncodeLE(DecodeLE(s), |s|) == s
  {
    if |s| > 0 {
      EncodeDecode(s[1..]);
      var x := DecodeLE(s);
      assert x % 256 == s[0] as nat && x / 256 == DecodeLE(s[1..]);
    }
  }

  /** Two encodings of the same width are equal only for equal values. */
  lemma EncodeInjective(x: nat, y: nat, t: nat)
    requires x < Pow256(t) && y < Pow256(t)
    requires EncodeLE(x, t) == EncodeLE(y, t)
    ensures x == y
  {
    DecodeEncode(x, t);
    DecodeEncode(y, t);
  }

  /** `CONV_MODE[m]`: the data-size width of size mode m; IndexError past index 2. */
  function ConvMode(m: nat): (r: Option<nat>)
    ensures r.Some? <==> m <= 2
  {
    if m < 3 then Some([WORD, DWORD, QWORD][m]) else None
  }

  /** `max_filesize`: the largest payload size of size mode m; IndexError past index 2. */
  function MaxFileSize(m: nat): Option<nat>
  {
    if m < 3 then Some([0xFFFF, 0xFFFF_FFFF, 0xFFFF_FFFF_FFFF_FFFF][m]) else None
  }

  lemma Pow256Values()
    ensures Pow256(1) == 0x100 && Pow256(2) == 0x1_0000
    ensures Pow256(4) == 0x1_0000_0000 && Pow256(8) == 0x1_0000_0000_0000_0000
  {
    assert Pow256(4) == 0x1_0000_0000 by {
      assert Pow256(2) == 0x1_0000;
    }
    assert Pow256(8) == 0x1_0000_0000_0000_0000 by {
      assert Pow256(6) == 0x1_0000_0000_0000;
    }
  }

  /** The capacity `max_filesize` reports is exactly what a data-size field of the mode's
      width can encode: a payload size encodes iff it is at most `max_filesize`. */
  lemma MaxFileSizeMatchesWidth(m: nat, ds: int)
    ensures MaxFileSize(m).Some? <==> ConvMode(m).Some?
    ensures ConvMode(m).Some? ==> MaxFileSize(m).value == Pow256(ConvMode(m).value) - 1
    ensures ConvMode(m).Some? ==> (Encode(ds, ConvMode(m).value).Success? <==> 0 <= ds <= MaxFileSize(m).value)
  {
    Pow256Values();
  }
}
