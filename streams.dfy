/** The seekable byte stream the archive works on (BytesIO semantics), and the chunked
    copier `_move_stream` of static.py. */
module Streams {
  import opened Results
  import opened Codec
  import opened Crc

  function Min(a: int, b: int): int { if a < b then a else b }

  function Max(a: int, b: int): int { if a < b then b else a }

  function Zeros(n: nat): seq<byte> { seq(n, _ => 0) }

  /** Bytes the stream can still deliver from cursor p. */
  function Available(d: seq<byte>, p: nat): nat { if p < |d| then |d| - p else 0 }

  /** What `read(n)` returns at cursor p: the next min(n, available) bytes, nothing at or
      past the end. */
  function Slice(d: seq<byte>, p: nat, n: nat): (r: seq<byte>)
    ensures |r| == Min(n, Available(d, p))
    ensures |r| > 0 ==> p + |r| <= |d| && r == d[p..p + |r|]
  {
    if p >= |d| then [] else d[p..Min(p + n, |d|)]
  }

  /** The buffer after `write(b)` at cursor p: b replaces the bytes from p on, the buffer
      grows (zero-filled between its old end and p) as far as b reaches, and an empty write
      changes nothing. */
  function Overwrite(d: seq<byte>, p: nat, b: seq<byte>): seq<byte>
  {
    if b == [] then d
    else
      (if p <= |d| then d[..p] else d + Zeros(p - |d|)) + b
        + (if p + |b| < |d| then d[p + |b|..] else [])
  }

  /** Byte by byte: inside the written range the new bytes, before and after it the old
      ones, and zeros in any gap the write opened past the old end. */
  lemma OverwriteShape(d: seq<byte>, p: nat, b: seq<byte>)
    requires b != []
    ensures |Overwrite(d, p, b)| == Max(|d|, p + |b|)
    ensures forall i :: p <= i < p + |b| ==> Overwrite(d, p, b)[i] == b[i - p]
    ensures forall i :: 0 <= i < |Overwrite(d, p, b)| && !(p <= i < p + |b|) ==>
      Overwrite(d, p, b)[i] == if i < |d| then d[i] else 0
  {
    var pre := if p <= |d| then d[..p] else d + Zeros(p - |d|);
    var post := if p + |b| < |d| then d[p + |b|..] else [];
    var r := pre + b + post;
    assert Overwrite(d, p, b) == r && |pre| == p;
    forall i | 0 <= i < |r| && !(p <= i < p + |b|)
      ensures r[i] == if i < |d| then d[i] else 0
    {
      if i < p {
        assert r[i] == pre[i];
      } else {
        assert r[i] == post[i - p - |b|];
      }
    }
  }

  /** Writing at the end appends. */
  lemma OverwriteAtEnd(d: seq<byte>, b: seq<byte>)
    ensures Overwrite(d, |d|, b) == d + b
  {
    if b != [] {
      OverwriteShape(d, |d|, b);
      var r := Overwrite(d, |d|, b);
      assert |r| == |d + b|;
      forall i | 0 <= i < |r| ensures r[i] == (d + b)[i] {
      }
    }
  }

  /** Two consecutive writes are one write of the concatenation. */
  lemma OverwriteConcat(d: seq<byte>, p: nat, a: seq<byte>, b: seq<byte>)
    ensures Overwrite(Overwrite(d, p, a), p + |a|, b) == Overwrite(d, p, a + b)
  {
    if a == [] {
      assert a + b == b;
    } else if b == [] {
      assert a + b == a;
    } else {
      var r1 := Overwrite(d, p, a);
      var r := Overwrite(r1, p + |a|, b);
      var s := Overwrite(d, p, a + b);
      OverwriteShape(d, p, a);
      OverwriteShape(r1, p + |a|, b);
      OverwriteShape(d, p, a + b);
      assert |r| == |s|;
      forall i | 0 <= i < |r| ensures r[i] == s[i] {
      }
    }
  }

  /** Writing the bytes already there changes nothing. */
  lemma OverwriteSame(d: seq<byte>, p: nat, b: seq<byte>)
    requires p + |b| <= |d| && d[p..p + |b|] == b
    ensures Overwrite(d, p, b) == d
  {
    if b != [] {
      var r := Overwrite(d, p, b);
      OverwriteShape(d, p, b);
      forall i | 0 <= i < |r| ensures r[i] == d[i] {
        if p <= i < p + |b| {
          assert d[i] == d[p..p + |b|][i - p];
        }
      }
    }
  }

  /** Repeating a write is idempotent. */
  lemma OverwriteTwice(d: seq<byte>, p: nat, b: seq<byte>)
    ensures Overwrite(Overwrite(d, p, b), p, b) == Overwrite(d, p, b)
  {
    if b != [] {
      var r := Overwrite(d, p, b);
      OverwriteShape(d, p, b);
      assert r[p..p + |b|] == b;
      OverwriteSame(r, p, b);
    }
  }

  /** Overwriting a middle part of equal length replaces exactly that part. */
  lemma OverwriteMiddle(x: seq<byte>, y: seq<byte>, z: seq<byte>, y': seq<byte>)
    requires |y'| == |y|
    ensures Overwrite(x + y + z, |x|, y') == x + y' + z
  {
    if y' != [] {
      var d := x + y + z;
      var r := Overwrite(d, |x|, y');
      var s := x + y' + z;
      OverwriteShape(d, |x|, y');
      assert |r| == |s|;
      forall i | 0 <= i < |r| ensures r[i] == s[i] {
      }
    } else {
      assert y == [];
    }
  }

  /** A seekable, readable, writable in-memory binary stream: the buffer and the cursor. */
  datatype Stream = Stream(data: seq<byte>, pos: nat)

  /** `read(n)`: the next bytes, and the cursor moved past them. */
  method Read(s: Stream, n: nat) returns (s': Stream, chunk: seq<byte>)
    ensures chunk == Slice(s.data, s.pos, n) && s' == Stream(s.data, s.pos + |chunk|)
  {
    chunk := Slice(s.data, s.pos, n);
    s' := Stream(s.data, s.pos + |chunk|);
  }

  /** `write(b)`: the buffer overwritten at the cursor, and the cursor moved past b. */
  method Write(s: Stream, b: seq<byte>) returns (s': Stream)
    ensures s' == Stream(Overwrite(s.data, s.pos, b), s.pos + |b|)
  {
    s' := Stream(Overwrite(s.data, s.pos, b), s.pos + |b|);
  }

  /** `BUFFER_SIZE`: the chunk size the archive copies with. */
  const BUFFER_SIZE: nat := 200_000

  /** What `_move_stream` moves: nothing for a zero chunk size (the first `read(0)` is
      empty), otherwise everything available, capped at `total` when one is given. */
  function MoveCount(avail: nat, chunkSize: nat, total: Option<nat>): nat
  {
    if chunkSize == 0 then 0
    else match total
      case None => avail
      case Some(t) => Min(t, avail)
  }

  /** The state of `_move_stream` after c bytes of src went over: they are the bytes moved,
      dest holds them written at its starting cursor, and the running checksum covers them. */
  ghost predicate Moving(src: Stream, dest: Stream, fold: bool, acc0: bv32,
                         c: nat, moved: seq<byte>, acc: bv32, dest': Stream)
  {
    c <= Available(src.data, src.pos) && moved == Run(src.data, src.pos, c)
    && dest' == Stream(Overwrite(dest.data, dest.pos, moved), dest.pos + c)
    && acc == (if fold then Crc32(moved, acc0) else acc0)
  }

  /** The c bytes from cursor p on (from the end when p is past it). */
  function Run(d: seq<byte>, p: nat, c: nat): seq<byte>
    requires c <= Available(d, p)
  {
    d[Min(p, |d|)..Min(p, |d|) + c]
  }

  lemma MovingStep(src: Stream, dest: Stream, fold: bool, acc0: bv32, c: nat, moved: seq<byte>,
                   acc: bv32, dest': Stream, ns: nat, chunk: seq<byte>)
    requires Moving(src, dest, fold, acc0, c, moved, acc, dest')
    requires chunk == Slice(src.data, src.pos + c, ns) && chunk != []
    ensures Moving(src, dest, fold, acc0, c + |chunk|, moved + chunk, if fold then Crc32(chunk, acc) else acc,
                   Stream(Overwrite(dest'.data, dest'.pos, chunk), dest'.pos + |chunk|))
  {
    ExtendRun(src.data, src.pos, c, ns, moved, chunk);
    WriteOn(dest.data, dest.pos, moved, dest', chunk);
    FoldOn(acc0, moved, acc, chunk, fold);
  }

  /** Writing the next chunk where the previous writes stopped extends the one write. */
  lemma WriteOn(d: seq<byte>, p: nat, moved: seq<byte>, dest': Stream, chunk: seq<byte>)
    requires dest' == Stream(Overwrite(d, p, moved), p + |moved|)
    ensures Stream(Overwrite(dest'.data, dest'.pos, chunk), dest'.pos + |chunk|)
         == Stream(Overwrite(d, p, moved + chunk), p + |moved + chunk|)
  {
    OverwriteConcat(d, p, moved, chunk);
  }

  /** Folding the next chunk into the running checksum extends the checksum of the run. */
  lemma FoldOn(acc0: bv32, moved: seq<byte>, acc: bv32, chunk: seq<byte>, fold: bool)
    requires acc == if fold then Crc32(moved, acc0) else acc0
    ensures (if fold then Crc32(chunk, acc) else acc) == if fold then Crc32(moved + chunk, acc0) else acc0
  {
    Chunking(moved, chunk, acc0);
  }

  /** The bytes moved so far followed by the next chunk are the longer run from the start. */
  lemma ExtendRun(d: seq<byte>, p: nat, c: nat, ns: nat, moved: seq<byte>, chunk: seq<byte>)
    requires c <= Available(d, p) && moved == Run(d, p, c)
    requires chunk == Slice(d, p + c, ns) && chunk != []
    ensures c + |chunk| <= Available(d, p)
    ensures moved + chunk == Run(d, p, c + |chunk|)
  {
    var k := |chunk|;
    assert p + c + k <= |d| && chunk == d[p + c..p + c + k];
    assert d[p..p + c] + d[p + c..p + c + k] == d[p..p + c + k];
  }

  lemma MovingDone(src: Stream, dest: Stream, fold: bool, acc0: bv32, c: nat, moved: seq<byte>,
                   acc: bv32, dest': Stream)
    requires Moving(src, dest, fold, acc0, c, moved, acc, dest')
    ensures dest' == Stream(Overwrite(dest.data, dest.pos, Slice(src.data, src.pos, c)), dest.pos + c)
    ensures acc == if fold then Crc32(Slice(src.data, src.pos, c), acc0) else acc0
    ensures moved == Slice(src.data, src.pos, c)
  {
  }

  /** The bytes of the callback's calls, in order. */
  function Flatten(chunks: seq<seq<byte>>): seq<byte>
  {
    if |chunks| == 0 then [] else Flatten(chunks[..|chunks| - 1]) + chunks[|chunks| - 1]
  }

  /** The callback received non-empty chunks of at most chunkSize bytes that concatenate to
      the bytes moved. */
  ghost predicate Calls(chunks: seq<seq<byte>>, moved: seq<byte>, chunkSize: nat)
  {
    Flatten(chunks) == moved && forall i :: 0 <= i < |chunks| ==> 0 < |chunks[i]| <= chunkSize
  }

  lemma CallsStep(chunks: seq<seq<byte>>, moved: seq<byte>, chunkSize: nat, chunk: seq<byte>)
    requires Calls(chunks, moved, chunkSize) && 0 < |chunk| <= chunkSize
    ensures Calls(chunks + [chunk], moved + chunk, chunkSize)
  {
    assert (chunks + [chunk])[..|chunks|] == chunks;
  }

  /** An empty read ends the copy having moved exactly `MoveCount`. */
  lemma MoveCountDone(d: seq<byte>, p: nat, chunkSize: nat, total: Option<nat>, c: nat, left: nat, ns: nat)
    requires c <= Available(d, p) && (c > 0 ==> chunkSize > 0)
    requires total.Some? ==> c <= total.value && left == total.value - c
    requires ns == if total.Some? && left <= chunkSize then left else chunkSize
    requires Slice(d, p + c, ns) == []
    ensures c == MoveCount(Available(d, p), chunkSize, total)
  {
  }

  /** One round of the copy loop: read up to ns bytes from where the copy stands; if any
      came, hand them to the callback and write them out. */
  method MoveChunk(ghost src: Stream, ghost dest: Stream, fold: bool, acc0: bv32, c: nat,
                   ghost moved: seq<byte>, from: Stream, to: Stream, acc: bv32, ns: nat)
    returns (chunk: seq<byte>, c': nat, ghost moved': seq<byte>, from': Stream, to': Stream, acc': bv32)
    requires Moving(src, dest, fold, acc0, c, moved, acc, to) && from == src.(pos := src.pos + c)
    ensures chunk == Slice(src.data, src.pos + c, ns) && |chunk| <= ns
    ensures c' == c + |chunk| && moved' == moved + chunk && from' == src.(pos := src.pos + c')
    ensures Moving(src, dest, fold, acc0, c', moved', acc', to')
  {
    from', chunk := Read(from, ns);
    c', moved', to', acc' := c, moved, to, acc;
    if |chunk| > 0 {
      MovingStep(src, dest, fold, acc0, c, moved, acc, to, ns, chunk);
      acc' := if fold then Crc32(chunk, acc) else acc;
      to' := Write(to, chunk);
      c', moved' := c + |chunk|, moved + chunk;
    } else {
      assert moved + chunk == moved;
    }
  }

  /** The copy loop of `_move_stream`: it ends in the state `Moving` describes, having moved
      exactly `MoveCount` bytes. */
  method MoveLoop(src: Stream, dest: Stream, chunkSize: nat, total: Option<nat>, fold: bool, acc0: bv32)
    returns (c: nat, acc: bv32, src': Stream, dest': Stream, ghost moved: seq<byte>, ghost chunks: seq<seq<byte>>)
    ensures c == MoveCount(Available(src.data, src.pos), chunkSize, total)
    ensures src' == src.(pos := src.pos + c)
    ensures Moving(src, dest, fold, acc0, c, moved, acc, dest')
    ensures Calls(chunks, moved, chunkSize)
  {
    moved := [];
    c, acc, src', dest', chunks := 0, acc0, src, dest, [];
    var capped := total.Some?;
    var left: nat := if capped then total.value else 0;
    while true
      invariant src' == src.(pos := src.pos + c)
      invariant Moving(src, dest, fold, acc0, c, moved, acc, dest')
      invariant Calls(chunks, moved, chunkSize)
      invariant c > 0 ==> chunkSize > 0
      invariant capped == total.Some?
      invariant capped ==> c <= total.value && left == total.value - c
      decreases Available(src.data, src.pos) - c
    {
      var ns := if capped && left <= chunkSize then left else chunkSize;
      ghost var c0, moved0 := c, moved;
      var chunk;
      chunk, c, moved, src', dest', acc := MoveChunk(src, dest, fold, acc0, c, moved, src', dest', acc, ns);
      if |chunk| == 0 {
        MoveCountDone(src.data, src.pos, chunkSize, total, c0, left, ns);
        break;
      }
      CallsStep(chunks, moved0, chunkSize, chunk);
      left := if capped then left - |chunk| else left;
      chunks := chunks + [chunk];
    }
  }

  /** `_move_stream(src, dest, chunk_size, total, fn)`, with `fn` the CRC accumulator of
      `append` and `read_into` when `fold` holds (no callback otherwise): returns the count,
      the accumulated checksum and both streams afterwards. */
  method MoveStream(src: Stream, dest: Stream, chunkSize: nat, total: Option<nat>, fold: bool, acc0: bv32)
    returns (c: nat, acc: bv32, src': Stream, dest': Stream, ghost chunks: seq<seq<byte>>)
    ensures c == MoveCount(Available(src.data, src.pos), chunkSize, total)
    ensures src' == src.(pos := src.pos + c)
    ensures dest' == Stream(Overwrite(dest.data, dest.pos, Slice(src.data, src.pos, c)), dest.pos + c)
    ensures acc == if fold then Crc32(Slice(src.data, src.pos, c), acc0) else acc0
    ensures Calls(chunks, Slice(src.data, src.pos, c), chunkSize)
  {
    ghost var moved;
    c, acc, src', dest', moved, chunks := MoveLoop(src, dest, chunkSize, total, fold, acc0);
    MovingDone(src, dest, fold, acc0, c, moved, acc, dest');
  }
}
