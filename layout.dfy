/** The byte layout of a static archive: the 22-byte signature, the entry headers and the
    stacked entries after the signature, as pure encoders and decoders over a byte buffer. */
module Layout {
  import opened Results
  import opened Codec
  import opened Crc
  import opened Streams

  /** The magic the signature starts with. */
  const MAGIC: seq<byte> := [0x91, 0xDE, 0xEE, 0x9C, 0x80, 0x5C, 0x23, 0xE6]

  /** `READ_OFFSET`: where the first entry header starts, relative to the signature. */
  const READ_OFFSET: nat := |MAGIC| + DWORD + QWORD + BYTE + BYTE

  /** What a sequence of writes whose byte strings are computed one at a time leaves behind:
      the bytes written before the first field that could not be encoded, and that field's
      error (none when every field encodes). */
  datatype Emitted = Emitted(bytes: seq<byte>, error: Option<Error>)

  function Emit(parts: seq<Result<seq<byte>>>): (r: Emitted)
    ensures r.error.None? <==> forall i :: 0 <= i < |parts| ==> parts[i].Success?
    ensures r.error.Some? ==> exists i :: 0 <= i < |parts| && parts[i] == Failure(r.error.value)
  {
    if |parts| == 0 then Emitted([], None)
    else match parts[0]
      case Failure(e) => Emitted([], Some(e))
      case Success(b) =>
        var rest := Emit(parts[1..]);
        assert forall i :: 1 <= i < |parts| ==> parts[i] == parts[1..][i - 1];
        Emitted(b + rest.bytes, rest.error)
  }

  /** Four writes that all encode emit their concatenation. */
  lemma EmitFour(a: Result<seq<byte>>, b: Result<seq<byte>>, c: Result<seq<byte>>, d: Result<seq<byte>>)
    requires a.Success? && b.Success? && c.Success? && d.Success?
    ensures Emit([a, b, c, d]) == Emitted(a.value + b.value + c.value + d.value, None)
  {
    assert [a, b, c, d][1..] == [b, c, d] && [b, c, d][1..] == [c, d] && [c, d][1..] == [d];
    assert [d][1..] == [];
    assert Emit([d]) == Emitted(d.value + [], None);
    assert Emit([c, d]) == Emitted(c.value + d.value, None);
    assert Emit([b, c, d]) == Emitted(b.value + (c.value + d.value), None);
  }

  /** Five writes that all encode emit their concatenation. */
  lemma EmitFive(a: Result<seq<byte>>, b: Result<seq<byte>>, c: Result<seq<byte>>, d: Result<seq<byte>>,
                 e: Result<seq<byte>>)
    requires a.Success? && b.Success? && c.Success? && d.Success? && e.Success?
    ensures Emit([a, b, c, d, e]) == Emitted(a.value + b.value + c.value + d.value + e.value, None)
  {
    assert [a, b, c, d, e][1..] == [b, c, d, e];
    EmitFour(b, c, d, e);
  }

  // ---------------------------------------------------------------------------------------
  // Names

  /** Every character of s is ASCII. */
  predicate IsAscii(s: string)
  {
    |s| == 0 || (s[0] as int < 128 && IsAscii(s[1..]))
  }

  /** Every byte of b is ASCII. */
  predicate AsciiBytes(b: seq<byte>)
  {
    |b| == 0 || (b[0] < 128 && AsciiBytes(b[1..]))
  }

  /** The ASCII encoding, one byte per character. */
  function Bytes(s: string): (r: seq<byte>)
    requires IsAscii(s)
    ensures |r| == |s|
  {
    if |s| == 0 then [] else [s[0] as int as byte] + Bytes(s[1..])
  }

  /** The ASCII decoding, one character per byte. */
  function Chars(b: seq<byte>): (r: string)
    requires AsciiBytes(b)
    ensures |r| == |b| && IsAscii(r)
  {
    if |b| == 0 then [] else [b[0] as int as char] + Chars(b[1..])
  }

  /** `name.encode('ascii')`: UnicodeEncodeError for a character past 127. */
  function EncodeName(name: string): (r: Result<seq<byte>>)
    ensures r.Success? <==> IsAscii(name)
    ensures r.Failure? ==> r.error == NameEncoding
  {
    if IsAscii(name) then Success(Bytes(name)) else Failure(NameEncoding)
  }

  /** `bytes.decode('ascii')`: UnicodeDecodeError for a byte past 127. */
  function DecodeName(b: seq<byte>): (r: Result<string>)
    ensures r.Success? <==> AsciiBytes(b)
    ensures r.Failure? ==> r.error == NameDecoding
  {
    if AsciiBytes(b) then Success(Chars(b)) else Failure(NameDecoding)
  }

  /** Decoding an encoded ASCII name gives the name back, and every encoded byte is one
      that decodes. */
  lemma {:induction false} NameRoundTrip(name: string)
    requires IsAscii(name)
    ensures AsciiBytes(Bytes(name)) && Chars(Bytes(name)) == name
    ensures DecodeName(EncodeName(name).value) == Success(name)
  {
    if |name| > 0 {
      NameRoundTrip(name[1..]);
      var b := Bytes(name);
      assert b[1..] == Bytes(name[1..]);
    }
  }

  /** Encoding a decoded name gives the bytes back. */
  lemma {:induction false} BytesRoundTrip(b: seq<byte>)
    requires AsciiBytes(b)
    ensures IsAscii(Chars(b)) && Bytes(Chars(b)) == b
    ensures EncodeName(DecodeName(b).value) == Success(b)
  {
    if |b| > 0 {
      BytesRoundTrip(b[1..]);
      var s := Chars(b);
      assert s[1..] == Chars(b[1..]);
      assert s[0] as int == b[0] as int;
    }
  }

  // ---------------------------------------------------------------------------------------
  // Reading the unread bytes of a stream

  /** The bytes from cursor p to the end of d: none when p is at or past the end. */
  function Rest(d: seq<byte>, p: nat): seq<byte>
  {
    if p <= |d| then d[p..] else []
  }

  /** What `read(n)` returns when s is what is left to read. */
  function Take(s: seq<byte>, n: nat): (r: seq<byte>)
    ensures |r| == Min(n, |s|)
  {
    if n <= |s| then s[..n] else s
  }

  /** What is left to read after `read(n)`. */
  function Drop(s: seq<byte>, n: nat): (r: seq<byte>)
    ensures |r| == |s| - Min(n, |s|)
  {
    if n <= |s| then s[n..] else []
  }

  /** Reading exactly the first block of a concatenation returns it and leaves the second. */
  lemma TakeDrop(a: seq<byte>, b: seq<byte>)
    ensures Take(a + b, |a|) == a && Drop(a + b, |a|) == b
  {
    assert (a + b)[..|a|] == a;
    assert (a + b)[|a|..] == b;
  }

  lemma Assoc(a: seq<byte>, b: seq<byte>, c: seq<byte>)
    ensures (a + b) + c == a + (b + c)
  {
  }

  lemma Cons(x: byte, a: seq<byte>)
    ensures ([x] + a)[0] == x && ([x] + a)[1..] == a
  {
  }

  /** A stream read is a read of what is left. */
  lemma SliceRest(d: seq<byte>, p: nat, n: nat)
    ensures Slice(d, p, n) == Take(Rest(d, p), n)
  {
  }

  /** Once the first block of what is left has been read, the second is left. */
  lemma RestAdvance(d: seq<byte>, p: nat, a: seq<byte>, b: seq<byte>)
    requires Rest(d, p) == a + b
    ensures Rest(d, p + |a|) == b
  {
    if a != [] {
      assert d[p..][|a|..] == d[p + |a|..];
    }
  }

  /** Appending to the buffer appends to what is left at any cursor up to the old end. */
  lemma RestAppend(d: seq<byte>, p: nat, x: seq<byte>)
    requires p <= |d|
    ensures Rest(d + x, p) == Rest(d, p) + x
  {
    assert (d + x)[p..] == d[p..] + x;
  }

  /** Seeking n bytes further leaves what is left after reading n bytes. */
  lemma RestDrop(d: seq<byte>, p: nat, n: nat)
    ensures Rest(d, p + n) == Drop(Rest(d, p), n)
  {
    if p + n <= |d| {
      assert d[p..][n..] == d[p + n..];
    }
  }

  /** A stream read takes from what is left and leaves the rest, however short it came
      back. */
  lemma ReadRest(d: seq<byte>, p: nat, n: nat)
    ensures Slice(d, p, n) == Take(Rest(d, p), n)
    ensures Rest(d, p + |Slice(d, p, n)|) == Drop(Rest(d, p), n)
    ensures Drop(Rest(d, p), |Slice(d, p, n)|) == Drop(Rest(d, p), n)
  {
    RestDrop(d, p, |Slice(d, p, n)|);
  }

  /** A read capped at what is available returns what the uncapped read does. */
  lemma SliceCap(d: seq<byte>, p: nat, n: nat)
    ensures Slice(d, p, Min(n, Available(d, p))) == Slice(d, p, n)
  {
  }

  // ---------------------------------------------------------------------------------------
  // Signature

  /** The fields the signature carries. In memory they are whatever the program holds (the
      general-purpose field is a public attribute), so they are unbounded integers here. */
  datatype Signature = Signature(generalPurpose: int, fileCount: int, sizeMode: int, crc: bool)

  /** The writes of `_write_sig`, in order: the magic, the general-purpose field, the file
      count, the size mode and the CRC flag (True encodes as 1, False as 0). */
  function SignatureParts(s: Signature): seq<Result<seq<byte>>>
  {
    [Success(MAGIC), Encode(s.generalPurpose, DWORD), Encode(s.fileCount, QWORD),
     Encode(s.sizeMode, BYTE), Encode(if s.crc then 1 else 0, BYTE)]
  }

  /** Every field of s fits its width. */
  predicate Encodable(s: Signature)
  {
    0 <= s.generalPurpose < Pow256(DWORD) && 0 <= s.fileCount < Pow256(QWORD) && 0 <= s.sizeMode < 256
  }

  /** The 22 signature bytes of an encodable signature. */
  function SignatureBytes(s: Signature): (r: seq<byte>)
    requires Encodable(s)
    ensures |r| == READ_OFFSET
  {
    MAGIC + (EncodeLE(s.generalPurpose, DWORD) + (EncodeLE(s.fileCount, QWORD)
      + [s.sizeMode as byte, if s.crc then 1 else 0]))
  }

  /** A one-byte encoding is the byte itself. */
  lemma EncodeByte(x: int)
    requires 0 <= x < 256
    ensures Encode(x, BYTE) == Success([x as byte])
  {
    assert Pow256(BYTE) == 256 && x % 256 == x && x / 256 == 0;
    assert EncodeLE(x / 256, 0) == [];
    assert EncodeLE(x, BYTE) == [x as byte] + [];
    assert [x as byte] + [] == [x as byte];
    assert Encode(x, BYTE) == Success(EncodeLE(x, BYTE));
  }

  /** `_write_sig` writes the whole signature exactly when every field fits. */
  lemma SignatureEmits(s: Signature)
    requires Encodable(s)
    ensures Emit(SignatureParts(s)) == Emitted(SignatureBytes(s), None)
  {
    EncodeByte(s.sizeMode);
    EncodeByte(if s.crc then 1 else 0);
    var parts := SignatureParts(s);
    EmitFive(parts[0], parts[1], parts[2], parts[3], parts[4]);
  }

  /** A field that does not fit stops `_write_sig` with OverflowError. */
  lemma SignatureOverflows(s: Signature)
    requires !Encodable(s)
    ensures Emit(SignatureParts(s)).error == Some(Overflow)
  {
    var parts := SignatureParts(s);
    assert Pow256(BYTE) == 256;
    if !(0 <= s.generalPurpose < Pow256(DWORD)) {
      assert parts[1].Failure?;
    } else if !(0 <= s.fileCount < Pow256(QWORD)) {
      assert parts[2].Failure?;
    } else {
      assert parts[3].Failure?;
    }
    assert forall i :: 0 <= i < |parts| && parts[i].Failure? ==> parts[i].error == Overflow;
  }

  /** `_check_sig`, with s the bytes from the start offset on: they begin with the magic. */
  predicate HasMagic(s: seq<byte>)
  {
    Take(s, |MAGIC|) == MAGIC
  }

  /** `_load_sig`, with s the bytes from the start offset on: with checks on a missing magic
      is an AssertionError; the two integer fields decode whatever a short read returned;
      the mode and CRC bytes are indexed, which fails on an empty read. */
  function ParseSignature(s: seq<byte>, checks: bool): (r: Result<Signature>)
    ensures r.Success? ==> Encodable(r.value)
    ensures r.Failure? ==> (r.error == FormatError || r.error == ShortRead)
    ensures r.Failure? <==> (checks && !HasMagic(s)) || |s| < READ_OFFSET
  {
    if checks && !HasMagic(s) then Failure(FormatError)
    else
      var t := Drop(s, |MAGIC|);
      var gp, t' := Take(t, DWORD), Drop(t, DWORD);
      var count, t'' := Take(t', QWORD), Drop(t', QWORD);
      if |t''| < 2 then Failure(ShortRead)
      else
        assert |gp| == DWORD && |count| == QWORD;
        Success(Signature(DecodeLE(gp), DecodeLE(count), t''[0] as int, t''[1] != 0))
  }

  /** Loading a signature that `_write_sig` wrote gives back its fields, with or without the
      magic check, whatever follows it; the CRC flag comes back as the boolean written. */
  lemma SignatureRoundTrip(s: Signature, rest: seq<byte>, checks: bool)
    requires Encodable(s)
    ensures HasMagic(SignatureBytes(s) + rest)
    ensures ParseSignature(SignatureBytes(s) + rest, checks) == Success(s)
  {
    var g, c := EncodeLE(s.generalPurpose, DWORD), EncodeLE(s.fileCount, QWORD);
    var mf: seq<byte> := [s.sizeMode as byte, if s.crc then 1 else 0];
    var b := SignatureBytes(s) + rest;
    assert b == MAGIC + (g + (c + (mf + rest)));
    TakeDrop(MAGIC, g + (c + (mf + rest)));
    TakeDrop(g, c + (mf + rest));
    TakeDrop(c, mf + rest);
    DecodeEncode(s.generalPurpose, DWORD);
    DecodeEncode(s.fileCount, QWORD);
  }

  /** Write, load, write: the second `_write_sig` puts back exactly the bytes already there
      (the stream keeps its length and contents), wherever the signature sits. */
  lemma SignatureRewrite(d: seq<byte>, start: nat, s: Signature, checks: bool)
    requires Encodable(s)
    requires start <= |d| && Rest(d, start)[..Min(READ_OFFSET, |Rest(d, start)|)] == SignatureBytes(s)
    ensures ParseSignature(Rest(d, start), checks) == Success(s)
    ensures Overwrite(d, start, SignatureBytes(s)) == d
  {
    var b := SignatureBytes(s);
    var r := Rest(d, start);
    assert r == b + r[READ_OFFSET..];
    SignatureRoundTrip(s, r[READ_OFFSET..], checks);
    assert d[start..start + |b|] == b;
    OverwriteSame(d, start, b);
  }

  /** Flushing twice writes the same bytes twice: the second flush changes nothing. */
  lemma FlushIdempotent(d: seq<byte>, start: nat, s: Signature)
    requires Encodable(s)
    ensures Overwrite(Overwrite(d, start, SignatureBytes(s)), start, SignatureBytes(s))
         == Overwrite(d, start, SignatureBytes(s))
  {
    OverwriteTwice(d, start, SignatureBytes(s));
  }

  // ---------------------------------------------------------------------------------------
  // Entry headers

  /** `CONV_MODE[size_mode]` as the width of the data-size field, failing with IndexError. */
  function SizeWidth(sm: nat): (r: Result<nat>)
    ensures r.Success? <==> sm <= 2
    ensures r.Success? ==> Some(r.value) == ConvMode(sm)
    ensures r.Failure? ==> r.error == BadSizeMode
  {
    match ConvMode(sm)
    case None => Failure(BadSizeMode)
    case Some(w) => Success(w)
  }

  /** The writes of `_write_hdr(name, crc, ds)`, in order: the name length (of the text),
      the ASCII name, the CRC when the archive carries CRCs, and the data size in the
      size mode's width. */
  function HeaderParts(name: string, crc: int, ds: int, crcOn: bool, sm: nat): seq<Result<seq<byte>>>
  {
    [Encode(|name|, BYTE), EncodeName(name), if crcOn then Encode(crc, DWORD) else Success([]),
     match SizeWidth(sm) { case Failure(e) => Failure(e) case Success(w) => Encode(ds, w) }]
  }

  /** Every field of the header fits. */
  predicate HeaderValid(name: string, crc: int, ds: int, crcOn: bool, sm: nat)
  {
    |name| < 256 && IsAscii(name) && (crcOn ==> 0 <= crc < Pow256(DWORD))
    && sm <= 2 && 0 <= ds < Pow256(SizeWidth(sm).value)
  }

  /** The header length: one length byte, the name, the CRC if any, and the size field. */
  function HeaderLength(name: string, crcOn: bool, w: nat): nat
  {
    (BYTE + |name|) + ((if crcOn then DWORD else 0) + w)
  }

  function HeaderBytes(name: string, crc: int, ds: int, crcOn: bool, sm: nat): (r: seq<byte>)
    requires HeaderValid(name, crc, ds, crcOn, sm)
    ensures |r| == HeaderLength(name, crcOn, SizeWidth(sm).value)
  {
    NameBytes(name) + FieldBytes(crc, ds, crcOn, SizeWidth(sm).value)
  }

  /** The length byte and the ASCII name. */
  function NameBytes(name: string): (r: seq<byte>)
    requires |name| < 256 && IsAscii(name)
    ensures |r| == BYTE + |name|
  {
    [|name| as byte] + Bytes(name)
  }

  /** The CRC field (when the archive carries CRCs) and the size field of width w. */
  function FieldBytes(crc: int, ds: int, crcOn: bool, w: nat): (r: seq<byte>)
    requires (crcOn ==> 0 <= crc < Pow256(DWORD)) && 0 <= ds < Pow256(w)
    ensures |r| == (if crcOn then DWORD else 0) + w
  {
    (if crcOn then EncodeLE(crc, DWORD) else []) + EncodeLE(ds, w)
  }

  /** `_write_hdr` writes the whole header exactly when every field fits. */
  lemma HeaderEmits(name: string, crc: int, ds: int, crcOn: bool, sm: nat)
    requires HeaderValid(name, crc, ds, crcOn, sm)
    ensures Emit(HeaderParts(name, crc, ds, crcOn, sm)) == Emitted(HeaderBytes(name, crc, ds, crcOn, sm), None)
  {
    var parts := HeaderParts(name, crc, ds, crcOn, sm);
    EncodeByte(|name|);
    EmitFour(parts[0], parts[1], parts[2], parts[3]);
  }

  /** A name of 256 characters or more fails with OverflowError before anything is written;
      a non-ASCII name fails with UnicodeEncodeError once its length byte went out; a field
      that does not fit fails with the error of its encoding. */
  lemma HeaderFails(name: string, crc: int, ds: int, crcOn: bool, sm: nat)
    requires !HeaderValid(name, crc, ds, crcOn, sm)
    ensures Emit(HeaderParts(name, crc, ds, crcOn, sm)).error.Some?
    ensures |name| >= 256 ==> Emit(HeaderParts(name, crc, ds, crcOn, sm)) == Emitted([], Some(Overflow))
    ensures |name| < 256 && !IsAscii(name) ==>
      Emit(HeaderParts(name, crc, ds, crcOn, sm)) == Emitted([|name| as byte], Some(NameEncoding))
  {
    var parts := HeaderParts(name, crc, ds, crcOn, sm);
    assert Pow256(BYTE) == 256;
    if |name| < 256 {
      EncodeByte(|name|);
      assert parts[1..] == [parts[1], parts[2], parts[3]];
      if IsAscii(name) {
        if crcOn && !(0 <= crc < Pow256(DWORD)) {
          assert parts[2].Failure?;
        } else {
          assert parts[3].Failure?;
        }
      }
    }
  }

  /** A decoded header: the name, the CRC when the archive carries CRCs, the data size. */
  datatype Header = Header(name: string, crc: Option<nat>, size: nat)

  /** A decoded header and the number of bytes it took up. */
  datatype Parsed = Parsed(header: Header, used: nat)

  /** `_read_hdr`, with s the bytes left to read: the length byte is indexed (IndexError on
      an empty read) and the name is ASCII-decoded (UnicodeDecodeError); the CRC and the size
      decode whatever a short read returned, and the size mode indexes `CONV_MODE` only after
      the name was read. */
  function ParseHeader(s: seq<byte>, crcOn: bool, sm: nat): (r: Result<Parsed>)
    ensures r.Success? ==> 0 < r.value.used <= |s|
    ensures r.Success? ==> |r.value.header.name| < 256 && IsAscii(r.value.header.name)
    ensures r.Success? ==> (r.value.header.crc.Some? <==> crcOn)
    ensures r.Failure? ==> (r.error == ShortRead || r.error == NameDecoding || r.error == BadSizeMode)
  {
    match ParseName(s)
    case Failure(e) => Failure(e)
    case Success(named) =>
      match ParseFields(Drop(s, named.1), named.0, crcOn, sm)
      case Failure(e) => Failure(e)
      case Success(f) => Success(Parsed(f.header, named.1 + f.used))
  }

  /** The length byte and the name, and how many bytes they took up. */
  function ParseName(s: seq<byte>): (r: Result<(string, nat)>)
    ensures r.Success? ==> 0 < r.value.1 <= |s| && |r.value.0| < 256 && IsAscii(r.value.0)
    ensures r.Failure? ==> (r.error == ShortRead || r.error == NameDecoding)
  {
    if |s| == 0 then Failure(ShortRead)
    else
      var raw := Take(s[1..], s[0] as nat);
      match DecodeName(raw)
      case Failure(e) => Failure(e)
      case Success(name) => Success((name, 1 + |raw|))
  }

  /** The CRC and size fields that follow a header's name. */
  function ParseFields(s: seq<byte>, name: string, crcOn: bool, sm: nat): (r: Result<Parsed>)
    ensures r.Success? ==> r.value.used <= |s| && r.value.header.name == name
    ensures r.Success? ==> (r.value.header.crc.Some? <==> crcOn)
    ensures r.Failure? ==> r.error == BadSizeMode
  {
    var crcField := if crcOn then Take(s, DWORD) else [];
    var t := Drop(s, |crcField|);
    match SizeWidth(sm)
    case Failure(e) => Failure(e)
    case Success(w) =>
      var size := Take(t, w);
      Success(Parsed(Header(name, if crcOn then Some(DecodeLE(crcField)) else None, DecodeLE(size)),
                     |crcField| + |size|))
  }

  /** Reading back a header `_write_hdr` wrote gives the name, the CRC (when the archive
      carries CRCs) and the size written, in every size mode and whatever follows it, and
      takes up exactly the header's length. */
  lemma HeaderRoundTrip(name: string, crc: int, ds: int, crcOn: bool, sm: nat, rest: seq<byte>, s: seq<byte>)
    requires HeaderValid(name, crc, ds, crcOn, sm) && s == HeaderBytes(name, crc, ds, crcOn, sm) + rest
    ensures ParseHeader(s, crcOn, sm)
         == Success(Parsed(Header(name, if crcOn then Some(crc as nat) else None, ds),
                           HeaderLength(name, crcOn, SizeWidth(sm).value)))
  {
    var h := Header(name, if crcOn then Some(crc as nat) else None, ds);
    var used := (if crcOn then DWORD else 0) + SizeWidth(sm).value;
    HeaderPieces(name, crc, ds, crcOn, sm, rest, s);
    HeaderGlue(s, crcOn, sm, name, BYTE + |name|, h, used);
  }

  /** The name and the fields of a header, each read back on its own. */
  lemma HeaderPieces(name: string, crc: int, ds: int, crcOn: bool, sm: nat, rest: seq<byte>, s: seq<byte>)
    requires HeaderValid(name, crc, ds, crcOn, sm) && s == HeaderBytes(name, crc, ds, crcOn, sm) + rest
    ensures ParseName(s) == Success((name, BYTE + |name|))
    ensures ParseFields(Drop(s, BYTE + |name|), name, crcOn, sm)
         == Success(Parsed(Header(name, if crcOn then Some(crc as nat) else None, ds),
                           (if crcOn then DWORD else 0) + SizeWidth(sm).value))
  {
    var n, f := NameBytes(name), FieldBytes(crc, ds, crcOn, SizeWidth(sm).value);
    Assoc(n, f, rest);
    NameAt(name, f + rest, s);
    FieldsAt(name, crc, ds, crcOn, sm, rest, f + rest);
  }

  /** The fields `_read_hdr` reads at cursor p of d: the CRC field when the archive carries
      CRCs, then the size field of the mode's width, each as short as the buffer leaves it. */
  lemma FieldsRead(d: seq<byte>, p: nat, name: string, crcOn: bool, sm: nat, crcField: seq<byte>, size: seq<byte>)
    requires crcField == if crcOn then Slice(d, p, DWORD) else []
    requires SizeWidth(sm).Success? ==> size == Slice(d, p + |crcField|, SizeWidth(sm).value)
    ensures SizeWidth(sm).Failure? ==> ParseFields(Rest(d, p), name, crcOn, sm) == Failure(SizeWidth(sm).error)
    ensures SizeWidth(sm).Success? ==>
      ParseFields(Rest(d, p), name, crcOn, sm)
      == Success(Parsed(Header(name, if crcOn then Some(DecodeLE(crcField)) else None, DecodeLE(size)),
                        |crcField| + |size|))
  {
    var s := Rest(d, p);
    if crcOn {
      ReadRest(d, p, DWORD);
    }
    assert crcField == if crcOn then Take(s, DWORD) else [];
    RestDrop(d, p, |crcField|);
    if SizeWidth(sm).Success? {
      var w := SizeWidth(sm).value;
      ReadRest(d, p + |crcField|, w);
      assert size == Take(Drop(s, |crcField|), w);
    }
  }

  /** A header is its name and length byte followed by its fields. */
  lemma HeaderGlue(s: seq<byte>, crcOn: bool, sm: nat, name: string, n: nat, h: Header, used: nat)
    requires ParseName(s) == Success((name, n))
    requires ParseFields(Drop(s, n), name, crcOn, sm) == Success(Parsed(h, used))
    ensures ParseHeader(s, crcOn, sm) == Success(Parsed(h, n + used))
  {
  }

  lemma NameAt(name: string, rest: seq<byte>, s: seq<byte>)
    requires |name| < 256 && IsAscii(name) && s == NameBytes(name) + rest
    ensures ParseName(s) == Success((name, BYTE + |name|)) && Drop(s, BYTE + |name|) == rest
  {
    Assoc([|name| as byte], Bytes(name), rest);
    Cons(|name| as byte, Bytes(name) + rest);
    TakeDrop(Bytes(name), rest);
    TakeDrop(NameBytes(name), rest);
    NameRoundTrip(name);
  }

  lemma FieldsAt(name: string, crc: int, ds: int, crcOn: bool, sm: nat, rest: seq<byte>, t: seq<byte>)
    requires sm <= 2 && (crcOn ==> 0 <= crc < Pow256(DWORD)) && 0 <= ds < Pow256(SizeWidth(sm).value)
    requires t == FieldBytes(crc, ds, crcOn, SizeWidth(sm).value) + rest
    ensures ParseFields(t, name, crcOn, sm)
         == Success(Parsed(Header(name, if crcOn then Some(crc as nat) else None, ds),
                           (if crcOn then DWORD else 0) + SizeWidth(sm).value))
  {
    var w := SizeWidth(sm).value;
    var sb := EncodeLE(ds, w);
    DecodeEncode(ds, w);
    TakeDrop(sb, rest);
    if crcOn {
      var cb := EncodeLE(crc, DWORD);
      Assoc(cb, sb, rest);
      TakeDrop(cb, sb + rest);
      DecodeEncode(crc, DWORD);
    } else {
      assert [] + sb == sb;
    }
  }

  // ---------------------------------------------------------------------------------------
  // Entries

  /** A stored file: its name and its payload. */
  datatype Entry = Entry(name: string, payload: seq<byte>)

  /** The CRC `append` stores for a payload: `zlib.crc32` folded from 0 over its chunks. */
  function PayloadCrc(payload: seq<byte>): (r: nat)
    ensures r < Pow256(DWORD)
  {
    Pow256Values();
    Crc32(payload, 0) as nat
  }

  /** An entry `append` can write in size mode sm: an ASCII name of at most 255 characters
      and a payload whose size the mode's size field holds. */
  predicate ValidEntry(e: Entry, sm: nat)
  {
    |e.name| < 256 && IsAscii(e.name) && sm <= 2 && |e.payload| < Pow256(SizeWidth(sm).value)
  }

  predicate ValidEntries(es: seq<Entry>, sm: nat)
  {
    forall i :: 0 <= i < |es| ==> ValidEntry(es[i], sm)
  }

  /** The bytes an entry takes: its header and its payload. */
  function EntryLength(e: Entry, crcOn: bool, sm: nat): nat
    requires sm <= 2
  {
    HeaderLength(e.name, crcOn, SizeWidth(sm).value) + |e.payload|
  }

  /** An entry as it sits in the archive: its header, carrying the payload's CRC when the
      archive carries CRCs, then the payload. */
  function EntryBytes(e: Entry, crcOn: bool, sm: nat): (r: seq<byte>)
    requires ValidEntry(e, sm)
    ensures |r| == EntryLength(e, crcOn, sm)
  {
    HeaderBytes(e.name, PayloadCrc(e.payload), |e.payload|, crcOn, sm) + e.payload
  }

  /** The entries stacked one after the other. */
  function Entries(es: seq<Entry>, crcOn: bool, sm: nat): seq<byte>
    requires ValidEntries(es, sm)
  {
    if |es| == 0 then [] else EntryBytes(es[0], crcOn, sm) + Entries(es[1..], crcOn, sm)
  }

  /** Stacking one more entry appends its bytes. */
  lemma {:induction false} EntriesSnoc(es: seq<Entry>, e: Entry, crcOn: bool, sm: nat)
    requires ValidEntries(es, sm) && ValidEntry(e, sm)
    ensures ValidEntries(es + [e], sm)
    ensures Entries(es + [e], crcOn, sm) == Entries(es, crcOn, sm) + EntryBytes(e, crcOn, sm)
  {
    assert forall i :: 0 <= i < |es + [e]| ==> (es + [e])[i] == if i < |es| then es[i] else e;
    if |es| == 0 {
      assert [e][1..] == [];
      assert EntryBytes(e, crcOn, sm) + [] == EntryBytes(e, crcOn, sm);
    } else {
      assert (es + [e])[1..] == es[1..] + [e];
      EntriesSnoc(es[1..], e, crcOn, sm);
      Assoc(EntryBytes(es[0], crcOn, sm), Entries(es[1..], crcOn, sm), EntryBytes(e, crcOn, sm));
    }
  }

  /** What `file_infos` yields per file: the name, the size, the stored CRC (none in an
      archive without CRCs), the offset of the header and the offset of the payload. */
  datatype FileInfo = FileInfo(name: string, size: nat, crc: Option<nat>, offset: nat, dataOffset: nat)

  /** The header `_read_hdr` returns for an entry, and the bytes it takes. */
  function EntryParsed(e: Entry, crcOn: bool, sm: nat): Parsed
    requires sm <= 2
  {
    Parsed(Header(e.name, if crcOn then Some(PayloadCrc(e.payload)) else None, |e.payload|),
           HeaderLength(e.name, crcOn, SizeWidth(sm).value))
  }

  /** The record of a file whose header, read at offset p, is h. */
  function InfoAt(h: Parsed, p: nat): FileInfo
  {
    FileInfo(h.header.name, h.header.size, h.header.crc, p, p + h.used)
  }

  /** Where the next header begins: past the header h read at p and past its payload. */
  function After(p: nat, h: Parsed): nat
  {
    p + h.used + h.header.size
  }

  /** The records of the entries es stacked from offset p on. */
  function InfosOf(es: seq<Entry>, p: nat, crcOn: bool, sm: nat): (r: seq<FileInfo>)
    requires ValidEntries(es, sm)
    ensures |r| == |es|
  {
    if |es| == 0 then []
    else
      var h := EntryParsed(es[0], crcOn, sm);
      assert ValidEntries(es[1..], sm) by {
        assert forall i :: 1 <= i < |es| ==> es[i] == es[1..][i - 1];
      }
      [InfoAt(h, p)] + InfosOf(es[1..], After(p, h), crcOn, sm)
  }

  /** Record i of a stack is record i - 1 of the stack after the first entry. */
  lemma InfosTail(es: seq<Entry>, p: nat, i: nat, crcOn: bool, sm: nat)
    requires ValidEntries(es, sm) && 0 < i < |es|
    ensures ValidEntries(es[1..], sm) && es[1..][i - 1] == es[i]
    ensures InfosOf(es, p, crcOn, sm)[i] == InfosOf(es[1..], After(p, EntryParsed(es[0], crcOn, sm)), crcOn, sm)[i - 1]
  {
    assert forall j :: 1 <= j < |es| ==> es[j] == es[1..][j - 1];
  }

  /** Record i carries entry i's name and size, and the CRC of its payload when the archive
      carries CRCs. */
  lemma {:induction false} InfosFields(es: seq<Entry>, p: nat, i: nat, crcOn: bool, sm: nat)
    requires ValidEntries(es, sm) && i < |es|
    ensures InfosOf(es, p, crcOn, sm)[i].name == es[i].name
    ensures InfosOf(es, p, crcOn, sm)[i].size == |es[i].payload|
    ensures InfosOf(es, p, crcOn, sm)[i].crc == if crcOn then Some(PayloadCrc(es[i].payload)) else None
    decreases i
  {
    if i > 0 {
      InfosTail(es, p, i, crcOn, sm);
      InfosFields(es[1..], After(p, EntryParsed(es[0], crcOn, sm)), i - 1, crcOn, sm);
    }
  }

  /** `file_infos` from cursor p for k files: each header is read, the payload skipped with
      a relative seek, and the first failure ends the walk. */
  function ScanInfos(d: seq<byte>, p: nat, k: nat, crcOn: bool, sm: nat): (r: Result<seq<FileInfo>>)
    ensures r.Success? ==> |r.value| == k
    ensures r.Failure? ==> (r.error == ShortRead || r.error == NameDecoding || r.error == BadSizeMode)
    decreases k, 1
  {
    if k == 0 then Success([]) else ScanFrom(d, p, k, crcOn, sm)
  }

  /** The walk from p when at least one file is left. */
  function ScanFrom(d: seq<byte>, p: nat, k: nat, crcOn: bool, sm: nat): (r: Result<seq<FileInfo>>)
    requires k > 0
    ensures r.Success? ==> |r.value| == k
    ensures r.Failure? ==> (r.error == ShortRead || r.error == NameDecoding || r.error == BadSizeMode)
    decreases k, 0
  {
    match ParseHeader(Rest(d, p), crcOn, sm)
    case Failure(e) => Failure(e)
    case Success(h) =>
      match ScanInfos(d, After(p, h), k - 1, crcOn, sm)
      case Failure(e) => Failure(e)
      case Success(infos) => Success([InfoAt(h, p)] + infos)
  }

  /** One step of the walk: the header at p read as h, then the other files. */
  lemma ScanStep(d: seq<byte>, p: nat, k: nat, crcOn: bool, sm: nat, h: Parsed, infos: seq<FileInfo>)
    requires k > 0
    requires ParseHeader(Rest(d, p), crcOn, sm) == Success(h)
    requires ScanInfos(d, After(p, h), k - 1, crcOn, sm) == Success(infos)
    ensures ScanInfos(d, p, k, crcOn, sm) == Success([InfoAt(h, p)] + infos)
  {
  }

  /** An entry's header reads back whatever follows it. */
  lemma EntryHeader(e: Entry, crcOn: bool, sm: nat, rest: seq<byte>, s: seq<byte>)
    requires ValidEntry(e, sm) && s == EntryBytes(e, crcOn, sm) + rest
    ensures ParseHeader(s, crcOn, sm) == Success(EntryParsed(e, crcOn, sm))
  {
    var hb := HeaderBytes(e.name, PayloadCrc(e.payload), |e.payload|, crcOn, sm);
    Assoc(hb, e.payload, rest);
    HeaderRoundTrip(e.name, PayloadCrc(e.payload), |e.payload|, crcOn, sm, e.payload + rest, s);
  }

  /** The first entry stacked at p, then the others from where its payload ends. */
  lemma FirstEntry(d: seq<byte>, p: nat, es: seq<Entry>, tail: seq<byte>, crcOn: bool, sm: nat)
    requires ValidEntries(es, sm) && |es| > 0 && Rest(d, p) == Entries(es, crcOn, sm) + tail
    ensures ValidEntries(es[1..], sm)
    ensures Rest(d, p) == EntryBytes(es[0], crcOn, sm) + (Entries(es[1..], crcOn, sm) + tail)
    ensures Rest(d, After(p, EntryParsed(es[0], crcOn, sm))) == Entries(es[1..], crcOn, sm) + tail
  {
    assert forall i :: 1 <= i < |es| ==> es[i] == es[1..][i - 1];
    var eb := EntryBytes(es[0], crcOn, sm);
    Assoc(eb, Entries(es[1..], crcOn, sm), tail);
    RestAdvance(d, p, eb, Entries(es[1..], crcOn, sm) + tail);
    assert p + |eb| == After(p, EntryParsed(es[0], crcOn, sm));
  }

  /** The entry e sits at offset q of d: its header reads back as its own and its payload
      follows. */
  predicate EntryAt(d: seq<byte>, q: nat, e: Entry, crcOn: bool, sm: nat)
    requires sm <= 2
  {
    ParseHeader(Rest(d, q), crcOn, sm) == Success(EntryParsed(e, crcOn, sm))
    && Slice(d, q + EntryParsed(e, crcOn, sm).used, |e.payload|) == e.payload
  }

  /** The entries es sit one after the other from offset p on. */
  predicate Stacked(d: seq<byte>, p: nat, es: seq<Entry>, crcOn: bool, sm: nat)
    requires ValidEntries(es, sm)
    decreases |es|
  {
    |es| > 0 ==>
      EntryAt(d, p, es[0], crcOn, sm)
      && ValidEntries(es[1..], sm)
      && Stacked(d, After(p, EntryParsed(es[0], crcOn, sm)), es[1..], crcOn, sm)
  }

  /** The first of the entries written at p sits there, and the others follow it. */
  lemma FirstEntryAt(d: seq<byte>, p: nat, es: seq<Entry>, tail: seq<byte>, crcOn: bool, sm: nat)
    requires ValidEntries(es, sm) && |es| > 0 && Rest(d, p) == Entries(es, crcOn, sm) + tail
    ensures EntryAt(d, p, es[0], crcOn, sm) && ValidEntries(es[1..], sm)
    ensures Rest(d, After(p, EntryParsed(es[0], crcOn, sm))) == Entries(es[1..], crcOn, sm) + tail
  {
    FirstEntry(d, p, es, tail, crcOn, sm);
    var e, rest := es[0], Entries(es[1..], crcOn, sm) + tail;
    EntryHeader(e, crcOn, sm, rest, Rest(d, p));
    PayloadOfEntry(d, p, e, rest, crcOn, sm);
    EntryAtFrom(d, p, e, crcOn, sm);
  }

  lemma EntryAtFrom(d: seq<byte>, p: nat, e: Entry, crcOn: bool, sm: nat)
    requires sm <= 2
    requires ParseHeader(Rest(d, p), crcOn, sm) == Success(EntryParsed(e, crcOn, sm))
    requires Slice(d, p + EntryParsed(e, crcOn, sm).used, |e.payload|) == e.payload
    ensures EntryAt(d, p, e, crcOn, sm)
  {
  }

  /** Entries written one after the other are stacked. */
  lemma {:induction false} EntriesStacked(d: seq<byte>, p: nat, es: seq<Entry>, tail: seq<byte>, crcOn: bool, sm: nat)
    requires ValidEntries(es, sm) && Rest(d, p) == Entries(es, crcOn, sm) + tail
    ensures Stacked(d, p, es, crcOn, sm)
    decreases |es|
  {
    if |es| > 0 {
      FirstEntryAt(d, p, es, tail, crcOn, sm);
      EntriesStacked(d, After(p, EntryParsed(es[0], crcOn, sm)), es[1..], tail, crcOn, sm);
    }
  }

  /** The payload of an entry stacked at p is what is copied from its data offset. */
  lemma PayloadOfEntry(d: seq<byte>, p: nat, e: Entry, rest: seq<byte>, crcOn: bool, sm: nat)
    requires ValidEntry(e, sm) && Rest(d, p) == EntryBytes(e, crcOn, sm) + rest
    ensures Slice(d, p + EntryParsed(e, crcOn, sm).used, |e.payload|) == e.payload
  {
    var hb := HeaderBytes(e.name, PayloadCrc(e.payload), |e.payload|, crcOn, sm);
    Assoc(hb, e.payload, rest);
    RestAdvance(d, p, hb, e.payload + rest);
    SliceRest(d, p + |hb|, |e.payload|);
    TakeDrop(e.payload, rest);
  }

  /** Walking k stacked entries returns their records. */
  lemma {:induction false} ScanStacked(d: seq<byte>, p: nat, k: nat, es: seq<Entry>, crcOn: bool, sm: nat)
    requires ValidEntries(es, sm) && k == |es| && Stacked(d, p, es, crcOn, sm)
    ensures ScanInfos(d, p, k, crcOn, sm) == Success(InfosOf(es, p, crcOn, sm))
    decreases k
  {
    if k > 0 {
      var h := EntryParsed(es[0], crcOn, sm);
      ScanStacked(d, After(p, h), k - 1, es[1..], crcOn, sm);
      ScanStep(d, p, k, crcOn, sm, h, InfosOf(es[1..], After(p, h), crcOn, sm));
    }
  }

  /** Walking the entries es stacked at p returns their records, in order: the names and
      sizes appended, and the CRC of each payload when the archive carries CRCs. */
  lemma ScanEntries(d: seq<byte>, p: nat, es: seq<Entry>, tail: seq<byte>, crcOn: bool, sm: nat)
    requires ValidEntries(es, sm) && Rest(d, p) == Entries(es, crcOn, sm) + tail
    ensures ScanInfos(d, p, |es|, crcOn, sm) == Success(InfosOf(es, p, crcOn, sm))
  {
    EntriesStacked(d, p, es, tail, crcOn, sm);
    ScanStacked(d, p, |es|, es, crcOn, sm);
  }

  // ---------------------------------------------------------------------------------------
  // Lookup and reading

  /** The index of the first record named name, or |infos| when none is. */
  function FindName(infos: seq<FileInfo>, name: string): (i: nat)
    ensures i <= |infos|
    ensures i < |infos| ==> infos[i].name == name
    ensures forall j :: 0 <= j < i ==> infos[j].name != name
  {
    if |infos| == 0 then 0
    else if infos[0].name == name then 0
    else 1 + FindName(infos[1..], name)
  }

  /** `file_info`: the walk runs to the end, then the first record with the name is taken.
      The walk runs inside the `try` that turns `IndexError` into ValueError, so a walk that
      fails on an empty one-byte read or a size mode past CONV_MODE reports the name as not
      contained, just as no match does; a name that does not decode is raised as it is. */
  function FileInfoNamed(walk: Result<seq<FileInfo>>, name: string): (r: Result<FileInfo>)
    ensures walk.Failure? && (walk.error == ShortRead || walk.error == BadSizeMode) ==> r == Failure(NotFound)
    ensures walk.Failure? && walk.error != ShortRead && walk.error != BadSizeMode ==> r == Failure(walk.error)
    ensures walk.Success? && FindName(walk.value, name) < |walk.value| ==> r == Success(walk.value[FindName(walk.value, name)])
    ensures walk.Success? && FindName(walk.value, name) == |walk.value| ==> r == Failure(NotFound)
  {
    match walk
    case Failure(e) => if e == ShortRead || e == BadSizeMode then Failure(NotFound) else Failure(e)
    case Success(infos) =>
      var i := FindName(infos, name);
      if i < |infos| then Success(infos[i]) else Failure(NotFound)
  }

  /** The bytes `read_into` copies for the file whose header, read at offset, is h: up to
      the header's size of payload, from the end of the header on. */
  function PayloadAt(d: seq<byte>, offset: nat, h: Parsed): (r: seq<byte>)
    ensures |r| <= h.header.size
  {
    Slice(d, offset + h.used, h.header.size)
  }

  /** `read_into`'s verdict on what it copied: fewer bytes than the header's size is the
      failed `res == ds` assertion, and with checks on a stored CRC other than the CRC of the
      copy (a missing CRC included) is the failed integrity assertion. */
  function Verdict(h: Parsed, payload: seq<byte>, checks: bool): (r: Result<seq<byte>>)
    ensures r.Success? <==> |payload| == h.header.size && (checks ==> h.header.crc == Some(PayloadCrc(payload)))
    ensures r.Success? ==> r.value == payload
    ensures r.Failure? ==> (r.error == Truncated || r.error == Integrity)
  {
    if |payload| != h.header.size then Failure(Truncated)
    else if checks && h.header.crc != Some(PayloadCrc(payload)) then Failure(Integrity)
    else Success(payload)
  }

  /** `read_into` for the file whose header is at offset. */
  function ReadAt(d: seq<byte>, offset: nat, crcOn: bool, sm: nat, checks: bool): Result<seq<byte>>
  {
    ReadFrom(d, offset, ParseHeader(Rest(d, offset), crcOn, sm), checks)
  }

  /** `read_into` once the header at offset has been read as h. */
  function ReadFrom(d: seq<byte>, offset: nat, h: Result<Parsed>, checks: bool): Result<seq<byte>>
  {
    match h
    case Failure(e) => Failure(e)
    case Success(h) => Verdict(h, PayloadAt(d, offset, h), checks)
  }

  /** An entry reads back from where it sits: its payload exactly, unless checks are on in
      an archive without CRCs, where the missing CRC fails the integrity check. */
  lemma ReadEntryAt(d: seq<byte>, q: nat, e: Entry, crcOn: bool, sm: nat, checks: bool)
    requires sm <= 2 && EntryAt(d, q, e, crcOn, sm)
    ensures ReadAt(d, q, crcOn, sm, checks) == if checks && !crcOn then Failure(Integrity) else Success(e.payload)
  {
    VerdictOfEntry(e, crcOn, sm, checks);
  }

  /** An entry's own payload passes the size check, and the CRC check exactly when the
      archive carries CRCs or checks are off. */
  lemma VerdictOfEntry(e: Entry, crcOn: bool, sm: nat, checks: bool)
    requires sm <= 2
    ensures Verdict(EntryParsed(e, crcOn, sm), e.payload, checks)
         == if checks && !crcOn then Failure(Integrity) else Success(e.payload)
  {
  }

  /** Entry i of a stack sits at the offset of record i. */
  lemma {:induction false} StackedEntry(d: seq<byte>, p: nat, es: seq<Entry>, i: nat, crcOn: bool, sm: nat)
    requires ValidEntries(es, sm) && Stacked(d, p, es, crcOn, sm) && i < |es|
    ensures EntryAt(d, InfosOf(es, p, crcOn, sm)[i].offset, es[i], crcOn, sm)
    decreases i
  {
    var o := InfosOf(es, p, crcOn, sm)[i].offset;
    if i == 0 {
      assert o == p && EntryAt(d, p, es[0], crcOn, sm);
      EntryAtMoved(d, p, o, es[0], es[0], crcOn, sm);
    } else {
      var q, rest := After(p, EntryParsed(es[0], crcOn, sm)), es[1..];
      InfosTail(es, p, i, crcOn, sm);
      assert Stacked(d, q, rest, crcOn, sm);
      StackedEntry(d, q, rest, i - 1, crcOn, sm);
      var o' := InfosOf(rest, q, crcOn, sm)[i - 1].offset;
      EntryAtMoved(d, o', o, rest[i - 1], es[i], crcOn, sm);
    }
  }

  lemma EntryAtMoved(d: seq<byte>, o: nat, o': nat, e: Entry, e': Entry, crcOn: bool, sm: nat)
    requires sm <= 2 && o == o' && e == e' && EntryAt(d, o, e, crcOn, sm)
    ensures EntryAt(d, o', e', crcOn, sm)
  {
  }

  /** Each stored entry reads back from the offset of its record: its payload exactly,
      unless checks are on in an archive without CRCs. */
  lemma ReadStacked(d: seq<byte>, p: nat, es: seq<Entry>, tail: seq<byte>, i: nat, crcOn: bool, sm: nat, checks: bool)
    requires ValidEntries(es, sm) && Rest(d, p) == Entries(es, crcOn, sm) + tail && i < |es|
    ensures ReadAt(d, InfosOf(es, p, crcOn, sm)[i].offset, crcOn, sm, checks)
         == if checks && !crcOn then Failure(Integrity) else Success(es[i].payload)
  {
    EntriesStacked(d, p, es, tail, crcOn, sm);
    StackedEntry(d, p, es, i, crcOn, sm);
    ReadEntryAt(d, InfosOf(es, p, crcOn, sm)[i].offset, es[i], crcOn, sm, checks);
  }

  // ---------------------------------------------------------------------------------------
  // Back-patching the CRC

  /** What `append` writes before the payload's CRC is known: the header with a zero CRC. */
  function ProvisionalHeader(e: Entry, crcOn: bool, sm: nat): (r: seq<byte>)
    requires ValidEntry(e, sm)
    ensures |r| == HeaderLength(e.name, crcOn, SizeWidth(sm).value)
  {
    HeaderBytes(e.name, 0, |e.payload|, crcOn, sm)
  }

  /** The offset `append` seeks to for the CRC patch as written: DWORD + QWORD bytes before
      the payload at p, whatever the size mode. */
  function PatchOffsetAsWritten(p: nat): int
  {
    p - (DWORD + QWORD)
  }

  /** The offset of the CRC field of a header ending at p whose size field is w bytes wide. */
  function PatchOffset(p: nat, w: nat): int
  {
    p - (DWORD + w)
  }

  /** The two offsets agree exactly in size mode m64. */
  lemma PatchOffsetsAgree(p: nat, sm: nat)
    requires sm <= 2
    ensures PatchOffsetAsWritten(p) == PatchOffset(p, SizeWidth(sm).value) <==> sm == 2
  {
  }

  /** An archive with CRCs after `append` wrote the entry e after the bytes d, as written:
      the provisional header, the payload, then the CRC at the as-written offset. Every
      archive has its signature before its entries, so the offset is never negative. */
  function AppendAsWritten(d: seq<byte>, e: Entry, sm: nat): (r: seq<byte>)
    requires ValidEntry(e, sm) && |d| >= READ_OFFSET
  {
    var at := PatchOffsetAsWritten(|d| + |ProvisionalHeader(e, true, sm)|);
    Overwrite(d + ProvisionalHeader(e, true, sm) + e.payload, at, EncodeLE(PayloadCrc(e.payload), DWORD))
  }

  /** The same with the CRC at the CRC field's offset. */
  function AppendPatched(d: seq<byte>, e: Entry, sm: nat): (r: seq<byte>)
    requires ValidEntry(e, sm)
  {
    var at := PatchOffset(|d| + |ProvisionalHeader(e, true, sm)|, SizeWidth(sm).value);
    assert at >= 0;
    Overwrite(d + ProvisionalHeader(e, true, sm) + e.payload, at, EncodeLE(PayloadCrc(e.payload), DWORD))
  }

  lemma Regroup(a: seq<byte>, b: seq<byte>, c: seq<byte>, x: seq<byte>, y: seq<byte>)
    ensures a + ((b + (c + x)) + y) == (a + b) + c + (x + y)
  {
  }

  /** Overwriting the field c of d + (b + (c + x)) + y, in place. */
  lemma PatchField(d: seq<byte>, b: seq<byte>, c: seq<byte>, c': seq<byte>, x: seq<byte>, y: seq<byte>, at: nat)
    requires |c'| == |c| && at == |d| + |b|
    ensures Overwrite(d + (b + (c + x)) + y, at, c') == d + ((b + (c' + x)) + y)
  {
    Regroup(d, b, c, x, y);
    Regroup(d, b, c', x, y);
    OverwriteMiddle(d + b, c, x + y, c');
  }

  /** The provisional header and the stored entry differ only in the CRC field. */
  lemma PatchShape(e: Entry, sm: nat)
    requires ValidEntry(e, sm)
    ensures ProvisionalHeader(e, true, sm)
         == NameBytes(e.name) + (EncodeLE(0, DWORD) + EncodeLE(|e.payload|, SizeWidth(sm).value))
    ensures EntryBytes(e, true, sm)
         == (NameBytes(e.name) + (EncodeLE(PayloadCrc(e.payload), DWORD) + EncodeLE(|e.payload|, SizeWidth(sm).value)))
            + e.payload
  {
  }

  /** Without CRCs nothing is patched: the provisional header is the stored one. */
  lemma PlainAppend(d: seq<byte>, e: Entry, sm: nat)
    requires ValidEntry(e, sm)
    ensures d + ProvisionalHeader(e, false, sm) + e.payload == d + EntryBytes(e, false, sm)
  {
  }

  /** Patching at the CRC field's offset stores exactly the entry, with the payload's CRC in
      its header. */
  lemma BackPatch(d: seq<byte>, e: Entry, sm: nat)
    requires ValidEntry(e, sm)
    ensures AppendPatched(d, e, sm) == d + EntryBytes(e, true, sm)
  {
    var nb, z, c, f := NameBytes(e.name), EncodeLE(0, DWORD), EncodeLE(PayloadCrc(e.payload), DWORD),
                       EncodeLE(|e.payload|, SizeWidth(sm).value);
    calc {
      AppendPatched(d, e, sm);
    == { PatchedAt(d, e, sm); }
      Overwrite(d + (nb + (z + f)) + e.payload, |d| + |nb|, c);
    == { PatchField(d, nb, z, c, f, e.payload, |d| + |nb|); }
      d + ((nb + (c + f)) + e.payload);
    == { PatchShape(e, sm); }
      d + EntryBytes(e, true, sm);
    }
  }

  /** Where the corrected patch goes: over the zero CRC field behind the name. */
  lemma PatchedAt(d: seq<byte>, e: Entry, sm: nat)
    requires ValidEntry(e, sm)
    ensures AppendPatched(d, e, sm)
         == Overwrite(d + (NameBytes(e.name) + (EncodeLE(0, DWORD) + EncodeLE(|e.payload|, SizeWidth(sm).value))) + e.payload,
                      |d| + |NameBytes(e.name)|, EncodeLE(PayloadCrc(e.payload), DWORD))
  {
    PatchShape(e, sm);
  }

  /** In size mode m64 the as-written patch is the correct one. */
  lemma AsWrittenM64(d: seq<byte>, e: Entry)
    requires ValidEntry(e, 2) && |d| >= READ_OFFSET
    ensures AppendAsWritten(d, e, 2) == AppendPatched(d, e, 2)
  {
  }

  /** In size mode m32 the as-written patch leaves the CRC field zero and writes the CRC over
      the last four bytes of the name. */
  lemma AsWrittenM32(d: seq<byte>, e: Entry)
    requires ValidEntry(e, 1) && |d| >= READ_OFFSET && |e.name| >= 4
    ensures AppendAsWritten(d, e, 1)
         == (d + ([|e.name| as byte] + Bytes(e.name)[..|e.name| - 4]))
            + EncodeLE(PayloadCrc(e.payload), DWORD)
            + ((EncodeLE(0, DWORD) + EncodeLE(|e.payload|, DWORD)) + e.payload)
  {
    var b := Bytes(e.name);
    var b1, b2 := b[..|e.name| - 4], b[|e.name| - 4..];
    var f := EncodeLE(0, DWORD) + EncodeLE(|e.payload|, DWORD);
    PatchShape(e, 1);
    assert b == b1 + b2;
    MidName(d, |e.name| as byte, b1, b2, f, e.payload, EncodeLE(PayloadCrc(e.payload), DWORD),
            PatchOffsetAsWritten(|d| + |ProvisionalHeader(e, true, 1)|) as nat);
  }

  lemma MidName(d: seq<byte>, n: byte, b1: seq<byte>, b2: seq<byte>, f: seq<byte>, y: seq<byte>, c: seq<byte>, at: nat)
    requires |c| == |b2| && at == |d| + 1 + |b1|
    ensures Overwrite(d + ([n] + (b1 + b2) + f) + y, at, c) == (d + ([n] + b1)) + c + (f + y)
  {
    var x := d + ([n] + b1);
    assert d + ([n] + (b1 + b2) + f) + y == x + b2 + (f + y);
    OverwriteMiddle(x, b2, f + y, c);
  }

  /** The as-written patch on a size-mode m32 archive with CRCs: appending the one-byte
      payload [0] as "test" writes its CRC 0xD202EF8D over the name, and the header no
      longer reads back. */
  lemma AsWrittenPatchCorruptsM32(d: seq<byte>)
    requires |d| >= READ_OFFSET
    ensures ValidEntry(Entry("test", [0]), 1)
    ensures ParseHeader(Rest(AppendAsWritten(d, Entry("test", [0]), 1), |d|), true, 1) == Failure(NameDecoding)
  {
    var e := Entry("test", [0]);
    TestEntry();
    AsWrittenM32(d, e);
    TestCrc();
    var c := EncodeLE(PayloadCrc(e.payload), DWORD);
    var rest := (EncodeLE(0, DWORD) + EncodeLE(|e.payload|, DWORD)) + e.payload;
    assert Bytes(e.name)[..0] == [];
    assert [4 as byte] + [] == [4];
    OverwrittenName(d, c, rest, AppendAsWritten(d, e, 1));
  }

  lemma TestEntry()
    ensures ValidEntry(Entry("test", [0]), 1) && |Bytes("test")| == 4
  {
    assert IsAscii("test") by {
      assert "test"[1..] == "est" && "est"[1..] == "st" && "st"[1..] == "t" && "t"[1..] == "";
    }
    Pow256Values();
  }

  /** The CRC of [0] as its four little-endian bytes begins with 0x8D. */
  lemma TestCrc()
    ensures |EncodeLE(PayloadCrc([0]), DWORD)| == 4 && EncodeLE(PayloadCrc([0]), DWORD)[0] == 0x8D
  {
    ZeroByteCheck();
    assert PayloadCrc([0]) == 0xD202_EF8D;
  }

  /** A name length of 4 followed by a byte past 127 does not decode. */
  lemma OverwrittenName(d: seq<byte>, c: seq<byte>, z: seq<byte>, r: seq<byte>)
    requires |c| == 4 && c[0] >= 128 && r == (d + [4]) + c + z
    ensures ParseHeader(Rest(r, |d|), true, 1) == Failure(NameDecoding)
  {
    var s := Rest(r, |d|);
    assert s == [4] + (c + z);
    assert s[1..] == c + z;
    TakeDrop(c, z);
    assert !AsciiBytes(c);
  }

  // ---------------------------------------------------------------------------------------
  // Archive images

  /** d holds an archive that starts at offset start: a signature slot of READ_OFFSET bytes
      followed by exactly the entries es. */
  predicate Image(d: seq<byte>, start: nat, es: seq<Entry>, crcOn: bool, sm: nat)
  {
    start + READ_OFFSET <= |d| && ValidEntries(es, sm) && Rest(d, start + READ_OFFSET) == Entries(es, crcOn, sm)
  }

  /** A signature slot with nothing after it holds no entries. */
  lemma EmptyImage(d: seq<byte>, start: nat, crcOn: bool, sm: nat)
    requires |d| == start + READ_OFFSET
    ensures Image(d, start, [], crcOn, sm)
  {
  }

  /** Appending an entry's bytes to an image stacks one more entry. */
  lemma AppendImage(d: seq<byte>, start: nat, es: seq<Entry>, e: Entry, crcOn: bool, sm: nat)
    requires Image(d, start, es, crcOn, sm) && ValidEntry(e, sm)
    ensures Image(d + EntryBytes(e, crcOn, sm), start, es + [e], crcOn, sm)
  {
    RestAppend(d, start + READ_OFFSET, EntryBytes(e, crcOn, sm));
    EntriesSnoc(es, e, crcOn, sm);
  }

  /** Rewriting the signature slot keeps the entries. */
  lemma SignatureKeepsImage(d: seq<byte>, start: nat, es: seq<Entry>, crcOn: bool, sm: nat, b: seq<byte>)
    requires Image(d, start, es, crcOn, sm) && |b| == READ_OFFSET
    ensures Image(Overwrite(d, start, b), start, es, crcOn, sm)
    ensures |Overwrite(d, start, b)| == |d|
  {
    var x := d[..start];
    var y := d[start..start + READ_OFFSET];
    var z := d[start + READ_OFFSET..];
    assert d == x + y + z;
    OverwriteMiddle(x, y, z, b);
    assert Rest(x + b + z, start + READ_OFFSET) == z;
  }

  /** A signature written over a stream that ends within its slot leaves an empty image. */
  lemma FreshImage(d: seq<byte>, start: nat, crcOn: bool, sm: nat, b: seq<byte>)
    requires |b| == READ_OFFSET && |d| <= start + READ_OFFSET
    ensures Image(Overwrite(d, start, b), start, [], crcOn, sm)
  {
    OverwriteShape(d, start, b);
    EmptyImage(Overwrite(d, start, b), start, crcOn, sm);
  }

  /** A signature written at start loads back from there, whatever surrounds it. */
  lemma SignatureWritten(d: seq<byte>, start: nat, s: Signature, checks: bool)
    requires Encodable(s)
    ensures ParseSignature(Rest(Overwrite(d, start, SignatureBytes(s)), start), checks) == Success(s)
  {
    var b := SignatureBytes(s);
    var x := if start <= |d| then d[..start] else d + Zeros(start - |d|);
    var z := if start + |b| < |d| then d[start + |b|..] else [];
    assert Overwrite(d, start, b) == x + b + z && |x| == start;
    assert Rest(x + b + z, start) == b + z;
    SignatureRoundTrip(s, z, checks);
  }

  /** An archive as `flush` leaves it: its signature at start, the entries after it. Loading
      the signature gives back its fields, and the entries form the archive's image. */
  lemma LoadedImage(d: seq<byte>, start: nat, s: Signature, es: seq<Entry>, checks: bool)
    requires Encodable(s) && ValidEntries(es, s.sizeMode as nat)
    requires Rest(d, start) == SignatureBytes(s) + Entries(es, s.crc, s.sizeMode as nat)
    ensures ParseSignature(Rest(d, start), checks) == Success(s)
    ensures Image(d, start, es, s.crc, s.sizeMode as nat)
  {
    SignatureRoundTrip(s, Entries(es, s.crc, s.sizeMode as nat), checks);
    RestAdvance(d, start, SignatureBytes(s), Entries(es, s.crc, s.sizeMode as nat));
  }
}
