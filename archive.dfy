/** The archive engine of static.py: `StaticArchive` over a seekable stream opened at some
    offset, with its signature, its entry headers, appending, walking the entries, lookup by
    name and reading back. */
module Archive {
  import opened Results
  import opened Codec
  import opened Crc
  import opened Streams
  import opened Layout

  /** The mode an archive is opened in: 'r', 'w' or 'a'. */
  datatype Mode = Reading | Writing | Appending

  /** What `read` and `read_into` are given: a name to look up, or a record. */
  datatype Target = ByName(name: string) | ByInfo(info: FileInfo)

  /** `is_archive` on a stream: whether the next bytes are the magic. The read moves the
      cursor past what it returned. */
  method IsArchive(s: Stream) returns (b: bool, s': Stream)
    ensures b <==> HasMagic(Rest(s.data, s.pos))
    ensures s' == Stream(s.data, s.pos + Min(|MAGIC|, Available(s.data, s.pos)))
  {
    var magic;
    s', magic := Streams.Read(s, |MAGIC|);
    ReadRest(s.data, s.pos, |MAGIC|);
    b := magic == MAGIC;
  }

  /** A walk whose first records are known: they come before whatever the rest yields. */
  function Prepend(infos: seq<FileInfo>, walk: Result<seq<FileInfo>>): Result<seq<FileInfo>>
  {
    match walk
    case Failure(e) => Failure(e)
    case Success(more) => Success(infos + more)
  }

  /** The walk from a header that reads back as h: its record, then the other files. */
  lemma ScanPrepend(d: seq<byte>, p: nat, k: nat, crcOn: bool, sm: nat, h: Parsed)
    requires k > 0 && ParseHeader(Rest(d, p), crcOn, sm) == Success(h)
    ensures ScanInfos(d, p, k, crcOn, sm) == Prepend([InfoAt(h, p)], ScanInfos(d, After(p, h), k - 1, crcOn, sm))
  {
    var rest := ScanInfos(d, After(p, h), k - 1, crcOn, sm);
    if rest.Success? {
      ScanStep(d, p, k, crcOn, sm, h, rest.value);
    } else {
      assert ScanFrom(d, p, k, crcOn, sm) == Failure(rest.error);
    }
  }

  lemma PrependTwice(a: seq<FileInfo>, b: seq<FileInfo>, walk: Result<seq<FileInfo>>)
    ensures Prepend(a, Prepend(b, walk)) == Prepend(a + b, walk)
  {
    if walk.Success? {
      assert a + (b + walk.value) == (a + b) + walk.value;
    }
  }

  /** The length byte and the name of `_read_hdr`, read from the cursor of s. */
  method ReadName(s: Stream) returns (r: Result<(string, nat)>, s': Stream)
    ensures r == ParseName(Rest(s.data, s.pos))
    ensures s'.data == s.data
    ensures r.Success? ==> s'.pos == s.pos + r.value.1
  {
    var t, n := ReadOn(s, BYTE);
    if |n| == 0 {
      NameGlue(Rest(s.data, s.pos), n, []);
      return Failure(ShortRead), t;
    }
    var raw;
    s', raw := ReadOn(t, n[0] as nat);
    NameGlue(Rest(s.data, s.pos), n, raw);
    match DecodeName(raw)
    case Failure(e) =>
      r := Failure(e);
    case Success(name) =>
      r := Success((name, 1 + |raw|));
  }

  /** The length byte n read from s, and the name bytes raw read behind it, decide the name
      as `ParseName` does. */
  lemma NameGlue(s: seq<byte>, n: seq<byte>, raw: seq<byte>)
    requires n == Take(s, BYTE) && (|n| == 1 ==> raw == Take(Drop(s, BYTE), n[0] as nat))
    ensures |n| == 0 ==> ParseName(s) == Failure(ShortRead)
    ensures |n| == 1 ==> ParseName(s) == match DecodeName(raw)
                                          case Failure(e) => Failure(e)
                                          case Success(name) => Success((name, 1 + |raw|))
  {
  }

  /** The CRC field (when the archive carries CRCs) and the size field of `_read_hdr`. */
  method ReadFields(s: Stream, name: string, crcOn: bool, sm: nat) returns (r: Result<Parsed>, s': Stream)
    ensures r == ParseFields(Rest(s.data, s.pos), name, crcOn, sm)
    ensures s'.data == s.data
    ensures r.Success? ==> s'.pos == s.pos + r.value.used
  {
    var d, p := s.data, s.pos;
    var t := s;
    var crcField: seq<byte> := [];
    if crcOn {
      t, crcField := Streams.Read(s, DWORD);
    }
    var width := SizeWidth(sm);
    if width.Failure? {
      FieldsRead(d, p, name, crcOn, sm, crcField, []);
      return Failure(width.error), t;
    }
    var size;
    s', size := Streams.Read(t, width.value);
    FieldsRead(d, p, name, crcOn, sm, crcField, size);
    r := Success(Parsed(Header(name, if crcOn then Some(DecodeLE(crcField)) else None, DecodeLE(size)),
                        |crcField| + |size|));
  }

  /** `_read_hdr` on the stream s of an archive with CRC flag crcOn and size mode sm: the
      header at the cursor, and the cursor moved past it. */
  method ReadHeader(s: Stream, crcOn: bool, sm: nat) returns (r: Result<Parsed>, s': Stream)
    ensures r == ParseHeader(Rest(s.data, s.pos), crcOn, sm)
    ensures s'.data == s.data
    ensures r.Success? ==> s'.pos == s.pos + r.value.used
  {
    var d, p := s.data, s.pos;
    var named, t := ReadName(s);
    if named.Failure? {
      NameFails(Rest(d, p), crcOn, sm);
      return Failure(named.error), t;
    }
    var name, n := named.value.0, named.value.1;
    assert t == Stream(d, p + n);
    RestDrop(d, p, n);
    var f;
    f, s' := ReadFields(t, name, crcOn, sm);
    if f.Failure? {
      FieldsFail(Rest(d, p), crcOn, sm, name, n);
      return Failure(f.error), s';
    }
    var h, used := f.value.header, f.value.used;
    HeaderGlue(Rest(d, p), crcOn, sm, name, n, h, used);
    r := Success(Parsed(h, n + used));
  }

  /** A name that does not read back is the header's error. */
  lemma NameFails(s: seq<byte>, crcOn: bool, sm: nat)
    requires ParseName(s).Failure?
    ensures ParseHeader(s, crcOn, sm) == Failure(ParseName(s).error)
  {
  }

  /** Fields that do not read back behind a name are the header's error. */
  lemma FieldsFail(s: seq<byte>, crcOn: bool, sm: nat, name: string, n: nat)
    requires ParseName(s) == Success((name, n)) && ParseFields(Drop(s, n), name, crcOn, sm).Failure?
    ensures ParseHeader(s, crcOn, sm) == Failure(ParseFields(Drop(s, n), name, crcOn, sm).error)
  {
  }

  /** The fields of `_load_sig`, read one after the other from behind the magic of a
      signature at start. */
  method ReadSignature(s: Stream, start: nat) returns (r: Result<Signature>)
    ensures r == ParseSignature(Rest(s.data, start), false)
  {
    RestDrop(s.data, start, |MAGIC|);
    var u, gp := ReadOn(s.(pos := start + |MAGIC|), DWORD);
    var count, m, c;
    u, count := ReadOn(u, QWORD);
    ghost var rest := Rest(u.data, u.pos);
    SignatureGlue(Rest(s.data, start), gp, count, rest);
    u, m := ReadOn(u, BYTE);
    if |m| == 0 {
      return Failure(ShortRead);
    }
    u, c := ReadOn(u, BYTE);
    if |c| == 0 {
      return Failure(ShortRead);
    }
    FirstTwo(rest, m, c);
    r := Success(Signature(DecodeLE(gp), DecodeLE(count), m[0] as int, c[0] != 0));
  }

  /** `read(n)` on s, seen on the bytes left behind the cursor: the first n of them come
      back, and the rest of them are left. */
  method ReadOn(s: Stream, n: nat) returns (s': Stream, chunk: seq<byte>)
    ensures s'.data == s.data
    ensures chunk == Take(Rest(s.data, s.pos), n) && s'.pos == s.pos + |chunk|
    ensures Rest(s'.data, s'.pos) == Drop(Rest(s.data, s.pos), n)
  {
    s', chunk := Streams.Read(s, n);
    ReadRest(s.data, s.pos, n);
  }

  /** Two one-byte reads from rest give its first two bytes. */
  lemma FirstTwo(rest: seq<byte>, m: seq<byte>, c: seq<byte>)
    requires m == Take(rest, BYTE) && c == Take(Drop(rest, BYTE), BYTE) && |m| == 1 && |c| == 1
    ensures |rest| >= 2 && m[0] == rest[0] && c[0] == rest[1]
  {
  }

  /** The fields of a signature whose general-purpose and count fields are gp and count and
      which goes on with rest. */
  lemma SignatureGlue(s: seq<byte>, gp: seq<byte>, count: seq<byte>, rest: seq<byte>)
    requires gp == Take(Drop(s, |MAGIC|), DWORD)
    requires count == Take(Drop(Drop(s, |MAGIC|), DWORD), QWORD)
    requires rest == Drop(Drop(Drop(s, |MAGIC|), DWORD), QWORD)
    ensures ParseSignature(s, false)
         == if |rest| < 2 then Failure(ShortRead)
            else Success(Signature(DecodeLE(gp), DecodeLE(count), rest[0] as int, rest[1] != 0))
  {
  }

  /** Once the magic is there, loading with checks on reads what loading without them does. */
  lemma CheckedSignature(s: seq<byte>)
    requires HasMagic(s)
    ensures ParseSignature(s, true) == ParseSignature(s, false)
  {
  }

  /** The loop of `file_infos` on the stream s of an archive with CRC flag crcOn and size
      mode sm: n headers read from the cursor on, each payload skipped. */
  method Walk(s: Stream, n: nat, crcOn: bool, sm: nat) returns (r: Result<seq<FileInfo>>, s': Stream)
    ensures r == ScanInfos(s.data, s.pos, n, crcOn, sm)
    ensures s'.data == s.data
  {
    var d: seq<byte>, start: nat := s.data, s.pos;
    var p := start;
    var infos: seq<FileInfo> := [];
    var left := n;
    ghost var whole := ScanInfos(d, start, n, crcOn, sm);
    PrependNothing(whole);
    while left > 0
      invariant Walking(d, crcOn, sm, whole, infos, p, left)
    {
      var info, q := WalkOne(d, p, crcOn, sm, left, whole, infos);
      if info.Failure? {
        return Failure(info.error), Stream(d, p);
      }
      infos, p, left := infos + [info.value], q, left - 1;
    }
    WalkDone(d, p, crcOn, sm, whole, infos);
    r, s' := Success(infos), Stream(d, p);
  }

  /** With no file left, the walk is the records read so far. */
  lemma WalkDone(d: seq<byte>, p: nat, crcOn: bool, sm: nat, whole: Result<seq<FileInfo>>, infos: seq<FileInfo>)
    requires whole == Prepend(infos, ScanInfos(d, p, 0, crcOn, sm))
    ensures whole == Success(infos)
  {
    assert infos + [] == infos;
  }

  /** The walk so far: the whole walk is the records read, then the walk over the k files
      left from p. */
  ghost predicate Walking(d: seq<byte>, crcOn: bool, sm: nat, whole: Result<seq<FileInfo>>,
                          infos: seq<FileInfo>, p: nat, k: nat)
  {
    whole == Prepend(infos, ScanInfos(d, p, k, crcOn, sm))
  }

  /** One round of the loop of `file_infos`: the header at p is read and its record made,
      and the walk goes on from behind its payload. */
  method WalkOne(d: seq<byte>, p: nat, crcOn: bool, sm: nat, ghost k: nat,
                 ghost whole: Result<seq<FileInfo>>, ghost infos: seq<FileInfo>)
    returns (r: Result<FileInfo>, q: nat)
    requires k > 0 && Walking(d, crcOn, sm, whole, infos, p, k)
    ensures r.Failure? ==> whole == Failure(r.error)
    ensures r.Success? ==> Walking(d, crcOn, sm, whole, infos + [r.value], q, k - 1)
  {
    var h, t := ReadHeader(Stream(d, p), crcOn, sm);
    if h.Failure? {
      WalkStops(d, p, k, crcOn, sm, whole, infos, h.error);
      return Failure(h.error), p;
    }
    var parsed := h.value;
    var dataOffset: nat := t.pos;
    q := dataOffset + parsed.header.size;
    var info := FileInfo(parsed.header.name, parsed.header.size, parsed.header.crc, p, dataOffset);
    WalkStep(d, p, k, crcOn, sm, parsed, whole, infos, info, q);
    r := Success(info);
  }

  /** A header that does not read back ends the walk with its error. */
  lemma WalkStops(d: seq<byte>, p: nat, k: nat, crcOn: bool, sm: nat,
                  whole: Result<seq<FileInfo>>, infos: seq<FileInfo>, e: Error)
    requires k > 0 && ParseHeader(Rest(d, p), crcOn, sm) == Failure(e)
    requires whole == Prepend(infos, ScanInfos(d, p, k, crcOn, sm))
    ensures whole == Failure(e)
  {
    assert ScanInfos(d, p, k, crcOn, sm) == Failure(e);
  }

  /** One round of the walk: the record of the header read at p joins the known ones, and
      the walk goes on from behind its payload. */
  lemma WalkStep(d: seq<byte>, p: nat, k: nat, crcOn: bool, sm: nat, h: Parsed,
                 whole: Result<seq<FileInfo>>, infos: seq<FileInfo>, info: FileInfo, q: nat)
    requires k > 0 && ParseHeader(Rest(d, p), crcOn, sm) == Success(h)
    requires info == FileInfo(h.header.name, h.header.size, h.header.crc, p, p + h.used)
    requires q == p + h.used + h.header.size
    requires whole == Prepend(infos, ScanInfos(d, p, k, crcOn, sm))
    ensures whole == Prepend(infos + [info], ScanInfos(d, q, k - 1, crcOn, sm))
  {
    assert info == InfoAt(h, p) && q == After(p, h);
    ScanPrepend(d, p, k, crcOn, sm, h);
    PrependTwice(infos, [InfoAt(h, p)], ScanInfos(d, After(p, h), k - 1, crcOn, sm));
  }

  lemma PrependNothing(walk: Result<seq<FileInfo>>)
    ensures Prepend([], walk) == walk
  {
    if walk.Success? {
      assert [] + walk.value == walk.value;
    }
  }

  /** The copy of `read_into` on the stream s of an archive with CRC flag crcOn and size
      mode sm: the header at the cursor is read, at most its size of payload is copied to
      dest while its CRC is folded, and fewer bytes than the size or, with checks on, a
      stored CRC other than the copy's fail after the copy. */
  method CopyOut(s: Stream, dest: Stream, crcOn: bool, sm: nat, checks: bool)
    returns (r: Result<nat>, s': Stream, dest': Stream)
    ensures var want := ReadAt(s.data, s.pos, crcOn, sm, checks);
      (r.Success? <==> want.Success?)
      && (r.Success? ==> r.value == |want.value|)
      && (r.Failure? ==> r.error == want.error)
    ensures var c := CopiedAt(s.data, s.pos, crcOn, sm);
      dest' == Stream(Overwrite(dest.data, dest.pos, c), dest.pos + |c|)
    ensures s'.data == s.data
  {
    var h;
    h, s' := ReadHeader(s, crcOn, sm);
    if h.Failure? {
      return Failure(h.error), s', dest;
    }
    var ds := h.value.header.size;
    var t := s';
    var res, acc;
    ghost var chunks;
    res, acc, s', dest', chunks := MoveStream(s', dest, BUFFER_SIZE, Some(ds), true, 0);
    r := if res != ds then Failure(Truncated)
         else if checks && h.value.header.crc != Some(acc as nat) then Failure(Integrity)
         else Success(res);
    CopyOutcome(t.data, s.pos, t.pos, dest, crcOn, sm, checks, h.value, res, acc, r, dest');
  }

  /** What the copy of `read_into` amounts to once the header at q was read as h, ending
      at p, and res bytes were copied with CRC acc: the verdict of the size and CRC checks
      is that of `ReadAt`, and the bytes copied are `CopiedAt`. */
  lemma CopyOutcome(d: seq<byte>, q: nat, p: nat, dest: Stream, crcOn: bool, sm: nat, checks: bool,
                    h: Parsed, res: nat, acc: bv32, r: Result<nat>, dest': Stream)
    requires ParseHeader(Rest(d, q), crcOn, sm) == Success(h) && p == q + h.used
    requires res == MoveCount(Available(d, p), BUFFER_SIZE, Some(h.header.size))
    requires acc == Crc32(Slice(d, p, res), 0)
    requires dest' == Stream(Overwrite(dest.data, dest.pos, Slice(d, p, res)), dest.pos + res)
    requires r == if res != h.header.size then Failure(Truncated)
                  else if checks && h.header.crc != Some(acc as nat) then Failure(Integrity)
                  else Success(res)
    ensures var want := ReadAt(d, q, crcOn, sm, checks);
      (r.Success? <==> want.Success?)
      && (r.Success? ==> r.value == |want.value|)
      && (r.Failure? ==> r.error == want.error)
    ensures var c := CopiedAt(d, q, crcOn, sm);
      dest' == Stream(Overwrite(dest.data, dest.pos, c), dest.pos + |c|)
  {
    CopiedPayload(d, q, p, h, res);
    CopyVerdict(d, q, p, crcOn, sm, checks, h, res, acc, r);
    assert CopiedAt(d, q, crcOn, sm) == PayloadAt(d, q, h);
  }

  /** The size and CRC checks after the copy decide as `ReadAt` does. */
  lemma CopyVerdict(d: seq<byte>, q: nat, p: nat, crcOn: bool, sm: nat, checks: bool, h: Parsed,
                    res: nat, acc: bv32, r: Result<nat>)
    requires ParseHeader(Rest(d, q), crcOn, sm) == Success(h) && p == q + h.used
    requires PayloadAt(d, q, h) == Slice(d, p, res) && |Slice(d, p, res)| == res
    requires acc == Crc32(Slice(d, p, res), 0)
    requires r == if res != h.header.size then Failure(Truncated)
                  else if checks && h.header.crc != Some(acc as nat) then Failure(Integrity)
                  else Success(res)
    ensures var want := ReadAt(d, q, crcOn, sm, checks);
      (r.Success? <==> want.Success?)
      && (r.Success? ==> r.value == |want.value|)
      && (r.Failure? ==> r.error == want.error)
  {
    var payload := Slice(d, p, res);
    assert ReadAt(d, q, crcOn, sm, checks) == Verdict(h, payload, checks);
    assert PayloadCrc(payload) == acc as nat;
  }

  /** The bytes MoveStream copies for the header h at q, which ends at p, are the payload
      the header names. */
  lemma CopiedPayload(d: seq<byte>, q: nat, p: nat, h: Parsed, res: nat)
    requires p == q + h.used
    requires res == MoveCount(Available(d, p), BUFFER_SIZE, Some(h.header.size))
    ensures PayloadAt(d, q, h) == Slice(d, p, res) && |Slice(d, p, res)| == res
  {
    assert res == Min(h.header.size, Available(d, p));
    SliceCap(d, p, h.header.size);
  }

  /** The bytes the copy of `read_into` writes for the header at q: nothing when it does not
      read back, otherwise what is there of its payload. */
  function CopiedAt(d: seq<byte>, q: nat, crcOn: bool, sm: nat): (r: seq<byte>)
    ensures forall checks: bool {:trigger ReadAt(d, q, crcOn, sm, checks)} ::
      ReadAt(d, q, crcOn, sm, checks).Success? ==> r == ReadAt(d, q, crcOn, sm, checks).value
  {
    match ParseHeader(Rest(d, q), crcOn, sm)
    case Failure(_) => []
    case Success(h) => PayloadAt(d, q, h)
  }

  /** The offset of the header `read_into` reads for target: a record's own offset, or the
      offset of the first record with the name once the whole walk succeeded. A walk that
      fails is ValueError, except for a name that does not decode. */
  function TargetOffset(d: seq<byte>, start: nat, n: nat, crcOn: bool, sm: nat, target: Target): (r: Result<nat>)
    ensures target.ByInfo? ==> r == Success(target.info.offset)
    ensures target.ByName? ==>
      var walk := ScanInfos(d, start + READ_OFFSET, n, crcOn, sm);
      (walk.Failure? ==> r == Failure(if walk.error == NameDecoding then NameDecoding else NotFound))
      && (walk.Success? ==>
            (r.Success? <==> exists i :: 0 <= i < |walk.value| && walk.value[i].name == target.name)
            && (r.Failure? ==> r.error == NotFound))
      && (r.Success? ==>
            exists i :: 0 <= i < |walk.value| && walk.value[i].name == target.name && r.value == walk.value[i].offset
                        && forall j :: 0 <= j < i ==> walk.value[j].name != target.name)
  {
    match target
    case ByInfo(info) => Success(info.offset)
    case ByName(name) =>
      match FileInfoNamed(ScanInfos(d, start + READ_OFFSET, n, crcOn, sm), name)
      case Failure(e) => Failure(e)
      case Success(info) => Success(info.offset)
  }

  /** `read(target)` on an archive whose stream holds d. */
  function ReadTarget(d: seq<byte>, start: nat, n: nat, crcOn: bool, sm: nat, checks: bool, target: Target)
    : (r: Result<seq<byte>>)
    ensures target.ByInfo? ==> r == ReadAt(d, target.info.offset, crcOn, sm, checks)
    ensures target.ByName? ==>
      var walk := ScanInfos(d, start + READ_OFFSET, n, crcOn, sm);
      (walk.Failure? ==> r == Failure(if walk.error == NameDecoding then NameDecoding else NotFound))
      && (walk.Success? && (forall i :: 0 <= i < |walk.value| ==> walk.value[i].name != target.name) ==> r == Failure(NotFound))
    ensures r.Failure? ==> (r.error == ShortRead || r.error == NameDecoding || r.error == BadSizeMode
                            || r.error == NotFound || r.error == Truncated || r.error == Integrity)
  {
    match TargetOffset(d, start, n, crcOn, sm, target)
    case Failure(e) => Failure(e)
    case Success(q) => ReadAt(d, q, crcOn, sm, checks)
  }

  /** The bytes `read_into(target, dest)` writes to dest: nothing when the lookup fails. */
  function Copied(d: seq<byte>, start: nat, n: nat, crcOn: bool, sm: nat, target: Target): (r: seq<byte>)
    ensures forall checks: bool {:trigger ReadTarget(d, start, n, crcOn, sm, checks, target)} ::
      ReadTarget(d, start, n, crcOn, sm, checks, target).Success? ==> r == ReadTarget(d, start, n, crcOn, sm, checks, target).value
  {
    match TargetOffset(d, start, n, crcOn, sm, target)
    case Failure(_) => []
    case Success(q) => CopiedAt(d, q, crcOn, sm)
  }

  /** `_write_hdr(name, crc, ds)` at the cursor of s: the fields written one after the
      other, up to the first that fails. */
  method WriteHeader(s: Stream, name: string, crcValue: int, ds: int, crcOn: bool, sm: nat)
    returns (r: Outcome, s': Stream)
    ensures var em := Emit(HeaderParts(name, crcValue, ds, crcOn, sm));
      s' == Stream(Overwrite(s.data, s.pos, em.bytes), s.pos + |em.bytes|)
      && r == if em.error.None? then Pass else Fail(em.error.value)
  {
    var em := Emit(HeaderParts(name, crcValue, ds, crcOn, sm));
    s' := Streams.Write(s, em.bytes);
    r := if em.error.None? then Pass else Fail(em.error.value);
  }

  /** The stream side of `append`: the header with a zero CRC goes at the end of s, the
      rest of src is copied behind it while its CRC is folded, and with CRCs on the CRC is
      patched into the header's CRC field, leaving the cursor behind that field. A header
      that cannot be encoded fails with the error of its encoding, after the bytes emitted
      before it. The record returned carries CRC 0 when CRCs are off. */
  method AppendEntry(s: Stream, name: string, src: Stream, crcOn: bool, sm: nat)
    returns (r: Result<FileInfo>, s': Stream, src': Stream)
    ensures var ds := |src.data| - src.pos;
      var e := Entry(name, Slice(src.data, src.pos, Available(src.data, src.pos)));
      var end := |s.data|;
      if HeaderValid(name, 0, ds, crcOn, sm) then
        ValidEntry(e, sm)
        && r == Success(FileInfo(name, ds, Some(if crcOn then PayloadCrc(e.payload) else 0),
                                 end, end + HeaderLength(name, crcOn, SizeWidth(sm).value)))
        && s'.data == s.data + EntryBytes(e, crcOn, sm)
        && s'.pos == (if crcOn then end + (BYTE + |name|) + DWORD else |s'.data|)
        && src' == src.(pos := |src.data|)
      else
        var em := Emit(HeaderParts(name, 0, ds, crcOn, sm));
        em.error.Some? && r == Failure(em.error.value) && s'.data == s.data + em.bytes && src' == src
  {
    ghost var d := s.data;
    var offset := |s.data|;
    var ds := |src.data| - src.pos;
    ghost var e := Entry(name, Slice(src.data, src.pos, Available(src.data, src.pos)));
    if HeaderValid(name, 0, ds, crcOn, sm) {
      HeaderEmits(name, 0, ds, crcOn, sm);
    } else {
      HeaderFails(name, 0, ds, crcOn, sm);
    }
    var o;
    o, s' := WriteHeader(s.(pos := offset), name, 0, ds, crcOn, sm);
    OverwriteAtEnd(d, Emit(HeaderParts(name, 0, ds, crcOn, sm)).bytes);
    if o.Fail? {
      return Failure(o.error), s', src;
    }
    var p := s'.pos;
    var count, acc;
    count, acc, s', src' := CopyIn(s', src, crcOn);
    assert count == ds;
    if crcOn {
      s' := PatchCrc(s', d, e, p, acc, sm);
    } else {
      PlainAppend(d, e, sm);
    }
    r := Success(FileInfo(name, ds, Some(acc as nat), offset, p));
  }

  /** The copy of `append`: the rest of src goes to the end of s, its CRC folded when
      crcOn. */
  method CopyIn(s: Stream, src: Stream, crcOn: bool) returns (count: nat, acc: bv32, s': Stream, src': Stream)
    requires s.pos == |s.data|
    ensures var payload := Slice(src.data, src.pos, Available(src.data, src.pos));
      count == |payload| && src' == src.(pos := src.pos + count)
      && s' == Stream(s.data + payload, |s.data| + count)
      && acc == if crcOn then Crc32(payload, 0) else 0
  {
    ghost var chunks;
    count, acc, src', s', chunks := MoveStream(src, s, BUFFER_SIZE, None, crcOn, 0);
    OverwriteAtEnd(s.data, Slice(src.data, src.pos, count));
  }

  /** The back-patch of `append`: the payload's CRC written into the CRC field of the
      header ending at p, which is DWORD plus the size field's width bytes before it. */
  method PatchCrc(s: Stream, ghost d: seq<byte>, ghost e: Entry, p: nat, acc: bv32, sm: nat) returns (s': Stream)
    requires ValidEntry(e, sm) && acc as nat == PayloadCrc(e.payload)
    requires s.data == d + ProvisionalHeader(e, true, sm) + e.payload
    requires p == |d| + |ProvisionalHeader(e, true, sm)|
    ensures s' == Stream(d + EntryBytes(e, true, sm), |d| + (BYTE + |e.name|) + DWORD)
  {
    var w := SizeWidth(sm).value;
    Pow256Values();
    s' := Streams.Write(s.(pos := PatchOffset(p, w) as nat), EncodeLE(acc as nat, DWORD));
    BackPatch(d, e, sm);
  }

  // ---------------------------------------------------------------------------------------
  // What an archive holding the entries es yields

  /** `file_infos` on an archive holding the entries es yields one record per entry, in
      append order: the entry's name and size, and the CRC of its payload when the archive
      carries CRCs (none otherwise). */
  lemma Enumerate(d: seq<byte>, start: nat, es: seq<Entry>, crcOn: bool, sm: nat)
    requires Image(d, start, es, crcOn, sm)
    ensures ScanInfos(d, start + READ_OFFSET, |es|, crcOn, sm) == Success(InfosOf(es, start + READ_OFFSET, crcOn, sm))
    ensures var infos := InfosOf(es, start + READ_OFFSET, crcOn, sm);
      |infos| == |es|
      && forall i :: 0 <= i < |es| ==>
           infos[i].name == es[i].name && infos[i].size == |es[i].payload|
           && infos[i].crc == (if crcOn then Some(PayloadCrc(es[i].payload)) else None)
  {
    var p := start + READ_OFFSET;
    assert Rest(d, p) == Entries(es, crcOn, sm) + [];
    ScanEntries(d, p, es, [], crcOn, sm);
    forall i | 0 <= i < |es|
      ensures InfosOf(es, p, crcOn, sm)[i].name == es[i].name
      ensures InfosOf(es, p, crcOn, sm)[i].size == |es[i].payload|
      ensures InfosOf(es, p, crcOn, sm)[i].crc == (if crcOn then Some(PayloadCrc(es[i].payload)) else None)
    {
      InfosFields(es, p, i, crcOn, sm);
    }
  }

  /** `file_info(name)` on an archive holding es, with k the index of the first entry named
      name (|es| when there is none): the record of entry k, or ValueError when no entry
      has the name. */
  lemma Lookup(d: seq<byte>, start: nat, es: seq<Entry>, crcOn: bool, sm: nat, name: string, k: nat)
    requires Image(d, start, es, crcOn, sm)
    requires k <= |es| && (k < |es| ==> es[k].name == name)
    requires forall j :: 0 <= j < k ==> es[j].name != name
    ensures var walk := ScanInfos(d, start + READ_OFFSET, |es|, crcOn, sm);
      k == |es| ==> FileInfoNamed(walk, name) == Failure(NotFound)
    ensures var walk := ScanInfos(d, start + READ_OFFSET, |es|, crcOn, sm);
      k < |es| ==> FileInfoNamed(walk, name) == Success(InfosOf(es, start + READ_OFFSET, crcOn, sm)[k])
  {
    var p := start + READ_OFFSET;
    Enumerate(d, start, es, crcOn, sm);
    var infos := InfosOf(es, p, crcOn, sm);
    assert FindName(infos, name) == k;
  }

  /** Reading entry k of an archive holding es by its record gives back exactly the payload
      appended, whatever the names, unless checks are on in an archive without CRCs, where
      the missing CRC fails the integrity check. */
  lemma ReadBackRecord(d: seq<byte>, start: nat, es: seq<Entry>, crcOn: bool, sm: nat, checks: bool, k: nat)
    requires Image(d, start, es, crcOn, sm) && k < |es|
    ensures ReadTarget(d, start, |es|, crcOn, sm, checks, ByInfo(InfosOf(es, start + READ_OFFSET, crcOn, sm)[k]))
            == if checks && !crcOn then Failure(Integrity) else Success(es[k].payload)
  {
    var p := start + READ_OFFSET;
    assert Rest(d, p) == Entries(es, crcOn, sm) + [];
    ReadStacked(d, p, es, [], k, crcOn, sm, checks);
  }

  /** Reading entry k of an archive holding es by its name, when no earlier entry has that
      name, gives back what reading it by its record does: exactly the payload appended,
      unless checks are on in an archive without CRCs. */
  lemma ReadBack(d: seq<byte>, start: nat, es: seq<Entry>, crcOn: bool, sm: nat, checks: bool, k: nat)
    requires Image(d, start, es, crcOn, sm) && k < |es|
    requires forall j :: 0 <= j < k ==> es[j].name != es[k].name
    ensures var want := if checks && !crcOn then Failure(Integrity) else Success(es[k].payload);
      ReadTarget(d, start, |es|, crcOn, sm, checks, ByName(es[k].name)) == want
      && ReadTarget(d, start, |es|, crcOn, sm, checks, ByInfo(InfosOf(es, start + READ_OFFSET, crcOn, sm)[k])) == want
  {
    Lookup(d, start, es, crcOn, sm, es[k].name, k);
    ReadBackRecord(d, start, es, crcOn, sm, checks, k);
  }

  /** An archive whose stream ends behind its signature while its file count says there
      are files: the walk's first length byte reads nothing (`IndexError`), which
      `file_info`'s `except` turns into ValueError, so every name is reported as not
      contained and `read` by name fails the same way. */
  lemma TruncatedNotContained(d: seq<byte>, start: nat, n: nat, crcOn: bool, sm: nat, checks: bool, name: string)
    requires |d| <= start + READ_OFFSET && 1 <= n
    ensures ScanInfos(d, start + READ_OFFSET, n, crcOn, sm) == Failure(ShortRead)
    ensures TargetOffset(d, start, n, crcOn, sm, ByName(name)) == Failure(NotFound)
    ensures ReadTarget(d, start, n, crcOn, sm, checks, ByName(name)) == Failure(NotFound)
  {
    var p := start + READ_OFFSET;
    assert Rest(d, p) == [];
    assert ParseHeader(Rest(d, p), crcOn, sm) == Failure(ShortRead);
  }

  class StaticArchive {
    /** The stream the archive lives in, with its cursor. */
    var stream: Stream
    const mode: Mode
    /** Where the signature starts: the stream's cursor when the archive was opened. */
    const startOffset: nat
    var sizeMode: nat
    var crc: bool
    /** Whether reads verify the magic and the stored CRCs. */
    var checks: bool
    var fileCount: nat
    var generalPurpose: int

    /** The state `__init__` sets up before the signature is handled. */
    constructor (s: Stream, mode: Mode, sizeMode: nat, writeCrc: bool, checks: bool)
      ensures stream == s && this.mode == mode && startOffset == s.pos
      ensures this.sizeMode == sizeMode && crc == writeCrc && this.checks == checks
      ensures fileCount == 0 && generalPurpose == 0
    {
      stream := s;
      this.mode := mode;
      startOffset := s.pos;
      this.sizeMode := sizeMode;
      crc := writeCrc;
      this.checks := checks;
      fileCount := 0;
      generalPurpose := 0;
    }

    /** The signature the object would write now. */
    function Sig(): Signature
      reads this
    {
      Signature(generalPurpose, fileCount, sizeMode, crc)
    }

    /** The stream holds an archive at the start offset whose entries are es, and the file
        count says so. */
    ghost predicate Holds(es: seq<Entry>)
      reads this
    {
      fileCount == |es| && Image(stream.data, startOffset, es, crc, sizeMode)
    }

    /** `writeable`: every mode but 'r'. */
    function Writeable(): (r: bool)
      ensures r <==> mode == Writing || mode == Appending
    {
      mode != Reading
    }

    /** `max_filesize`: the largest payload the size mode's field holds, IndexError past
        mode 2. */
    function MaxFileSize(): (r: Option<nat>)
      reads this
      ensures r.Some? <==> sizeMode <= 2
      ensures r.Some? ==> r.value == Pow256(SizeWidth(sizeMode).value) - 1
      ensures r.Some? ==> forall ds: int {:trigger Encode(ds, SizeWidth(sizeMode).value)} ::
        Encode(ds, SizeWidth(sizeMode).value).Success? <==> 0 <= ds <= r.value
    {
      MaxFileSizeMatchesWidth(sizeMode, 0);
      Pow256Values();
      Codec.MaxFileSize(sizeMode)
    }

    /** `__init__` on a stream: in modes 'r' and 'a' the signature at the cursor is checked
        (with checks on) and loaded, replacing the size mode and CRC flag given; in mode 'w'
        a signature with no files is written there. */
    static method Open(s: Stream, mode: Mode, sizeMode: nat, writeCrc: bool, checks: bool)
      returns (r: Result<StaticArchive>)
      ensures r.Success? ==> fresh(r.value)
      ensures r.Success? ==> r.value.mode == mode && r.value.startOffset == s.pos && r.value.checks == checks
      ensures mode != Writing ==>
        var sig := ParseSignature(Rest(s.data, s.pos), checks);
        (r.Success? <==> sig.Success?)
        && (r.Success? ==> r.value.stream == s && r.value.Sig() == sig.value)
        && (r.Failure? ==> r.error == sig.error)
      ensures mode == Writing ==>
        var sig := Signature(0, 0, sizeMode, writeCrc);
        (r.Success? <==> Encodable(sig))
        && (r.Success? ==>
              r.value.Sig() == sig && r.value.stream == Stream(Overwrite(s.data, s.pos, SignatureBytes(sig)), s.pos))
        && (r.Failure? ==> r.error == Overflow)
      ensures mode == Writing && r.Success? && |s.data| <= s.pos + READ_OFFSET ==> r.value.Holds([])
    {
      var a := new StaticArchive(s, mode, sizeMode, writeCrc, checks);
      if mode == Writing {
        if Encodable(a.Sig()) {
          SignatureEmits(a.Sig());
        } else {
          SignatureOverflows(a.Sig());
        }
        var o := a.WriteSignature();
        if o.Fail? {
          return Failure(o.error);
        }
        if |s.data| <= s.pos + READ_OFFSET {
          FreshImage(s.data, s.pos, writeCrc, sizeMode, SignatureBytes(a.Sig()));
        }
      } else {
        if checks {
          var ok := a.CheckSignature();
          if !ok {
            return Failure(FormatError);
          }
        }
        var o := a.LoadSignature();
        if o.Fail? {
          return Failure(o.error);
        }
      }
      r := Success(a);
    }

    /** `_check_sig`: whether the magic is at the start offset; the cursor is put back. */
    method CheckSignature() returns (b: bool)
      modifies this`stream
      ensures b == HasMagic(Rest(stream.data, startOffset))
      ensures stream == old(stream)
    {
      var p := stream.pos;
      var magic;
      stream, magic := Streams.Read(stream.(pos := startOffset), |MAGIC|);
      SliceRest(stream.data, startOffset, |MAGIC|);
      b := magic == MAGIC;
      stream := stream.(pos := p);
    }

    /** `_load_sig`: with checks on the magic is checked again, then the fields are read
        from behind it; on success they replace the object's. The cursor is put back. */
    method LoadSignature() returns (r: Outcome)
      modifies this`stream, this`generalPurpose, this`fileCount, this`sizeMode, this`crc
      ensures stream == old(stream)
      ensures var sig := ParseSignature(Rest(stream.data, startOffset), checks);
        (r.Pass? <==> sig.Success?)
        && (r.Pass? ==> Sig() == sig.value)
        && (r.Fail? ==> r.error == sig.error)
    {
      if checks {
        var ok := CheckSignature();
        if !ok {
          return Fail(FormatError);
        }
        CheckedSignature(Rest(stream.data, startOffset));
      }
      var sig := ReadSignature(stream, startOffset);
      if sig.Failure? {
        return Fail(sig.error);
      }
      generalPurpose, fileCount := sig.value.generalPurpose, sig.value.fileCount;
      sizeMode, crc := sig.value.sizeMode, sig.value.crc;
      r := Pass;
    }

    /** `_write_sig`: the signature's fields written one after the other at the start
        offset, up to the first that does not fit (OverflowError); on success the cursor is
        put back. */
    method WriteSignature() returns (r: Outcome)
      modifies this`stream
      ensures var em := Emit(SignatureParts(Sig()));
        stream.data == Overwrite(old(stream).data, startOffset, em.bytes)
        && (em.error.None? ==> r == Pass && stream.pos == old(stream).pos)
        && (em.error.Some? ==> r == Fail(em.error.value) && stream.pos == startOffset + |em.bytes|)
    {
      var p := stream.pos;
      var em := Emit(SignatureParts(Sig()));
      stream := Streams.Write(stream.(pos := startOffset), em.bytes);
      if em.error.Some? {
        return Fail(em.error.value);
      }
      stream := stream.(pos := p);
      r := Pass;
    }

    /** `append(name, data)` with data the stream src: refused in mode 'r'; otherwise the
        entry goes at the end of the stream as `AppendEntry` writes it and the file count
        goes up by one. Every archive whose entries were es holds es + [the new entry]
        afterwards. */
    method Append(name: string, src: Stream, ghost es: seq<Entry>) returns (r: Result<FileInfo>, src': Stream)
      modifies this`stream, this`fileCount
      ensures !Writeable() ==> r == Failure(ModeViolation) && src' == src && stream == old(stream)
                               && fileCount == old(fileCount)
      ensures Writeable() && HeaderValid(name, 0, |src.data| - src.pos, crc, sizeMode) ==>
        var e := Entry(name, Slice(src.data, src.pos, Available(src.data, src.pos)));
        var end := |old(stream).data|;
        ValidEntry(e, sizeMode)
        && r == Success(FileInfo(name, |src.data| - src.pos, Some(if crc then PayloadCrc(e.payload) else 0),
                                 end, end + HeaderLength(name, crc, SizeWidth(sizeMode).value)))
        && stream.data == old(stream).data + EntryBytes(e, crc, sizeMode)
        && stream.pos == (if crc then end + (BYTE + |name|) + DWORD else |stream.data|)
        && fileCount == old(fileCount) + 1 && src' == src.(pos := |src.data|)
      ensures Writeable() && HeaderValid(name, 0, |src.data| - src.pos, crc, sizeMode) && old(Holds(es)) ==>
        Holds(es + [Entry(name, Slice(src.data, src.pos, Available(src.data, src.pos)))])
      ensures Writeable() && !HeaderValid(name, 0, |src.data| - src.pos, crc, sizeMode) ==>
        var em := Emit(HeaderParts(name, 0, |src.data| - src.pos, crc, sizeMode));
        em.error.Some? && r == Failure(em.error.value) && stream.data == old(stream).data + em.bytes
        && fileCount == old(fileCount) && src' == src
    {
      if mode == Reading {
        return Failure(ModeViolation), src;
      }
      ghost var d := stream.data;
      ghost var e := Entry(name, Slice(src.data, src.pos, Available(src.data, src.pos)));
      r, stream, src' := AppendEntry(stream, name, src, crc, sizeMode);
      if r.Success? {
        fileCount := fileCount + 1;
        if old(Holds(es)) {
          AppendImage(d, startOffset, es, e, crc, sizeMode);
        }
      }
    }

    /** `append(name, data)` with data raw bytes, which `append` wraps in a fresh in-memory
        stream: refused in mode 'r'; otherwise the entry (name, data) is stored at the end of
        the stream with its CRC when the archive carries CRCs, the file count goes up by one,
        and an archive that held es holds es + [(name, data)]. */
    method AppendBytes(name: string, data: seq<byte>, ghost es: seq<Entry>) returns (r: Result<FileInfo>)
      modifies this`stream, this`fileCount
      ensures !Writeable() ==> r == Failure(ModeViolation) && stream == old(stream) && fileCount == old(fileCount)
      ensures Writeable() && HeaderValid(name, 0, |data|, crc, sizeMode) ==>
        var end := |old(stream).data|;
        ValidEntry(Entry(name, data), sizeMode)
        && r == Success(FileInfo(name, |data|, Some(if crc then PayloadCrc(data) else 0),
                                 end, end + HeaderLength(name, crc, SizeWidth(sizeMode).value)))
        && stream.data == old(stream).data + EntryBytes(Entry(name, data), crc, sizeMode)
        && fileCount == old(fileCount) + 1
      ensures Writeable() && HeaderValid(name, 0, |data|, crc, sizeMode) && old(Holds(es)) ==>
        Holds(es + [Entry(name, data)])
      ensures Writeable() && !HeaderValid(name, 0, |data|, crc, sizeMode) ==>
        var em := Emit(HeaderParts(name, 0, |data|, crc, sizeMode));
        em.error.Some? && r == Failure(em.error.value) && stream.data == old(stream).data + em.bytes
        && fileCount == old(fileCount)
    {
      var src := Stream(data, 0);
      assert Slice(data, 0, Available(data, 0)) == data;
      var rest;
      r, rest := Append(name, src, es);
    }

    /** `file_infos`: from behind the signature, `fileCount` headers are read one after the
        other, each payload skipped with a relative seek; a failed header ends the walk. */
    method FileInfos() returns (r: Result<seq<FileInfo>>)
      modifies this`stream
      ensures r == ScanInfos(old(stream).data, startOffset + READ_OFFSET, fileCount, crc, sizeMode)
      ensures stream.data == old(stream).data
    {
      var d, p, n := stream.data, startOffset + READ_OFFSET, fileCount;
      var t;
      r, t := Walk(Stream(d, p), n, crc, sizeMode);
      stream := t;
    }

    /** `file_info(name)`: the whole walk, then its first record with the name; a failed
        walk fails, and no match is ValueError. */
    method FileInfoOf(name: string) returns (r: Result<FileInfo>)
      modifies this`stream
      ensures r == FileInfoNamed(ScanInfos(old(stream).data, startOffset + READ_OFFSET, fileCount, crc, sizeMode), name)
      ensures stream.data == old(stream).data
    {
      var walk := FileInfos();
      r := FileInfoNamed(walk, name);
    }

    /** `file_names`: the names of the walk's records, in order. */
    method FileNames() returns (r: Result<seq<string>>)
      modifies this`stream
      ensures var walk := ScanInfos(old(stream).data, startOffset + READ_OFFSET, fileCount, crc, sizeMode);
        (r.Success? <==> walk.Success?)
        && (r.Failure? ==> r.error == walk.error)
        && (r.Success? ==>
              |r.value| == |walk.value| && forall i :: 0 <= i < |r.value| ==> r.value[i] == walk.value[i].name)
      ensures stream.data == old(stream).data
    {
      var walk := FileInfos();
      if walk.Failure? {
        return Failure(walk.error);
      }
      var infos := walk.value;
      var names: seq<string> := [];
      var i := 0;
      while i < |infos|
        invariant i <= |infos| && |names| == i
        invariant forall j :: 0 <= j < i ==> names[j] == infos[j].name
      {
        names := names + [infos[i].name];
        i := i + 1;
      }
      r := Success(names);
    }

    /** `read_into(target, dest)`: after the lookup a name needs, the file at the record's
        offset is copied to dest and checked. Returns the number of bytes copied. */
    method ReadInto(target: Target, dest: Stream) returns (r: Result<nat>, dest': Stream)
      modifies this`stream
      ensures var want := ReadTarget(old(stream).data, startOffset, fileCount, crc, sizeMode, checks, target);
        (r.Success? <==> want.Success?)
        && (r.Success? ==> r.value == |want.value|)
        && (r.Failure? ==> r.error == want.error)
      ensures var c := Copied(old(stream).data, startOffset, fileCount, crc, sizeMode, target);
        dest' == Stream(Overwrite(dest.data, dest.pos, c), dest.pos + |c|)
      ensures stream.data == old(stream).data
    {
      var q: nat;
      match target {
        case ByInfo(info) =>
          q := info.offset;
        case ByName(name) =>
          var found := FileInfoOf(name);
          if found.Failure? {
            return Failure(found.error), dest;
          }
          q := found.value.offset;
      }
      r, stream, dest' := CopyOut(stream.(pos := q), dest, crc, sizeMode, checks);
    }

    /** `read(target)`: `read_into` a fresh in-memory buffer, whose contents are returned. */
    method Read(target: Target) returns (r: Result<seq<byte>>)
      modifies this`stream
      ensures r == ReadTarget(old(stream).data, startOffset, fileCount, crc, sizeMode, checks, target)
      ensures stream.data == old(stream).data
    {
      ghost var c := Copied(stream.data, startOffset, fileCount, crc, sizeMode, target);
      ghost var want := ReadTarget(stream.data, startOffset, fileCount, crc, sizeMode, checks, target);
      var buffer := Stream([], 0);
      var n;
      n, buffer := ReadInto(target, buffer);
      OverwriteAtEnd([], c);
      assert buffer.data == c;
      if n.Failure? {
        return Failure(n.error);
      }
      assert c == want.value;
      r := Success(buffer.data);
    }

    /** `flush`: in a writeable archive the signature is written again. An image the
        archive held stays held, and the signature then loads back as the object's. */
    method Flush(ghost es: seq<Entry>) returns (r: Outcome)
      modifies this`stream
      ensures !Writeable() ==> r == Pass && stream == old(stream)
      ensures Writeable() ==>
        var em := Emit(SignatureParts(Sig()));
        stream.data == Overwrite(old(stream).data, startOffset, em.bytes)
        && (em.error.None? ==> r == Pass && stream.pos == old(stream).pos)
        && (em.error.Some? ==> r == Fail(em.error.value))
      ensures Writeable() && Encodable(Sig()) ==>
        ParseSignature(Rest(stream.data, startOffset), checks) == Success(Sig())
        && (old(Holds(es)) ==> Holds(es))
    {
      if mode == Reading {
        return Pass;
      }
      ghost var d := stream.data;
      if Encodable(Sig()) {
        SignatureEmits(Sig());
        SignatureWritten(d, startOffset, Sig(), checks);
        if Holds(es) {
          SignatureKeepsImage(d, startOffset, es, crc, sizeMode, SignatureBytes(Sig()));
        }
      }
      r := WriteSignature();
    }
  }
}
