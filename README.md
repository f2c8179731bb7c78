# StaticArchive in Dafny

A verified model of the stacked-archive container of `StaticArchive/Python/static.py`: a flat
binary format that stores files one after another behind a 22-byte signature, for long-term
storage rather than random access.

The archive lives in a seekable byte stream, modelled as a value `Stream(data, pos)` with the
semantics of an in-memory binary stream: a read returns at most what is left and moves the
cursor past it, a write overwrites from the cursor (zero-filling any gap past the end) and
moves the cursor behind what it wrote.

- `codec.dfy` (`Codec`): fixed-width little-endian unsigned integers (`_encode`/`_decode`),
  the size-mode widths of `CONV_MODE` (2/4/8 bytes) and the capacities of `max_filesize`.
  Encoding a value that does not fit is an `Overflow` error, as `int.to_bytes` raises
  `OverflowError`; it never truncates.
- `crc32.dfy` (`Crc`): CRC-32 as `zlib.crc32(data, value)` computes it (reflected polynomial
  0xEDB88320, complemented preset and result), with the chunking law
  `crc(a + b, c) == crc(b, crc(a, c))`.
- `streams.dfy` (`Streams`): the stream and the chunked copier `_move_stream`, a `while` loop
  proved to move exactly `min(total, available)` bytes (all available bytes without a cap),
  to write them at the destination's cursor, to hand the callback non-empty chunks of at most
  `chunk_size` bytes that concatenate to the bytes moved, and to fold their CRC into the CRC
  of the whole run.
- `layout.dfy` (`Layout`): the byte layouts as pure encoders and decoders: the signature
  (magic, u32 general-purpose field, u64 file count, size-mode byte, CRC byte), the entry
  header (1-byte name length, ASCII name, u32 CRC when the archive carries CRCs, data size in
  the size mode's width), stacked entries, the walk of `file_infos`, lookup, and the checks
  of `read_into`. `Image(d, start, es, crc, sm)` says that the buffer `d` holds an archive at
  `start` whose entries are exactly `es`.
- `archive.dfy` (`Archive`): the engine. `StaticArchive` is a class whose fields (the stream,
  the file count, the size mode, the CRC flag, the general-purpose field) its methods update
  in place; `Open` is `__init__` on a stream. `Holds(es)` ties the object to `Image`, and
  `Append` keeps it: an archive that held `es` holds `es + [new entry]`. `Append` writes the
  payload's CRC at the header's CRC field, the corrected offset of the back-patch listed
  under "## Findings"; as written, the source writes it there only in size mode m64.
  `Enumerate`, `Lookup` and `ReadBack` state what `file_infos`, `file_info` and `read` give
  on an archive that holds `es`.
- `results.dfy` (`Results`): `Option`, `Result` and the error kinds that stand for the
  exceptions the core raises.

Behaviours of the source kept as written:

- The mode byte of a loaded signature is not validated; any value up to 255 loads, and the
  first header read, `max_filesize` and `append` then fail (`BadSizeMode`, the source's
  `IndexError`); `append` fails after the length byte, the name and, with CRCs, the CRC field
  were written (`WriteHeader`, `AppendEntry`).
- In modes `'r'` and `'a'` the size mode and CRC flag given to the constructor are replaced
  by the loaded signature (`Open`).
- With checks on, `read_into` on an archive without CRCs compares the missing CRC with the
  computed one and always fails (`ReadEntryAt`, `ReadBack`).
- The name length is one byte, so a name of 256 characters or more fails with `Overflow`
  before anything is written (`HeaderFails`).
- `append` on a payload whose size does not fit the size mode's field fails with `Overflow`
  after the length byte, the name and, with CRCs, the zero CRC field were written; no size
  field or payload follows (`WriteHeader`, `AppendEntry`). A payload of exactly
  `max_filesize` bytes is accepted (`MaxFileSizeMatchesWidth`, `HeaderValid`).
- `file_info` runs the whole walk inside its `except IndexError`, so a walk that hits an
  empty length byte (`ShortRead`) or a size mode past `CONV_MODE` (`BadSizeMode`) reports
  the name as not contained (`NotFound`, the source's `ValueError`); only a name that does
  not decode keeps its own error (`FileInfoNamed`, `TruncatedNotContained`). Reading by
  record runs no walk and keeps those errors.

`int.to_bytes` raises `OverflowError` for a value that does not fit its width, and the model
keeps that error rather than truncating the field.

## Model

| member | source | states |
|---|---|---|
| `Codec.Encode` | StaticArchive/Python/static.py:58 | succeeds exactly when `0 <= x < 256^t`, then gives `t` bytes that decode to `x`; otherwise `Overflow` |
| `Codec.DecodeEncode` | StaticArchive/Python/static.py:58-59 | decoding the `t`-byte encoding of `x` gives `x` |
| `Codec.EncodeDecode` | StaticArchive/Python/static.py:58-59 | encoding a decoded byte string at its own width gives it back |
| `Codec.EncodeInjective` | StaticArchive/Python/static.py:58 | two values with the same encoding are equal |
| `Codec.DecodeLE` | StaticArchive/Python/static.py:59 | a decoded `t`-byte string is below `256^t` |
| `Codec.ConvMode` | StaticArchive/Python/static.py:65 | the data-size width is defined exactly for size modes 0, 1, 2 |
| `Codec.MaxFileSizeMatchesWidth` | StaticArchive/Python/static.py:493-500 | `max_filesize` is `256^width - 1` for the mode's width, and a size encodes exactly when it is between 0 and `max_filesize` |
| `Crc.Chunking` | StaticArchive/Python/static.py:283-285 | folding `zlib.crc32` chunk by chunk gives the CRC of the concatenation |
| `Crc.ZeroByteCheck` | StaticArchive/Python/static.py:285 | `crc32(b"\x00", 0) == 0xD202EF8D`, zlib's value |
| `Streams.MoveChunk` | StaticArchive/Python/static.py:72-85 | one round reads at most `ns` bytes from where the copy stands and, if any came, writes them and folds their CRC |
| `Streams.MoveLoop` | StaticArchive/Python/static.py:70-86 | the loop ends having moved `MoveCount` bytes, the source cursor advanced by that count, the destination written, the CRC folded and the callback given chunks of at most `chunk_size` bytes that concatenate to the bytes moved |
| `Streams.MoveCountDone` | StaticArchive/Python/static.py:76-77 | an empty read ends the copy exactly when `min(total, available)` (or everything available) has been moved |
| `Streams.MoveStream` | StaticArchive/Python/static.py:69-86 | `_move_stream` returns `min(total, available)` (all available without a cap, 0 for a zero chunk size), the destination receives exactly that prefix of the source at its cursor, and the folded CRC is the CRC of that prefix |
| `Layout.EncodeName` | StaticArchive/Python/static.py:250 | the name encodes exactly when it is ASCII, else `NameEncoding` |
| `Layout.DecodeName` | StaticArchive/Python/static.py:239 | stored name bytes decode exactly when they are ASCII, else `NameDecoding` |
| `Layout.NameRoundTrip` | StaticArchive/Python/static.py:239-250 | an ASCII name decodes back from its encoding |
| `Layout.BytesRoundTrip` | StaticArchive/Python/static.py:239-250 | ASCII bytes encode back from their decoding |
| `Layout.SignatureEmits` | StaticArchive/Python/static.py:227-234 | when every field fits, `_write_sig` writes the 22 bytes magic, LE32 general-purpose, LE64 count, mode byte, CRC byte |
| `Layout.SignatureOverflows` | StaticArchive/Python/static.py:227-234 | a field that does not fit stops `_write_sig` with `Overflow` |
| `Layout.ParseSignature` | StaticArchive/Python/static.py:217-225 | `_load_sig` gives encodable fields, and fails exactly on a missing magic with checks on (`FormatError`) or a read too short for the mode and CRC bytes (`ShortRead`) |
| `Layout.SignatureRoundTrip` | StaticArchive/Python/static.py:217-234 | loading a written signature gives back its fields, with or without checks, whatever follows it |
| `Layout.SignatureRewrite` | StaticArchive/Python/static.py:217-234 | write, load, write again: the second write leaves the stream's bytes identical |
| `Layout.FlushIdempotent` | StaticArchive/Python/static.py:456-459 | writing the signature twice leaves what writing it once does |
| `Layout.SizeWidth` | StaticArchive/Python/static.py:245 | `CONV_MODE[size_mode]` is defined for modes up to 2 and fails with `BadSizeMode` past them |
| `Layout.HeaderEmits` | StaticArchive/Python/static.py:248-255 | a header whose fields fit is written whole, `1 + len(name) + (4 if crc) + width` bytes |
| `Layout.HeaderFails` | StaticArchive/Python/static.py:248-255 | a header with a field that does not fit fails; a name of 256 or more characters writes nothing, a non-ASCII name writes only its length byte |
| `Layout.ParseHeader` | StaticArchive/Python/static.py:237-246 | `_read_hdr` yields an ASCII name under 256 characters, a CRC exactly when the archive carries CRCs, and consumes at most what is left; its errors are `ShortRead`, `NameDecoding`, `BadSizeMode` |
| `Layout.HeaderRoundTrip` | StaticArchive/Python/static.py:237-255 | after `_write_hdr(name, crc, ds)`, `_read_hdr` returns `(name, crc if CRCs else None, ds)` in every size mode, taking exactly the header's length |
| `Layout.PayloadCrc` | StaticArchive/Python/static.py:280-285 | the stored CRC of a payload is a 32-bit value |
| `Layout.ScanInfos` | StaticArchive/Python/static.py:430-440 | a successful walk of `k` files yields `k` records |
| `Layout.InfosFields` | StaticArchive/Python/static.py:430-440 | record `i` of stacked entries carries entry `i`'s name, size and, with CRCs, its payload's CRC |
| `Layout.ScanEntries` | StaticArchive/Python/static.py:430-440 | walking stacked entries succeeds and yields their records in order |
| `Layout.FindName` | StaticArchive/Python/static.py:426 | the index found is that of the first record with the name, or the length when none has it |
| `Layout.FileInfoNamed` | StaticArchive/Python/static.py:420-428 | `file_info` gives the first matching record and `NotFound` when none matches; a walk failing with `ShortRead` or `BadSizeMode` (`IndexError`) is also `NotFound`, the `except IndexError` turning it into `ValueError`; a walk failing with `NameDecoding` keeps that error |
| `Layout.Verdict` | StaticArchive/Python/static.py:316-320 | the copy is accepted exactly when it has the header's size and, with checks on, the stored CRC equals the copy's CRC |
| `Layout.ReadEntryAt` | StaticArchive/Python/static.py:303-322 | an entry reads back as its payload, except with checks on in an archive without CRCs, which always fails |
| `Layout.ReadStacked` | StaticArchive/Python/static.py:303-322 | every stacked entry reads back from its record's offset |
| `Layout.PatchOffsetsAgree` | StaticArchive/Python/static.py:291 | the as-written patch offset equals the CRC field's offset exactly in size mode m64 |
| `Layout.BackPatch` | StaticArchive/Python/static.py:290-292 | patching the CRC into the provisional header's CRC field stores exactly the entry with its payload's CRC |
| `Layout.AsWrittenM64` | StaticArchive/Python/static.py:291 | in size mode m64 the as-written patch is the correct one |
| `Layout.AsWrittenM32` | StaticArchive/Python/static.py:291 | in size mode m32 the as-written patch writes the CRC over the last four name bytes and leaves the CRC field zero |
| `Layout.AsWrittenPatchCorruptsM32` | StaticArchive/Python/static.py:291 | appending `("test", b"\x00")` to an m32 archive with CRCs as written leaves a header that no longer reads back |
| `Layout.AppendImage` | StaticArchive/Python/static.py:257-295 | an archive holding `es` with one more entry's bytes behind it holds `es + [e]` |
| `Layout.SignatureKeepsImage` | StaticArchive/Python/static.py:227-234 | rewriting the signature keeps the stream's length and its entries |
| `Layout.FreshImage` | StaticArchive/Python/static.py:207-208 | a signature written over a stream that ends within its slot leaves an archive with no entries |
| `Layout.SignatureWritten` | StaticArchive/Python/static.py:227-234 | a signature written at the start offset loads back from there |
| `Layout.LoadedImage` | StaticArchive/Python/static.py:203-206 | a stream holding a signature followed by entries loads that signature and holds those entries |
| `Archive.IsArchive` | StaticArchive/Python/static.py:146-147 | `is_archive` on a stream is true exactly when the next bytes are the magic, and moves the cursor past what it read |
| `Archive.ReadName` | StaticArchive/Python/static.py:238-239 | reads the length byte and the name as `ParseName` describes, moving the cursor past them |
| `Archive.ReadFields` | StaticArchive/Python/static.py:241-245 | reads the CRC and size fields as `ParseFields` describes, moving the cursor past them |
| `Archive.ReadHeader` | StaticArchive/Python/static.py:237-246 | `_read_hdr` on the stream gives `ParseHeader` of what is left and leaves the cursor behind the header |
| `Archive.ReadSignature` | StaticArchive/Python/static.py:221-225 | the field reads of `_load_sig` give `ParseSignature` of the bytes at the start offset |
| `Archive.CheckedSignature` | StaticArchive/Python/static.py:219-220 | once the magic is there, loading with checks gives what loading without them does |
| `Archive.Walk` | StaticArchive/Python/static.py:432-440 | the loop of `file_infos` gives `ScanInfos` from the cursor |
| `Archive.WalkOne` | StaticArchive/Python/static.py:435-440 | one round of the loop: a header that does not read back ends the whole walk with its error; otherwise the whole walk is the records so far, this header's record, then the walk of the files left from behind its payload |
| `Archive.TargetOffset` | StaticArchive/Python/static.py:305-308 | a record is read at its own offset; a name runs the whole walk first, fails with `NameDecoding` when the walk does and with `NotFound` when the walk fails otherwise, fails with `NotFound` exactly when a successful walk has no record with the name, and otherwise gives the offset of the first record with it |
| `Archive.ReadTarget` | StaticArchive/Python/static.py:303-320 | a record is read at its own offset with no walk; a name fails with `NameDecoding` when the walk does, with `NotFound` when the walk fails otherwise (the `except IndexError`) or has no record with the name; every failure is a header, lookup, size or CRC error |
| `Archive.CopyOut` | StaticArchive/Python/static.py:308-320 | `read_into` at a header offset succeeds exactly when `ReadAt` does, returns the payload's length, and writes the copied bytes to the destination |
| `Archive.CopiedAt` | StaticArchive/Python/static.py:308-316 | on a successful read the bytes copied are the bytes read |
| `Archive.Copied` | StaticArchive/Python/static.py:303-316 | on a successful `read_into(target)` the bytes copied are the bytes read |
| `Archive.WriteHeader` | StaticArchive/Python/static.py:248-255 | `_write_hdr` writes the header's fields at the cursor up to the first that fails |
| `Archive.AppendEntry` | StaticArchive/Python/static.py:268-295 | the entry goes at the end of the stream with its payload's CRC patched in at the header's CRC field (the corrected offset of the Findings row; the source's offset agrees only in m64), the record returned is `(name, size, crc, old_end, old_end + header_len)`, and a header that cannot be encoded fails after the bytes emitted before it |
| `Archive.CopyIn` | StaticArchive/Python/static.py:280-288 | the rest of the source is appended to the archive stream and its CRC folded from 0 |
| `Archive.PatchCrc` | StaticArchive/Python/static.py:290-292 | the CRC written at `p - (4 + width)`, the header's CRC field, turns the provisional entry into the stored one; this is the corrected offset of the Findings row, which the source's `p - (4 + 8)` matches only in m64 |
| `Archive.Enumerate` | StaticArchive/Python/static.py:430-440 | on an archive holding `es`, `file_infos` yields one record per entry in append order with its name, size and, with CRCs, `crc32(payload)` |
| `Archive.Lookup` | StaticArchive/Python/static.py:420-428 | on an archive holding `es`, `file_info(name)` gives the record of the first entry with the name, `NotFound` when none has it |
| `Archive.ReadBackRecord` | StaticArchive/Python/static.py:303-322 | on an archive holding `es`, `read(file_info)` of any entry's record gives exactly the payload appended (failing only with checks on and no CRCs), whatever the names |
| `Archive.ReadBack` | StaticArchive/Python/static.py:297-322 | on an archive holding `es`, `read(name)` of an entry that no earlier entry shares its name with gives exactly the payload appended, as `read(file_info)` does (failing only with checks on and no CRCs) |
| `Archive.TruncatedNotContained` | StaticArchive/Python/static.py:420-428 | with `file_count` at least 1 and nothing behind the signature, the walk fails on its first length byte and `file_info(name)` and `read(name)` report `NotFound` (`ValueError`) for every name |
| `Archive.StaticArchive.constructor` | StaticArchive/Python/static.py:172-201 | the state `__init__` sets up: the stream, the mode, the start offset at the cursor, count and general-purpose field 0 |
| `Archive.StaticArchive.Writeable` | StaticArchive/Python/static.py:452-454 | true exactly in modes `'w'` and `'a'`; `Append` and `Flush` state what each mode does |
| `Archive.StaticArchive.MaxFileSize` | StaticArchive/Python/static.py:493-500 | defined exactly for size modes up to 2, where it is the largest size the mode's field encodes |
| `Archive.StaticArchive.Open` | StaticArchive/Python/static.py:167-208 | modes `'r'`/`'a'` load the signature (replacing the given size mode and CRC flag) or fail as loading fails; mode `'w'` writes a signature with no files, leaving an empty archive on a stream that ends within the signature |
| `Archive.StaticArchive.CheckSignature` | StaticArchive/Python/static.py:211-215 | `_check_sig` tells whether the magic is at the start offset and leaves the stream, cursor included, as it was |
| `Archive.StaticArchive.LoadSignature` | StaticArchive/Python/static.py:217-225 | `_load_sig` sets the fields from the signature or fails as `ParseSignature` does; the stream and cursor are unchanged |
| `Archive.StaticArchive.WriteSignature` | StaticArchive/Python/static.py:227-234 | `_write_sig` writes the signature fields at the start offset up to the first that fails and, on success, restores the cursor |
| `Archive.StaticArchive.Append` | StaticArchive/Python/static.py:257-295 | mode `'r'` fails with `ModeViolation` and changes nothing; otherwise the entry is added behind the old end, the old bytes are kept, the count goes up by exactly one and the record is returned; an archive holding `es` holds `es + [e]`, with the CRC back-patch at the corrected offset of the Findings row (the source's offset keeps this only in m64 or without CRCs) |
| `Archive.StaticArchive.AppendBytes` | StaticArchive/Python/static.py:269-270 | `append` of raw bytes stores the entry `(name, data)` as `Append` does |
| `Archive.StaticArchive.FileInfos` | StaticArchive/Python/static.py:430-440 | `file_infos` walks `file_count` headers from behind the signature without changing the stream's bytes |
| `Archive.StaticArchive.FileInfoOf` | StaticArchive/Python/static.py:420-428 | `file_info` gives `FileInfoNamed` of the walk: the first record with the name, else `NotFound`, a walk's `IndexError` also being `NotFound` |
| `Archive.StaticArchive.FileNames` | StaticArchive/Python/static.py:442-445 | `file_names` gives the walk's names in order, or the walk's error |
| `Archive.StaticArchive.ReadInto` | StaticArchive/Python/static.py:303-322 | `read_into` succeeds exactly when `ReadTarget` does, fails with its error (a failed name lookup being `NotFound` or `NameDecoding`), returns the payload's length and writes the payload to the destination |
| `Archive.StaticArchive.Read` | StaticArchive/Python/static.py:297-301 | `read` returns `ReadTarget`: the bytes `read_into` put in a fresh buffer |
| `Archive.StaticArchive.Flush` | StaticArchive/Python/static.py:456-459 | in mode `'r'` nothing changes; otherwise the signature is rewritten, loads back as the object's and the entries are kept |

## Left out

- The path branches of `__init__` and `is_archive`, `add`, `extract`, the progress bar
  `_bar`, `parse_args` and `main`: file-system I/O and terminal output.
- `close` (also what `__exit__` calls) first flushes, which is modelled by `Flush`, and then
  closes the operating system's stream; the closing, the `closed` flag and `__enter__`'s
  refusal of an archive already closed are not modelled, since no other operation of the
  model checks the flag.
- `readable`: a static method that is the constant `True`.
- The `mode`, `size_mode`, `crc`, `file_count` properties: plain reads of the fields of
  `StaticArchive`.
- The C++ port under `StaticArchive/Cpp` is an unfinished stub and is not part of this model.
- Streams are values, not shared objects: the aliasing between the caller's stream and the
  archive's is not modelled; methods return the streams they change.
- Only in-memory stream semantics are modelled (reads come back short only at the end).
  `append` copies the rest of the caller's source stream, whose remaining length is `ds`,
  so its `count == ds` assertion always holds (proved inside `AppendEntry`); `read_into`'s
  `res == ds` assertion can only fail on a truncated archive.
- `_move_stream`'s callback is either the CRC accumulator `append` and `read_into` pass or
  none; arbitrary callbacks are not modelled.
- `_lock` is not a higher-order wrapper in the model: each locked method states in its own
  contract that it puts the cursor back.
- Archive.StaticArchive.LoadSignature: on a failed load the cursor stays where it was,
  whereas the source leaves it behind the bytes it read (the archive is not constructed
  then).
- Archive.StaticArchive.FileInfos: the walk is computed whole; the source's generator hands
  out the records before a failing header before it raises, which the model reports as one
  failure.
- Archive.StaticArchive.FileNames: built on the whole walk, so the names the source's
  generator yields before a failing header are dropped and only the failure is reported.
- Archive.AppendEntry: writes the CRC at the header's CRC field, the corrected offset of the
  back-patch finding; the source's offset `p - (4 + 8)` is modelled separately
  (`Layout.AppendAsWritten`) and agrees only in size mode m64.
- Archive.PatchCrc: patches at the corrected offset `p - (4 + width)`, not at the source's
  `p - (4 + 8)`, for the reason given under "## Findings".
- Archive.StaticArchive.Append: keeps `Holds(es)` to `Holds(es + [e])` only because it uses
  the corrected back-patch; with the source's offset an m16 or m32 archive with CRCs gets a
  header that no longer reads back (`Layout.AsWrittenPatchCorruptsM32`).
- Archive.StaticArchive.AppendBytes: uses `Append`, so it also uses the corrected back-patch.
- Python's `assert` statements are modelled as always on (no `python -O`).

## Findings

| source | as written | input that shows it | evidently intended | confidence | as-written member | corrected member |
|---|---|---|---|---|---|---|
| StaticArchive/Python/static.py:291 | the CRC back-patch seeks to `p - (DWORD + QWORD)` in every size mode | size mode m32 with CRCs, `append("test", b"\x00")`: the CRC 0xD202EF8D lands on the name bytes and the header no longer decodes | seek to `p - (DWORD + CONV_MODE[size_mode])`, the CRC field | high (not executed) | `Layout.AsWrittenPatchCorruptsM32` | `Layout.BackPatch` |
