# payload_dumper in Dafny

A model of `payload_dumper.py`, the tool that extracts partition images from
an Android A/B OTA `payload.bin`. The model covers:

- the `CrAU` envelope: magic, format version 2, the big-endian u64 manifest
  size, the u32 metadata-signature size, then the manifest and the signature;
- the five operation handlers:
  - REPLACE, REPLACE_BZ and REPLACE_XZ;
  - MOVE;
  - SOURCE_COPY;
  - SOURCE_BSDIFF, BROTLI_BSDIFF and PUFFDIFF;
  - ZERO and DISCARD;
- the per-partition driver: dispatch on the operation type, the exception
  handling that decides which output images survive, and the optional
  `--check` pass;
- the main loop over the partitions.

Modules:

- `Base` holds bytes, `Option` and `Result`, and small arithmetic helpers.
- `Seekable` models Python binary files. `seek` accepts any position. `read`
  comes back short at the end of the file. A non-empty `write` past the end
  extends the file and zero-fills the gap; an empty one changes nothing. The pure functions `ReadAt`, `WriteAt`,
  `WriteEach` and `ZeroEach` give the meaning of these calls, and the class
  `File` is the object the handlers mutate.
- `Envelope` holds `u32`/`u64`, the header parse as a function
  (`DecodeHeader`) and as the reads the program makes (`ReadHeader`).
- `Extents` holds block-to-byte arithmetic, the buffer read across a list of
  extents (`Gather`), and the `offset:length,...` strings handed to the
  external patchers together with a parser for them.
- `Manifest` holds the decoded manifest as the dumper sees it.
- `Handlers` has one method per handler, working on `File` objects. Each is
  proved against a pure `...Effect` function giving the status it ends with
  and the image it leaves. The lemmas state what those images contain.
- `Dumper` holds the operation loop (`RunOps`), the outcome of a partition
  (`PartitionOutcome`), the methods `DumpPartition`, `HashImage`,
  `DumpPartitions` and `DumpPayload`, and the properties of whole runs.

Some collaborators are parameters of type `Primitives`: SHA-256, the bz2 and
xz decoders, and the external patcher. The protobuf decoder of the manifest
is also a parameter. The old images on disk are a map from path to contents.

Points where the code may surprise a reader; the model follows the code:

- REPLACE, MOVE and SOURCE_COPY write the *whole* buffer at the start of every
  destination extent, rather than splitting one logical buffer across the
  extents.
- The patcher's exit status is not looked at.
- The digest check is done on the whole raw payload read, not per chunk.
- A `--check` hash mismatch is only reported: the image is kept and the run
  goes on.
- A block size of 0 is not rejected. REPLACE then writes its data at offset 0
  and raises `ZeroDivisionError` when computing the padding.

## Model

| member | source | states |
|---|---|---|
| `Envelope.U32` | payload_dumper.py:21-22 | defined exactly on 4-byte inputs (`struct.error` otherwise); the result is below 2^32 and its big-endian encoding is the input |
| `Envelope.U64` | payload_dumper.py:25-26 | defined exactly on 8-byte inputs; the result is below 2^64 and its big-endian encoding is the input |
| `Envelope.BigEndianOfEncoding` | payload_dumper.py:21-26 | decoding the `width`-byte big-endian encoding of a number that fits returns the number |
| `Envelope.EncodingOfBigEndian` | payload_dumper.py:21-26 | re-encoding a decoded byte string returns it, so the decoding is one-to-one |
| `Envelope.U32OfEncoding` | payload_dumper.py:21-22 | `u32` of the 4-byte encoding of n is n |
| `Envelope.U64OfEncoding` | payload_dumper.py:25-26 | `u64` of the 8-byte encoding of n is n |
| `Envelope.Blobs` | payload_dumper.py:256-263 | the manifest and signature reads may be short; together they are the payload bytes from 24 up to the data offset, which is min(24 + sizes, payload length) |
| `Envelope.DecodeHeader` | payload_dumper.py:247-263 | accepts exactly when the payload has 24 bytes, starts with `CrAU` and has version 2; a bad or missing magic gives BadMagic, any other version gives BadVersion; a version or size field cut short gives ShortField (`struct.error`); on success the sizes are the big-endian fields at 12 and 20 and the blobs follow |
| `Envelope.HeaderRoundTrip` | payload_dumper.py:247-263 | decoding an envelope built around any manifest and signature, followed by any data, gives them back with data offset 24 + both sizes |
| `Envelope.DataOffsetExact` | payload_dumper.py:253-263 | when the payload is long enough, the data offset is 4 + 8 + 8 + 4 + manifest size + signature size |
| `Envelope.ReadHeader` | payload_dumper.py:247-263 | the sequence of reads on the payload file gives the same verdict as `DecodeHeader`, and on success leaves the file at the data offset |
| `Envelope.ReadBlobs` | payload_dumper.py:256-263 | the two blob reads and `tell()` give `Blobs` of the payload, with the position at the data offset |
| `Seekable.File.Open` | payload_dumper.py:167 | a freshly opened file holds the given contents, is positioned at 0, and has the mode's readability |
| `Seekable.File.Seek` | payload_dumper.py:49 | any position is accepted, including one past the end (platform limits on positions are under Left out) |
| `Seekable.File.Tell` | payload_dumper.py:263 | returns the position |
| `Seekable.File.Read` | payload_dumper.py:37 | returns `ReadAt` of the contents at the position, and advances by what was read |
| `Seekable.File.Write` | payload_dumper.py:50 | contents become `WriteAt` of the old contents at the position, and the position advances by the data length |
| `Seekable.ReadAt` | payload_dumper.py:37 | a read returns min(n, bytes left) bytes, and none past the end; byte i of the result is byte p + i of the file |
| `Seekable.WriteAt` | payload_dumper.py:49-50 | an empty write leaves the file as it is, even past its end; otherwise the file grows to max(old length, p + data length); each byte is the written byte inside the write, otherwise the old byte or zero past the old end |
| `Seekable.ReadBackWritten` | payload_dumper.py:49-50 | reading back what was just written returns it |
| `Seekable.ContiguousWrites` | payload_dumper.py:50-53 | writing the data and then the padding right after it equals one write of data + padding |
| `Seekable.WriteEachBytes` | payload_dumper.py:104-106 | after writing a buffer at every offset in turn, each byte comes from the last write covering it; uncovered bytes keep their old value, or are zero past the old end; the length is max(old length, furthest write end), or the old length when the buffer is empty |
| `Seekable.WriteEachSnoc` | payload_dumper.py:104-106 | one more turn of the write loop is one more `WriteAt` |
| `Seekable.WriteEachReadBack` | payload_dumper.py:104-106 | a write that no later write overlaps reads back intact after the loop |
| `Seekable.WriteEachOutside` | payload_dumper.py:104-106 | old bytes that no write covers are unchanged |
| `Seekable.ZeroEachBytes` | payload_dumper.py:155-157 | after zeroing every span, covered bytes are zero and uncovered old bytes keep their value; the length is max(old length, furthest end of a non-empty span) |
| `Extents.GatherLength` | payload_dumper.py:96-98 | when every extent lies inside the file, no read is short: the buffer is exactly the total extent length |
| `Extents.GatherWithin` | payload_dumper.py:96-98 | with every extent inside the file, piece k of the gathered buffer starts at the total length of the extents before it and is byte-for-byte extent k of the file |
| `Extents.TotalLengthPrefix` | payload_dumper.py:96-98 | the extents before k, plus extent k, fit within the total length |
| `Extents.Decimal` | payload_dumper.py:125 | `'%d'` gives a non-empty string of decimal digits with no leading zero (only 0 itself starts with `0`) |
| `Extents.DecimalValue` | payload_dumper.py:125 | the digits of `'%d' % n` denote n |
| `Extents.AccumulatedFront` | payload_dumper.py:124-125 | the `'%d:%d,'` accumulator is the first range's text, a comma, then the accumulator of the rest |
| `Extents.AccumulatedThenStripped` | payload_dumper.py:124-148 | `old_extents[:-1]` (the accumulator minus its trailing comma) is the ranges joined by single commas, with no leading or trailing comma |
| `Extents.ParseJoined` | payload_dumper.py:142-148 | parsing the comma-joined range list gives back exactly the ranges, in order |
| `Extents.ParseRangeText` | payload_dumper.py:125 | one `offset:length` text followed by a non-digit parses back to its range and length |
| `Handlers.Padded` | payload_dumper.py:52-53 | the data followed by zeros: the shortest block-aligned buffer that starts with the data, and the data itself when already aligned |
| `Handlers.ReplaceOperation` | payload_dumper.py:33-53 | reads `data_length` bytes and ends as `ReplaceEffect` says: a digest mismatch of the raw bytes raises AssertionError with the image untouched; otherwise it decompresses and writes the padded data at every destination extent |
| `Handlers.WritePaddedExtents` | payload_dumper.py:48-53 | the destination loop leaves `PaddedWrites`: padded data at each extent start, or ZeroDivisionError after the first write when the block size is 0 |
| `Handlers.WritePadded` | payload_dumper.py:49-53 | seek, write and pad equals one write of the padded data; with block size 0, the data is written and the padding computation raises |
| `Handlers.ReplaceRejectsCorruptData` | payload_dumper.py:37-46 | the digest is checked on the raw bytes before any decoder runs; a mismatch raises AssertionError and changes nothing |
| `Handlers.ReplacePlacement` | payload_dumper.py:48-53 | after a passing replace, each destination extent that no later one overlaps holds the padded data |
| `Handlers.ReplaceUntouched` | payload_dumper.py:48-53 | a replace leaves every old byte outside its padded destination ranges as it was |
| `Handlers.ReadExtents` | payload_dumper.py:62-64 | the seek/read loop returns `Gather`: the pieces of every extent, in order, short at the end of the file |
| `Handlers.WriteExtents` | payload_dumper.py:70-72 | the seek/write loop leaves the buffer written, unpadded, at the start of every extent in turn |
| `Handlers.MoveOperation` | payload_dumper.py:56-72 | ends as `MoveEffect` says: reading source extents from a write-only output raises UnsupportedOperation; a digest mismatch raises AssertionError with the image untouched; otherwise the gathered bytes go to every destination extent |
| `Handlers.MoveCopies` | payload_dumper.py:62-72 | after a passing move on a readable output, each destination extent that no later one overlaps starts with the gathered source bytes |
| `Handlers.SourceCopyOperation` | payload_dumper.py:86-106 | ends as `SourceCopyEffect` says: a missing old image raises FileNotFoundError; a digest mismatch raises AssertionError; otherwise the old image's source extents go to every destination extent |
| `Handlers.SourceCopyPlaces` | payload_dumper.py:93-106 | with every source extent inside the old image, each non-overlapped destination holds all source extents back to back; piece s is exactly source extent s of the old image |
| `Handlers.CopiesRejectMismatch` | payload_dumper.py:66-102 | a move or source copy whose gathered bytes miss `src_sha256_hash` raises AssertionError and writes nothing |
| `Handlers.ZeroOperation` | payload_dumper.py:151-157 | the loop leaves zeros over every destination extent's byte range, in order |
| `Handlers.ZeroRanges` | payload_dumper.py:155-157 | after a zero operation, bytes inside a destination extent are zero and every other old byte is unchanged; the image length is max(old length, furthest end of a non-empty extent) |
| `Handlers.CoveredByExtent` | payload_dumper.py:155-157 | a byte is covered by the zeroed spans exactly when some destination extent's byte range contains it |
| `Handlers.PatchArgv` | payload_dumper.py:145-148 | PUFFDIFF runs `puffin` (13 arguments, range lists at 10 and 12); the other diff types run `bspatch` (6 arguments, range lists at 4 and 5) |
| `Handlers.SourceDiffOperation` | payload_dumper.py:109-148 | ends as `SourceDiffEffect` says; the patch is read from the payload only when the old image exists and its source digest matches |
| `Handlers.ReadSourceExtents` | payload_dumper.py:121-131 | the source loop builds the `'%d:%d,'` accumulator of the source ranges and hashes exactly the gathered source bytes |
| `Handlers.RangeList` | payload_dumper.py:142-143 | the destination loop builds the `'%d:%d,'` accumulator of the destination ranges |
| `Handlers.PatchRangesReadBack` | payload_dumper.py:142-148 | the range arguments the patcher receives parse back to exactly the source and destination byte ranges, in order |
| `Dumper.Route` | payload_dumper.py:176-201 | the dispatch chain sends a type to a handler exactly when that handler's leading assertion accepts it; BSDIFF and unknown types go nowhere |
| `Dumper.ApplyOperation` | payload_dumper.py:169-201 | seek the payload, then call the handler: an unsupported type changes nothing, and a routed operation leaves the image and status its handler's effect gives |
| `Dumper.RunOpsAppend` | payload_dumper.py:169-201 | running two operation lists back to back is running the first, then the second from the image it left, unless the first stopped |
| `Dumper.RunOpsFrom` | payload_dumper.py:169-201 | once the first k operations complete, the run continues from the image they left |
| `Dumper.RunOpsSnoc` | payload_dumper.py:169-201 | once the first k operations complete, operation k alone decides how the first k + 1 end |
| `Dumper.HashImage` | payload_dumper.py:214-228 | the check loop hashes, in non-empty chunks of at most 1 MiB (all but the last full), exactly the first `size` bytes of the image, or all of it when shorter |
| `Dumper.HashStep` | payload_dumper.py:224-227 | one loop turn keeps the loop invariant: hashed chunks plus the pending read are the bytes read so far |
| `Dumper.ScanDone` | payload_dumper.py:224-229 | an empty read means the first `size` bytes, or the whole file, were hashed |
| `Dumper.ReadChunk` | payload_dumper.py:221 | `read(min(data_size, BLOCK_SIZE))`: at most 1 MiB and at most the remaining size; a shorter read only at the size or at the end of the file |
| `Dumper.DumpPartition` | payload_dumper.py:160-235 | the partition's outcome is `PartitionOutcome`: kept, unlinked (unsupported type, AssertionError, FileNotFoundError), escaped (any other exception, after unlinking), or a size mismatch after the check |
| `Dumper.UnsupportedDeletes` | payload_dumper.py:198-201 | a reached unsupported type, BSDIFF included, deletes the output whatever follows it, and the run continues |
| `Dumper.CorruptDataDeletes` | payload_dumper.py:202-209 | a reached replace whose payload bytes miss their digest deletes the output, and the run continues |
| `Dumper.CheckVerdict` | payload_dumper.py:214-235 | with `--check`, an image of the declared size is kept and reported as matching exactly when its digest equals the declared hash; the run goes on |
| `Dumper.ReplaceThenZero` | payload_dumper.py:160-235 | block size 4096, REPLACE of 4096 bytes d into block 0, then ZERO of block 1: the image is d followed by 4096 zeros, and the check reports a match |
| `Dumper.MoveOnWriteOnlyOutputEscapes` | payload_dumper.py:167-212 | as written (output opened `'wb'`), a reached MOVE with source extents raises UnsupportedOperation; the output is deleted and the run stops |
| `Dumper.MoveOnReadWriteOutputCopies` | payload_dumper.py:56-72 | with the output opened for reading too, the same MOVE completes and copies the image's source bytes to each non-overlapped destination extent |
| `Dumper.UpToStop` | payload_dumper.py:265-266 | the outcomes up to the first that ends the run: a prefix, with no stop before its last element, and cut short only at a stop |
| `Dumper.UpToStopAt` | payload_dumper.py:265-266 | when partition k is the first that stops the run, exactly partitions 0..k are dumped |
| `Dumper.UpToStopAll` | payload_dumper.py:265-266 | when no partition stops the run, every partition is dumped |
| `Dumper.DumpAll` | payload_dumper.py:265-266 | partitions are dumped in manifest order, each with its own `PartitionOutcome`, until the first that stops the run |
| `Dumper.DumpPartitions` | payload_dumper.py:265-266 | the main loop returns `DumpAll` |
| `Dumper.DumpPayload` | payload_dumper.py:238-266 | the main program on payload bytes returns `Dump`: a header rejection, a manifest rejection, or the outcomes of `DumpAll` with the data offset from `tell()` |

## Left out

- Protobuf decoding of the manifest: the decoder is a parameter (`decode`), and the model starts from its result (`Manifest.DeltaManifest`).
- SHA-256, bz2 and lzma: these are parameters in `Handlers.Primitives`. A decoder that raises is any `None` result, reported as `DecompressionError`.
- The external patchers' algorithms: the patcher is a function from (argv, old image, patch, current output) to the new output, or `None` when the executable is missing (`FileNotFoundError`). Its exit status is ignored, as in the code.
- The temporary patch file and `os.stat`: the temporary path is a parameter. The size assertion on it is modelled as `|patch| == data_length`.
- Python's write buffering of the output file, which the external patcher writes by name, is not modelled. Neither is the output position the patcher leaves.
- `bsdiff_operation` is an empty stub that the dispatch never reaches; BSDIFF goes to the unsupported branch.
- Printing, base64, `argparse`, `--verbose` and `os.makedirs` are not modelled. The process exit status of an escaped exception is modelled as `Stops`.
- `src_length` is not used by the code and is not modelled.
- An old directory equal to the output directory (the old image being the file just truncated) is not modelled: old images are a separate map.
- Deleting an output (`os.unlink`) is an outcome (`Unlinked`, `Escaped`) rather than a file-system change.
- Integers are unbounded. `u32`/`u64` results are bounded by their ensures, and no Python integer arithmetic in the code wraps; the operating system's limits on file positions and sizes are a separate matter (next line).
- Seekable.File.Seek: positions are unbounded, but the operating system's `off_t` is 64-bit. A seek to 2^63 or beyond raises `OverflowError`/`OSError` (lines 49, 63, 71, 97, 105, 127, 156 for `start_block * block_size`, and line 170 for `data_offset + op.data_offset`), and that is not modelled. Also not modelled: a write past the file system's size limit (`OSError`), `MemoryError` when building a huge zero buffer or padding (lines 53, 157), and an output file that cannot be opened (line 167, outside the `try`).
- Seekable.File.Read: a read of any length comes back short at the end of the file, but Python raises for an enormous `n`: `OverflowError` when `n` is 2^63 or more (it must fit `ssize_t`), and `MemoryError` when the buffered reader cannot allocate `n` bytes, even on a short file. Neither is modelled. The lengths come from the payload: `data_length` (lines 37, 135), `num_blocks * block_size` (lines 64, 98, 128), `manifest_size` (line 256) and `metadata_signature_size` (line 257). The same goes for `Seekable.ReadAt`.
- Envelope.DecodeHeader: a header whose manifest size is 2^63 or more is accepted here with a short manifest read; Python raises `OverflowError` at line 256 and the run stops before any partition.
- Dumper.CorruptDataDeletes: an operation whose `data_length` (or source extent size) is too large to read raises `OverflowError`/`MemoryError` in Python (lines 37, 64, 98, 128, 135). The bare `except` at lines 210-212 then deletes the output and re-raises, so the run stops. The model instead reads short, fails the digest check, and continues.

## Findings

| source | as written | input that shows it | evidently intended | confidence | as-written member | corrected member |
|---|---|---|---|---|---|---|
| payload_dumper.py:167 | the output image is opened `'wb'`; `move_operation` then reads its source extents from that file (line 64), which raises `io.UnsupportedOperation`; the bare `except` deletes the output and re-raises, ending the whole run | a partition whose operations include a MOVE with a non-empty `src_extents` list | open the output for reading and writing, so a MOVE copies blocks already written to the image, as its docstring says | not executed | `Dumper.MoveOnWriteOnlyOutputEscapes` | `Dumper.MoveOnReadWriteOutputCopies` |
