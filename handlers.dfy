/**
 * The operation handlers: each applies one install operation to the output
 * image through the open output file.  Every handler is a method over `File`
 * objects, proved against a pure function giving the status it ends with and
 * the image it leaves behind (`...Effect`); the lemmas below state what those
 * images hold.
 */
module Handlers {
  import opened Base
  import opened Seekable
  import opened Extents
  import opened Manifest

  /** The exceptions a handler can raise. */
  datatype Exc =
    | AssertionError        // a failed `assert`: digest or size check
    | FileNotFoundError     // a missing old image, or a missing patcher executable
    | ZeroDivisionError     // `len(data) % block_size` with a block size of 0
    | DecompressionError    // the bz2 or xz decoder rejecting its input
    | UnsupportedOperation  // reading from a file opened for writing only

  /** How a handler returned: normally, or by raising. */
  datatype Status = Done | Raised(exc: Exc)

  /** A handler's status together with the output image it leaves. */
  datatype Effect = Effect(status: Status, image: seq<byte>)

  /**
   * The library and external collaborators, as functions: SHA-256, the bz2
   * and xz decoders (None when the decoder raises) and the external patcher.
   * The patcher receives its argument vector, the old image, the patch and the
   * current output image, and gives the output image it leaves behind, or None
   * when the executable cannot be found.
   */
  datatype Primitives = Primitives(
    digest: seq<byte> -> seq<byte>,
    bunzip2: seq<byte> -> Option<seq<byte>>,
    unxz: seq<byte> -> Option<seq<byte>>,
    patcher: (seq<string>, seq<byte>, seq<byte>, seq<byte>) -> Option<seq<byte>>)

  /** `'%s/%s.img' % (dir, name)`. */
  function ImagePath(dir: string, name: string): string
  {
    dir + "/" + name + ".img"
  }

  /** The five handlers. */
  datatype Handler = ReplaceHandler | MoveHandler | SourceCopyHandler | SourceDiffHandler | ZeroHandler

  /** The operation types each handler's leading `assert` admits. */
  predicate Accepts(h: Handler, t: OpType)
  {
    match h
    case ReplaceHandler => t == Replace || t == ReplaceBz || t == ReplaceXz
    case MoveHandler => t == Move
    case SourceCopyHandler => t == SourceCopy
    case SourceDiffHandler => t == SourceBsdiff || t == Puffdiff || t == BrotliBsdiff
    case ZeroHandler => t == Zero || t == Discard
  }

  // ---------------------------------------------------------------------------
  // REPLACE, REPLACE_BZ, REPLACE_XZ

  /**
   * `d` followed by zero bytes up to the next multiple of the block size:
   * the shortest block-aligned buffer that starts with `d`, equal to `d` when
   * `d` is already aligned.
   */
  function Padded(d: seq<byte>, bs: nat): (r: seq<byte>)
    requires bs > 0
    ensures |r| % bs == 0 && |d| <= |r| < |d| + bs
    ensures r[..|d|] == d && AllZero(r[|d|..])
    ensures |d| % bs == 0 ==> r == d
  {
    if |d| % bs > 0 then
      var z := Zeros(bs - |d| % bs);
      assert (d + z)[..|d|] == d && (d + z)[|d|..] == z;
      ModUnique(|d| + |z|, bs, |d| / bs + 1, 0);
      d + z
    else d
  }

  /** The payload bytes as the handler writes them: raw, or through the bz2 or xz decoder. */
  function Decompress(kind: OpType, raw: seq<byte>, prims: Primitives): Result<seq<byte>, Exc>
  {
    match kind
    case ReplaceBz => (match prims.bunzip2(raw) case Some(d) => Ok(d) case None => Err(DecompressionError))
    case ReplaceXz => (match prims.unxz(raw) case Some(d) => Ok(d) case None => Err(DecompressionError))
    case _ => Ok(raw)
  }

  /**
   * A replace operation whose `data_length` payload bytes read as `raw`: the
   * digest of the raw bytes is checked before anything is decoded or written;
   * then the data, padded to the block size, goes to the start of every
   * destination extent.  With a block size of 0 the first write happens at
   * offset 0 and the padding computation raises.
   */
  function ReplaceEffect(op: Operation, bs: nat, raw: seq<byte>, image: seq<byte>, prims: Primitives): Effect
  {
    if prims.digest(raw) != op.dataHash then Effect(Raised(AssertionError), image)
    else
      match Decompress(op.kind, raw, prims)
      case Err(e) => Effect(Raised(e), image)
      case Ok(data) => PaddedWrites(image, op.dstExtents, bs, data)
  }

  /** The write loop of a replace: the padded data at the start of each extent of `dst`. */
  function PaddedWrites(image: seq<byte>, dst: seq<Extent>, bs: nat, data: seq<byte>): Effect
  {
    if dst == [] then Effect(Done, image)
    else if bs == 0 then Effect(Raised(ZeroDivisionError), WriteAt(image, 0, data))
    else Effect(Done, WriteEach(image, Offsets(dst, bs), Padded(data, bs)))
  }

  method ReplaceOperation(op: Operation, bs: nat, payload: File, out: File, prims: Primitives) returns (status: Status)
    requires Accepts(ReplaceHandler, op.kind)
    requires payload.readable && payload != out
    modifies payload`pos, out`data, out`pos
    ensures var raw := ReadAt(payload.data, old(payload.pos), op.dataLength);
            && Effect(status, out.data) == ReplaceEffect(op, bs, raw, old(out.data), prims)
            && payload.pos == old(payload.pos) + |raw|
            && (prims.digest(raw) != op.dataHash ==> status == Raised(AssertionError) && out.data == old(out.data))
  {
    var raw := payload.Read(op.dataLength);
    if prims.digest(raw) != op.dataHash {
      return Raised(AssertionError);
    }
    var decoded := Decompress(op.kind, raw, prims);
    if decoded.Err? {
      return Raised(decoded.error);
    }
    status := WritePaddedExtents(out, op.dstExtents, bs, decoded.value);
  }

  method WritePaddedExtents(out: File, dst: seq<Extent>, bs: nat, data: seq<byte>) returns (status: Status)
    modifies out`data, out`pos
    ensures Effect(status, out.data) == PaddedWrites(old(out.data), dst, bs, data)
  {
    var k := 0;
    while k < |dst|
      invariant 0 <= k <= |dst|
      invariant bs == 0 ==> k == 0 && out.data == old(out.data)
      invariant bs > 0 ==> out.data == WriteEach(old(out.data), Offsets(dst[..k], bs), Padded(data, bs))
    {
      status := WritePadded(out, Start(dst[k], bs), data, bs);
      if status != Done {
        return;
      }
      OffsetsSnoc(dst, bs, k);
      WriteEachSnoc(old(out.data), Offsets(dst[..k], bs), Start(dst[k], bs), Padded(data, bs));
      k := k + 1;
    }
    assert dst[..k] == dst;
    return Done;
  }

  /**
   * One destination extent of a replace: `seek(o)`, `write(data)`, then zero
   * padding up to the block size.  The padding length is computed after the
   * first write, so a block size of 0 raises with the data already written.
   */
  method WritePadded(out: File, o: nat, data: seq<byte>, bs: nat) returns (status: Status)
    modifies out`data, out`pos
    ensures bs == 0 ==> status == Raised(ZeroDivisionError) && out.data == WriteAt(old(out.data), o, data)
    ensures bs > 0 ==> status == Done && out.data == WriteAt(old(out.data), o, Padded(data, bs))
  {
    out.Seek(o);
    out.Write(data);
    if bs == 0 {
      return Raised(ZeroDivisionError);
    }
    var padding := Padded(data, bs)[|data|..];
    if |data| % bs > 0 {
      out.Write(Zeros(bs - |data| % bs));
    }
    assert data + padding == Padded(data, bs);
    ContiguousWrites(old(out.data), o, data, padding);
    return Done;
  }

  /**
   * The digest is taken over the raw payload bytes: when they do not match, the
   * replace raises before any decoder runs and the image is left as it was.
   */
  lemma ReplaceRejectsCorruptData(op: Operation, bs: nat, raw: seq<byte>, image: seq<byte>, prims: Primitives)
    requires prims.digest(raw) != op.dataHash
    ensures ReplaceEffect(op, bs, raw, image, prims) == Effect(Raised(AssertionError), image)
  {
  }

  /**
   * After a replace that passed its digest check, the image from each
   * destination offset holds the data followed by its zero padding, unless a
   * later destination extent overwrote part of it.
   */
  lemma ReplacePlacement(op: Operation, bs: nat, raw: seq<byte>, image: seq<byte>, prims: Primitives, k: nat)
    requires bs > 0 && prims.digest(raw) == op.dataHash && Decompress(op.kind, raw, prims).Ok?
    requires k < |op.dstExtents|
    requires var n := |Padded(Decompress(op.kind, raw, prims).value, bs)|;
             forall j :: k < j < |op.dstExtents| ==> Disjoint(Start(op.dstExtents[j], bs), Start(op.dstExtents[k], bs), n)
    ensures var data := Decompress(op.kind, raw, prims).value;
            var e := ReplaceEffect(op, bs, raw, image, prims);
            && e.status == Done
            && ReadAt(e.image, Start(op.dstExtents[k], bs), |Padded(data, bs)|) == Padded(data, bs)
  {
    var data := Decompress(op.kind, raw, prims).value;
    var offs := Offsets(op.dstExtents, bs);
    WriteEachReadBack(image, offs, Padded(data, bs), k);
  }

  /** A replace leaves every byte of the old image outside its padded destination ranges alone. */
  lemma ReplaceUntouched(op: Operation, bs: nat, raw: seq<byte>, image: seq<byte>, prims: Primitives, i: nat)
    requires bs > 0 && prims.digest(raw) == op.dataHash && Decompress(op.kind, raw, prims).Ok?
    requires i < |image|
    requires var n := |Padded(Decompress(op.kind, raw, prims).value, bs)|;
             forall j :: 0 <= j < |op.dstExtents| ==> !(Start(op.dstExtents[j], bs) <= i < Start(op.dstExtents[j], bs) + n)
    ensures var e := ReplaceEffect(op, bs, raw, image, prims);
            i < |e.image| && e.image[i] == image[i]
  {
    var data := Decompress(op.kind, raw, prims).value;
    if op.dstExtents != [] {
      WriteEachOutside(image, Offsets(op.dstExtents, bs), Padded(data, bs), i);
    }
  }

  // ---------------------------------------------------------------------------
  // Shared extent loops

  /** `seek` and `read` at every extent of `es` in turn, concatenating what comes back. */
  method ReadExtents(f: File, es: seq<Extent>, bs: nat) returns (data: seq<byte>)
    requires f.readable
    modifies f`pos
    ensures data == Gather(f.data, es, bs)
  {
    data := [];
    var k := 0;
    while k < |es|
      invariant 0 <= k <= |es|
      invariant data == Gather(f.data, es[..k], bs)
    {
      f.Seek(Start(es[k], bs));
      var piece := f.Read(Size(es[k], bs));
      GatherSnoc(f.data, es, bs, k);
      data := data + piece;
      k := k + 1;
    }
    assert es[..k] == es;
  }

  /** `seek` and `write(data)` at every extent of `es` in turn, without padding. */
  method WriteExtents(f: File, es: seq<Extent>, bs: nat, data: seq<byte>)
    modifies f`data, f`pos
    ensures f.data == WriteEach(old(f.data), Offsets(es, bs), data)
  {
    var k := 0;
    while k < |es|
      invariant 0 <= k <= |es|
      invariant f.data == WriteEach(old(f.data), Offsets(es[..k], bs), data)
    {
      f.Seek(Start(es[k], bs));
      f.Write(data);
      OffsetsSnoc(es, bs, k);
      WriteEachSnoc(old(f.data), Offsets(es[..k], bs), Start(es[k], bs), data);
      k := k + 1;
    }
    assert es[..k] == es;
  }

  // ---------------------------------------------------------------------------
  // MOVE

  /**
   * A move on the output image: the source extents are read back from the
   * output file itself (which raises when that file was opened for writing
   * only), the buffer's digest is checked, and the buffer goes unpadded to the
   * start of every destination extent.
   */
  function MoveEffect(op: Operation, bs: nat, image: seq<byte>, readable: bool, prims: Primitives): Effect
  {
    if op.srcExtents != [] && !readable then Effect(Raised(UnsupportedOperation), image)
    else
      var data := Gather(image, op.srcExtents, bs);
      if prims.digest(data) != op.srcHash then Effect(Raised(AssertionError), image)
      else Effect(Done, WriteEach(image, Offsets(op.dstExtents, bs), data))
  }

  method MoveOperation(op: Operation, bs: nat, out: File, prims: Primitives) returns (status: Status)
    requires Accepts(MoveHandler, op.kind)
    modifies out`data, out`pos
    ensures Effect(status, out.data) == MoveEffect(op, bs, old(out.data), out.readable, prims)
  {
    var data: seq<byte> := [];
    if op.srcExtents != [] {
      if !out.readable {
        out.Seek(Start(op.srcExtents[0], bs));
        return Raised(UnsupportedOperation);
      }
      data := ReadExtents(out, op.srcExtents, bs);
    }
    if prims.digest(data) != op.srcHash {
      return Raised(AssertionError);
    }
    WriteExtents(out, op.dstExtents, bs, data);
    return Done;
  }

  /**
   * A move that passed its digest check copies: every destination extent no
   * later extent overlaps starts with the concatenated source bytes.
   */
  lemma MoveCopies(op: Operation, bs: nat, image: seq<byte>, prims: Primitives, k: nat)
    requires prims.digest(Gather(image, op.srcExtents, bs)) == op.srcHash
    requires k < |op.dstExtents|
    requires var n := |Gather(image, op.srcExtents, bs)|;
             forall j :: k < j < |op.dstExtents| ==> Disjoint(Start(op.dstExtents[j], bs), Start(op.dstExtents[k], bs), n)
    ensures var e := MoveEffect(op, bs, image, true, prims);
            var data := Gather(image, op.srcExtents, bs);
            e.status == Done && ReadAt(e.image, Start(op.dstExtents[k], bs), |data|) == data
  {
    WriteEachReadBack(image, Offsets(op.dstExtents, bs), Gather(image, op.srcExtents, bs), k);
  }

  // ---------------------------------------------------------------------------
  // SOURCE_COPY

  /**
   * A source copy: the old image of the same partition must exist; its source
   * extents are read and concatenated, the digest is checked, and the buffer
   * goes unpadded to the start of every destination extent.
   */
  function SourceCopyEffect(op: Operation, bs: nat, oldImage: Option<seq<byte>>, image: seq<byte>, prims: Primitives): Effect
  {
    match oldImage
    case None => Effect(Raised(FileNotFoundError), image)
    case Some(source) =>
      var data := Gather(source, op.srcExtents, bs);
      if prims.digest(data) != op.srcHash then Effect(Raised(AssertionError), image)
      else Effect(Done, WriteEach(image, Offsets(op.dstExtents, bs), data))
  }

  /** The contents of the file at `path` among `files`, or None when there is no such file. */
  function Lookup(files: map<string, seq<byte>>, path: string): Option<seq<byte>>
  {
    if path in files then Some(files[path]) else None
  }

  method SourceCopyOperation(op: Operation, bs: nat, oldDir: string, name: string, oldImages: map<string, seq<byte>>,
                             out: File, prims: Primitives) returns (status: Status)
    requires Accepts(SourceCopyHandler, op.kind)
    modifies out`data, out`pos
    ensures Effect(status, out.data)
            == SourceCopyEffect(op, bs, Lookup(oldImages, ImagePath(oldDir, name)), old(out.data), prims)
  {
    var path := ImagePath(oldDir, name);
    if path !in oldImages {
      return Raised(FileNotFoundError);
    }
    var oldFile := new File.Open(path, oldImages[path], true);
    var data := ReadExtents(oldFile, op.srcExtents, bs);
    if prims.digest(data) != op.srcHash {
      return Raised(AssertionError);
    }
    WriteExtents(out, op.dstExtents, bs, data);
    return Done;
  }

  /**
   * A source copy that passed its digest check, with every source extent
   * inside the old image: each destination extent no later extent overlaps
   * holds, at its start, the source extents' bytes back to back, and the
   * piece for source extent `s` is exactly that extent of the old image.
   */
  lemma SourceCopyPlaces(op: Operation, bs: nat, source: seq<byte>, image: seq<byte>, prims: Primitives, k: nat, s: nat)
    requires Within(op.srcExtents, bs, |source|)
    requires prims.digest(Gather(source, op.srcExtents, bs)) == op.srcHash
    requires k < |op.dstExtents| && s < |op.srcExtents|
    requires forall j :: k < j < |op.dstExtents| ==>
               Disjoint(Start(op.dstExtents[j], bs), Start(op.dstExtents[k], bs), TotalLength(op.srcExtents, bs))
    ensures var e := SourceCopyEffect(op, bs, Some(source), image, prims);
            var placed := ReadAt(e.image, Start(op.dstExtents[k], bs), TotalLength(op.srcExtents, bs));
            var at := TotalLength(op.srcExtents[..s], bs);
            var src := op.srcExtents[s];
            && e.status == Done
            && placed == Gather(source, op.srcExtents, bs)
            && at + Size(src, bs) <= |placed|
            && placed[at..at + Size(src, bs)] == source[Start(src, bs)..Start(src, bs) + Size(src, bs)]
  {
    var data := Gather(source, op.srcExtents, bs);
    GatherWithin(source, op.srcExtents, bs, s);
    WriteEachReadBack(image, Offsets(op.dstExtents, bs), data, k);
  }

  /** A move or a source copy whose gathered source bytes miss their digest raises and writes nothing. */
  lemma CopiesRejectMismatch(op: Operation, bs: nat, image: seq<byte>, source: seq<byte>, prims: Primitives)
    ensures prims.digest(Gather(image, op.srcExtents, bs)) != op.srcHash
            ==> MoveEffect(op, bs, image, true, prims) == Effect(Raised(AssertionError), image)
    ensures prims.digest(Gather(source, op.srcExtents, bs)) != op.srcHash
            ==> SourceCopyEffect(op, bs, Some(source), image, prims) == Effect(Raised(AssertionError), image)
  {
  }

  // ---------------------------------------------------------------------------
  // ZERO, DISCARD

  /** Zeros over every destination extent's byte range. */
  function ZeroEffect(op: Operation, bs: nat, image: seq<byte>): Effect
  {
    Effect(Done, ZeroEach(image, Spans(op.dstExtents, bs)))
  }

  method ZeroOperation(op: Operation, bs: nat, out: File)
    requires Accepts(ZeroHandler, op.kind)
    modifies out`data, out`pos
    ensures out.data == ZeroEffect(op, bs, old(out.data)).image
  {
    var dst := op.dstExtents;
    var k := 0;
    while k < |dst|
      invariant 0 <= k <= |dst|
      invariant out.data == ZeroEach(old(out.data), Spans(dst[..k], bs))
    {
      out.Seek(Start(dst[k], bs));
      out.Write(Zeros(Size(dst[k], bs)));
      SpansSnoc(dst, bs, k);
      assert (Spans(dst[..k], bs) + [ByteSpan(dst[k], bs)])[..k] == Spans(dst[..k], bs);
      k := k + 1;
    }
    assert dst[..k] == dst;
  }

  /**
   * After a zero operation every byte inside a destination extent is zero,
   * every other byte of the old image is unchanged, and the image reaches at
   * least the end of the furthest extent with blocks; an extent with no
   * blocks does not grow it.
   */
  lemma ZeroRanges(op: Operation, bs: nat, image: seq<byte>, i: nat)
    ensures var r := ZeroEffect(op, bs, image).image;
            var spans := Spans(op.dstExtents, bs);
            && |r| == Max(|image|, SpansEnd(spans))
            && (i < |r| && Covered(spans, i) ==> r[i] == 0)
            && (i < |image| && !Covered(spans, i) ==> r[i] == image[i])
  {
    ZeroEachBytes(image, Spans(op.dstExtents, bs));
  }

  /** A byte lies in the range of a destination extent exactly when the extent list says so. */
  lemma CoveredByExtent(es: seq<Extent>, bs: nat, i: nat)
    ensures Covered(Spans(es, bs), i)
            <==> exists k :: 0 <= k < |es| && Start(es[k], bs) <= i < Start(es[k], bs) + Size(es[k], bs)
  {
    var spans := Spans(es, bs);
    if Covered(spans, i) {
      var k :| 0 <= k < |spans| && InSpan(spans[k], i);
      assert Start(es[k], bs) <= i < Start(es[k], bs) + Size(es[k], bs);
    }
    if exists k :: 0 <= k < |es| && Start(es[k], bs) <= i < Start(es[k], bs) + Size(es[k], bs) {
      var k :| 0 <= k < |es| && Start(es[k], bs) <= i < Start(es[k], bs) + Size(es[k], bs);
      assert InSpan(spans[k], i);
    }
  }

  // ---------------------------------------------------------------------------
  // SOURCE_BSDIFF, BROTLI_BSDIFF, PUFFDIFF

  /** The command line: `puffin` for PUFFDIFF, `bspatch` for the other two. */
  function PatchArgv(kind: OpType, oldPath: string, outPath: string, patchPath: string,
                     srcRanges: string, dstRanges: string): (argv: seq<string>)
    ensures kind == Puffdiff ==> |argv| == 13 && argv[0] == "puffin" && argv[10] == srcRanges && argv[12] == dstRanges
    ensures kind != Puffdiff ==> |argv| == 6 && argv[0] == "bspatch" && argv[4] == srcRanges && argv[5] == dstRanges
  {
    if kind == Puffdiff then
      ["puffin", "-operation", "puffpatch", "-src_file", oldPath, "-dst_file", outPath,
       "-patch_file", patchPath, "-src_extents", srcRanges, "-dst_extents", dstRanges]
    else
      ["bspatch", oldPath, outPath, patchPath, srcRanges, dstRanges]
  }

  /** Whether the source diff gets as far as reading its patch from the payload. */
  predicate ReadsPatch(op: Operation, bs: nat, oldImage: Option<seq<byte>>, prims: Primitives)
  {
    oldImage.Some? && prims.digest(Gather(oldImage.value, op.srcExtents, bs)) == op.srcHash
  }

  /**
   * A source diff with patch bytes `raw` (what `read(data_length)` returns):
   * the old image must exist and its source extents must match their digest
   * before the patch is read; the patch must match its digest and be
   * `data_length` bytes long; then the patcher runs on the old image with the
   * source and destination byte ranges as `offset:length` lists.  Its exit
   * status is not looked at.
   */
  function SourceDiffEffect(op: Operation, bs: nat, oldPath: string, outPath: string, patchPath: string,
                            oldImage: Option<seq<byte>>, raw: seq<byte>, image: seq<byte>, prims: Primitives): Effect
  {
    if oldImage.None? then Effect(Raised(FileNotFoundError), image)
    else if !ReadsPatch(op, bs, oldImage, prims) then Effect(Raised(AssertionError), image)
    else if prims.digest(raw) != op.dataHash || |raw| != op.dataLength then Effect(Raised(AssertionError), image)
    else
      var argv := PatchArgv(op.kind, oldPath, outPath, patchPath,
                            Joined(Spans(op.srcExtents, bs)), Joined(Spans(op.dstExtents, bs)));
      match prims.patcher(argv, oldImage.value, raw, image)
      case None => Effect(Raised(FileNotFoundError), image)
      case Some(next) => Effect(Done, next)
  }

  method SourceDiffOperation(op: Operation, bs: nat, oldDir: string, name: string, oldImages: map<string, seq<byte>>,
                             patchPath: string, payload: File, out: File, prims: Primitives) returns (status: Status)
    requires Accepts(SourceDiffHandler, op.kind)
    requires payload.readable && payload != out
    modifies payload`pos, out`data
    ensures var oldImage := Lookup(oldImages, ImagePath(oldDir, name));
            var raw := ReadAt(payload.data, old(payload.pos), op.dataLength);
            && Effect(status, out.data)
               == SourceDiffEffect(op, bs, ImagePath(oldDir, name), out.name, patchPath, oldImage, raw, old(out.data), prims)
            && payload.pos == if ReadsPatch(op, bs, oldImage, prims) then old(payload.pos) + |raw| else old(payload.pos)
  {
    var oldPath := ImagePath(oldDir, name);
    if oldPath !in oldImages {
      return Raised(FileNotFoundError);
    }
    var oldFile := new File.Open(oldPath, oldImages[oldPath], true);
    var oldExtents, hashed := ReadSourceExtents(oldFile, op.srcExtents, bs);
    if prims.digest(Concat(hashed)) != op.srcHash {
      return Raised(AssertionError);
    }
    var patch := payload.Read(op.dataLength);
    if prims.digest(patch) != op.dataHash || |patch| != op.dataLength {
      return Raised(AssertionError);
    }
    var newExtents := RangeList(op.dstExtents, bs);
    AccumulatedThenStripped(Spans(op.srcExtents, bs));
    AccumulatedThenStripped(Spans(op.dstExtents, bs));
    var argv := PatchArgv(op.kind, oldPath, out.name, patchPath, DropLast(oldExtents), DropLast(newExtents));
    var next := prims.patcher(argv, oldImages[oldPath], patch, out.data);
    if next.None? {
      return Raised(FileNotFoundError);
    }
    out.data := next.value;
    return Done;
  }

  /**
   * The source loop of a source diff: for each source extent, in order, append
   * `'%d:%d,' % (offset, length)` to the range list and read the extent from
   * the old image into the digest (one `update` per extent).
   */
  method ReadSourceExtents(oldFile: File, src: seq<Extent>, bs: nat) returns (ranges: string, hashed: seq<seq<byte>>)
    requires oldFile.readable
    modifies oldFile`pos
    ensures ranges == Accumulated(Spans(src, bs))
    ensures Concat(hashed) == Gather(oldFile.data, src, bs)
  {
    ranges := "";
    hashed := [];
    var k := 0;
    while k < |src|
      invariant 0 <= k <= |src| && |hashed| == k
      invariant ranges == Accumulated(Spans(src[..k], bs))
      invariant Concat(hashed) == Gather(oldFile.data, src[..k], bs)
    {
      ranges := ranges + RangeText(ByteSpan(src[k], bs)) + ",";
      oldFile.Seek(Start(src[k], bs));
      var oldData := oldFile.Read(Size(src[k], bs));
      SpansSnoc(src, bs, k);
      assert (Spans(src[..k], bs) + [ByteSpan(src[k], bs)])[..k] == Spans(src[..k], bs);
      GatherSnoc(oldFile.data, src, bs, k);
      assert (hashed + [oldData])[..k] == hashed;
      hashed := hashed + [oldData];
      k := k + 1;
    }
    assert src[..k] == src;
  }

  /** The destination loop of a source diff: `'%d:%d,' % (offset, length)` per extent, in order. */
  method RangeList(es: seq<Extent>, bs: nat) returns (ranges: string)
    ensures ranges == Accumulated(Spans(es, bs))
  {
    ranges := "";
    var k := 0;
    while k < |es|
      invariant 0 <= k <= |es|
      invariant ranges == Accumulated(Spans(es[..k], bs))
    {
      ranges := ranges + RangeText(ByteSpan(es[k], bs)) + ",";
      SpansSnoc(es, bs, k);
      assert (Spans(es[..k], bs) + [ByteSpan(es[k], bs)])[..k] == Spans(es[..k], bs);
      k := k + 1;
    }
    assert es[..k] == es;
  }

  /**
   * The patcher is handed range lists it can read back exactly: parsing the
   * source and destination arguments gives the byte ranges of the source and
   * destination extents, in order.
   */
  lemma PatchRangesReadBack(kind: OpType, oldPath: string, outPath: string, patchPath: string,
                            src: seq<Extent>, dst: seq<Extent>, bs: nat)
    ensures var argv := PatchArgv(kind, oldPath, outPath, patchPath, Joined(Spans(src, bs)), Joined(Spans(dst, bs)));
            var (s, d) := if kind == Puffdiff then (argv[10], argv[12]) else (argv[4], argv[5]);
            ParseRanges(s) == Some(Spans(src, bs)) && ParseRanges(d) == Some(Spans(dst, bs))
  {
    ParseJoined(Spans(src, bs));
    ParseJoined(Spans(dst, bs));
  }
}
