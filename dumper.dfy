/**
 * The dumper's driver: the per-partition loop that dispatches each install
 * operation to its handler, the exception handling around it (which output
 * files survive and whether the run goes on), the optional `--check` pass that
 * hashes the finished image, and the main program that parses the envelope and
 * dumps every partition in manifest order.
 */
module Dumper {
  import opened Base
  import opened Seekable
  import opened Extents
  import opened Envelope
  import opened Manifest
  import opened Handlers

  /** How the output image is opened: `'wb'` as the program does, or for reading too. */
  datatype Mode = WriteOnly | ReadWrite

  /** The command-line options the core looks at: `--old`, `--out` and `--check`. */
  datatype Config = Config(oldDir: string, outDir: string, check: bool)

  /**
   * Everything a partition's operations see besides the output image: the
   * payload bytes and the offset of its data region, the manifest's block size,
   * the options, how the output is opened, the old images present on disk (by
   * path), the path of the temporary patch file and the collaborators.
   */
  datatype Env = Env(payload: seq<byte>, dataOffset: nat, bs: nat, cfg: Config, outMode: Mode,
                     oldImages: map<string, seq<byte>>, patchPath: string, prims: Primitives)

  // ---------------------------------------------------------------------------
  // Dispatch

  /**
   * The `if`/`elif` chain on the operation type: eleven types reach a handler,
   * and the commented-out BSDIFF branch leaves BSDIFF (like any unknown type)
   * to the unsupported-type branch.  A routed operation always satisfies its
   * handler's leading `assert`.
   */
  function Route(t: OpType): (r: Option<Handler>)
    ensures forall h :: Accepts(h, t) <==> r == Some(h)
  {
    match t
    case Replace | ReplaceBz | ReplaceXz => Some(ReplaceHandler)
    case Move => Some(MoveHandler)
    case SourceCopy => Some(SourceCopyHandler)
    case SourceBsdiff | Puffdiff | BrotliBsdiff => Some(SourceDiffHandler)
    case Zero | Discard => Some(ZeroHandler)
    case Bsdiff | Other(_) => None
  }

  /** The `data_length` payload bytes at `data_offset + op.data_offset`, where the payload is sought before each operation. */
  function Raw(env: Env, op: Operation): seq<byte>
  {
    ReadAt(env.payload, env.dataOffset + op.dataOffset, op.dataLength)
  }

  /** What one operation of partition `name` does to the output image; None for an unsupported type. */
  function OpEffect(env: Env, name: string, op: Operation, image: seq<byte>): Option<Effect>
  {
    match Route(op.kind)
    case None => None
    case Some(h) => Some(HandlerEffect(env, name, h, op, image))
  }

  /** What handler `h` does with operation `op` of partition `name`. */
  function HandlerEffect(env: Env, name: string, h: Handler, op: Operation, image: seq<byte>): Effect
  {
    var oldPath := ImagePath(env.cfg.oldDir, name);
    match h
    case ReplaceHandler => ReplaceEffect(op, env.bs, Raw(env, op), image, env.prims)
    case MoveHandler => MoveEffect(op, env.bs, image, env.outMode == ReadWrite, env.prims)
    case SourceCopyHandler => SourceCopyEffect(op, env.bs, Lookup(env.oldImages, oldPath), image, env.prims)
    case SourceDiffHandler =>
      SourceDiffEffect(op, env.bs, oldPath, ImagePath(env.cfg.outDir, name), env.patchPath,
                       Lookup(env.oldImages, oldPath), Raw(env, op), image, env.prims)
    case ZeroHandler => ZeroEffect(op, env.bs, image)
  }

  /** One iteration of the operation loop: seek the payload, then call the handler the type selects. */
  method ApplyOperation(env: Env, name: string, op: Operation, payload: File, out: File) returns (r: Option<Status>)
    requires payload.readable && payload != out && payload.data == env.payload
    requires out.name == ImagePath(env.cfg.outDir, name) && out.readable == (env.outMode == ReadWrite)
    modifies payload`pos, out`data, out`pos
    ensures match OpEffect(env, name, op, old(out.data))
            case None => r == None && out.data == old(out.data)
            case Some(e) => r == Some(e.status) && out.data == e.image
  {
    payload.Seek(env.dataOffset + op.dataOffset);
    match op.kind
    case Replace | ReplaceBz | ReplaceXz =>
      var s := ReplaceOperation(op, env.bs, payload, out, env.prims);
      assert Effect(s, out.data) == HandlerEffect(env, name, ReplaceHandler, op, old(out.data));
      assert OpEffect(env, name, op, old(out.data)) == Some(Effect(s, out.data));
      r := Some(s);
    case Move =>
      var s := MoveOperation(op, env.bs, out, env.prims);
      assert Effect(s, out.data) == HandlerEffect(env, name, MoveHandler, op, old(out.data));
      assert OpEffect(env, name, op, old(out.data)) == Some(Effect(s, out.data));
      r := Some(s);
    case SourceCopy =>
      var s := SourceCopyOperation(op, env.bs, env.cfg.oldDir, name, env.oldImages, out, env.prims);
      assert Effect(s, out.data) == HandlerEffect(env, name, SourceCopyHandler, op, old(out.data));
      assert OpEffect(env, name, op, old(out.data)) == Some(Effect(s, out.data));
      r := Some(s);
    case SourceBsdiff | Puffdiff | BrotliBsdiff =>
      var s := SourceDiffOperation(op, env.bs, env.cfg.oldDir, name, env.oldImages, env.patchPath, payload, out, env.prims);
      assert Effect(s, out.data) == HandlerEffect(env, name, SourceDiffHandler, op, old(out.data));
      assert OpEffect(env, name, op, old(out.data)) == Some(Effect(s, out.data));
      r := Some(s);
    case Zero | Discard =>
      ZeroOperation(op, env.bs, out);
      assert Effect(Done, out.data) == HandlerEffect(env, name, ZeroHandler, op, old(out.data));
      assert OpEffect(env, name, op, old(out.data)) == Some(Effect(Done, out.data));
      r := Some(Done);
    case Bsdiff | Other(_) =>
      r := None;
  }

  // ---------------------------------------------------------------------------
  // One partition

  /** Why the operation loop ended early. */
  datatype Cause = Unsupported(kind: OpType) | Threw(exc: Exc)

  /** The operation loop: every operation in order, or the first one that ends it. */
  datatype Run = Completed(image: seq<byte>) | Stopped(cause: Cause)

  function RunOps(env: Env, name: string, ops: seq<Operation>, image: seq<byte>): Run
    decreases |ops|
  {
    if ops == [] then Completed(image)
    else
      match OpEffect(env, name, ops[0], image)
      case None => Stopped(Unsupported(ops[0].kind))
      case Some(Effect(Done, next)) => RunOps(env, name, ops[1..], next)
      case Some(Effect(Raised(e), _)) => Stopped(Threw(e))
  }

  /** Running two lists of operations back to back is running the first, then the second from where it left off. */
  lemma {:induction false} RunOpsAppend(env: Env, name: string, xs: seq<Operation>, ys: seq<Operation>, image: seq<byte>)
    ensures RunOps(env, name, xs + ys, image)
            == match RunOps(env, name, xs, image)
               case Completed(next) => RunOps(env, name, ys, next)
               case Stopped(c) => Stopped(c)
  {
    if xs == [] {
      assert xs + ys == ys;
    } else {
      assert (xs + ys)[0] == xs[0] && (xs + ys)[1..] == xs[1..] + ys;
      match OpEffect(env, name, xs[0], image)
      case None =>
      case Some(Effect(Done, next)) => RunOpsAppend(env, name, xs[1..], ys, next);
      case Some(Effect(Raised(e), _)) =>
    }
  }

  /** Once the first `k` operations have completed, the run goes on from the image they left. */
  lemma RunOpsFrom(env: Env, name: string, ops: seq<Operation>, k: nat)
    requires k <= |ops| && RunOps(env, name, ops[..k], []).Completed?
    ensures RunOps(env, name, ops, []) == RunOps(env, name, ops[k..], RunOps(env, name, ops[..k], []).image)
  {
    assert ops == ops[..k] + ops[k..];
    RunOpsAppend(env, name, ops[..k], ops[k..], []);
  }

  /** Once the first `k` operations have completed, operation `k` decides how the first `k + 1` end. */
  lemma RunOpsSnoc(env: Env, name: string, ops: seq<Operation>, k: nat)
    requires k < |ops| && RunOps(env, name, ops[..k], []).Completed?
    ensures var image := RunOps(env, name, ops[..k], []).image;
            RunOps(env, name, ops[..k + 1], [])
            == match OpEffect(env, name, ops[k], image)
               case None => Stopped(Unsupported(ops[k].kind))
               case Some(Effect(Done, next)) => Completed(next)
               case Some(Effect(Raised(e), _)) => Stopped(Threw(e))
  {
    var prefix := ops[..k + 1];
    assert prefix[..k] == ops[..k] && prefix[k..] == [ops[k]];
    RunOpsFrom(env, name, prefix, k);
    assert [ops[k]][1..] == [];
  }

  /** The exceptions the partition's `except` clauses catch: the output is deleted and the run moves on. */
  predicate Caught(e: Exc)
  {
    e == AssertionError || e == FileNotFoundError
  }

  /**
   * What becomes of one partition.  `Kept`: the image stays on disk (with the
   * `--check` verdict when checking).  `Unlinked`: the output was deleted and
   * the run continues.  `Escaped`: the output was deleted and the exception
   * ends the run.  `SizeMismatch`: the size assertion after the check failed;
   * it lies outside the `try`, so the image stays and the run ends.
   */
  datatype Outcome =
    | Kept(image: seq<byte>, hashMatch: Option<bool>)
    | Unlinked(cause: Cause)
    | Escaped(exc: Exc)
    | SizeMismatch(image: seq<byte>, hashMatches: bool)

  /** Outcomes after which no further partition is dumped. */
  predicate Stops(o: Outcome)
  {
    o.Escaped? || o.SizeMismatch?
  }

  /** The `--check` pass hashes at most `size` bytes from the start of the image. */
  function CheckedPrefix(image: seq<byte>, size: nat): seq<byte>
  {
    image[..Min(size, |image|)]
  }

  function PartitionOutcome(env: Env, part: PartitionUpdate): Outcome
  {
    match RunOps(env, part.name, part.operations, [])
    case Stopped(Unsupported(t)) => Unlinked(Unsupported(t))
    case Stopped(Threw(e)) => if Caught(e) then Unlinked(Threw(e)) else Escaped(e)
    case Completed(image) =>
      if !env.cfg.check then Kept(image, None)
      else
        var matches := env.prims.digest(CheckedPrefix(image, part.newInfo.size)) == part.newInfo.hash;
        if |image| == part.newInfo.size then Kept(image, Some(matches)) else SizeMismatch(image, matches)
  }

  /** The chunk size of the `--check` pass, `BLOCK_SIZE`. */
  const ChunkSize: nat := 1048576

  /**
   * The `--check` read loop on the reopened image: reads of at most
   * `ChunkSize` bytes, never past `size` bytes in total, until a read comes back
   * empty.  Every chunk hashed is non-empty, all but the last are full, and
   * together they are the first `size` bytes of the image (all of it when it
   * is shorter).
   */
  method HashImage(f: File, size: nat) returns (chunks: seq<seq<byte>>)
    requires f.readable && f.pos == 0
    modifies f`pos
    ensures Concat(chunks) == CheckedPrefix(f.data, size)
    ensures Chunked(chunks)
  {
    var remaining: nat := size;
    var data := ReadChunk(f, remaining);
    remaining := remaining - |data|;
    chunks := [];
    while |data| > 0
      invariant f.pos <= |f.data| && remaining == size - f.pos
      invariant Scanned(f.data, size, f.pos, chunks, data)
      decreases remaining + |data|
    {
      var last := data;
      data := ReadChunk(f, remaining);
      remaining := remaining - |data|;
      HashStep(f.data, size, f.pos - |data|, chunks, last, data);
      chunks := chunks + [last];
    }
    ScanDone(f.data, size, f.pos, chunks);
  }

  /** Non-empty chunks of at most `ChunkSize` bytes, all of them full but the last. */
  predicate Chunked(chunks: seq<seq<byte>>)
  {
    && (forall i :: 0 <= i < |chunks| ==> 0 < |chunks[i]| <= ChunkSize)
    && (forall i :: 0 <= i < |chunks| - 1 ==> |chunks[i]| == ChunkSize)
  }

  /**
   * The state of the check loop over contents `s` once `pos` bytes have been
   * read: `chunks` hashed, `data` read but not yet hashed; a read shorter than
   * `ChunkSize` happens only when the size or the end of the file is reached.
   */
  predicate Scanned(s: seq<byte>, size: nat, pos: nat, chunks: seq<seq<byte>>, data: seq<byte>)
  {
    && pos <= size && pos <= |s|
    && Concat(chunks) + data == s[..pos]
    && |data| <= ChunkSize
    && (|data| < ChunkSize ==> pos == size || pos == |s|)
    && Chunked(chunks)
    && (|data| > 0 && chunks != [] ==> |chunks[|chunks| - 1]| == ChunkSize)
  }

  /** One turn of the check loop: the chunk just read is hashed and the next one read after it. */
  lemma HashStep(s: seq<byte>, size: nat, p: nat, chunks: seq<seq<byte>>, last: seq<byte>, data: seq<byte>)
    requires Scanned(s, size, p, chunks, last) && |last| > 0
    requires p + |data| <= |s| && p + |data| <= size && data == s[p..p + |data|] && |data| <= ChunkSize
    requires |data| < ChunkSize ==> p + |data| == size || p + |data| == |s|
    ensures Scanned(s, size, p + |data|, chunks + [last], data)
  {
    assert s[..p + |data|] == s[..p] + data;
  }

  /** When a read comes back empty, all of the first `size` bytes (or the whole file) have been hashed. */
  lemma ScanDone(s: seq<byte>, size: nat, pos: nat, chunks: seq<seq<byte>>)
    requires Scanned(s, size, pos, chunks, [])
    ensures Concat(chunks) == CheckedPrefix(s, size) && Chunked(chunks)
  {
    assert Concat(chunks) + [] == Concat(chunks);
  }

  /** One read of the check loop: `read(min(data_size, BLOCK_SIZE))`. */
  method ReadChunk(f: File, remaining: nat) returns (data: seq<byte>)
    requires f.readable && f.pos <= |f.data|
    modifies f`pos
    ensures f.pos == old(f.pos) + |data| <= |f.data| && data == f.data[old(f.pos)..f.pos]
    ensures |data| <= ChunkSize && |data| <= remaining
    ensures |data| < ChunkSize ==> |data| == remaining || f.pos == |f.data|
  {
    data := f.Read(Min(remaining, ChunkSize));
  }

  /**
   * `dump_partition`: the output `<out>/<name>.img` is created empty, each
   * operation runs after the payload is sought to its data; an unsupported
   * type or a caught exception deletes the output and skips the rest of the
   * partition, any other exception deletes it and propagates; with `--check`
   * the finished image is hashed and its size asserted.
   */
  method DumpPartition(env: Env, part: PartitionUpdate, payload: File) returns (outcome: Outcome)
    requires payload.readable && payload.data == env.payload
    modifies payload`pos
    ensures outcome == PartitionOutcome(env, part)
  {
    var out := new File.Open(ImagePath(env.cfg.outDir, part.name), [], env.outMode == ReadWrite);
    var ops := part.operations;
    var k := 0;
    while k < |ops|
      invariant 0 <= k <= |ops|
      invariant RunOps(env, part.name, ops, []) == RunOps(env, part.name, ops[k..], out.data)
    {
      assert ops[k..][0] == ops[k] && ops[k..][1..] == ops[k + 1..];
      var r := ApplyOperation(env, part.name, ops[k], payload, out);
      match r
      case None =>
        return Unlinked(Unsupported(ops[k].kind));
      case Some(Raised(e)) =>
        if Caught(e) {
          return Unlinked(Threw(e));
        }
        return Escaped(e);
      case Some(Done) =>
      k := k + 1;
    }
    var image := out.data;
    if !env.cfg.check {
      return Kept(image, None);
    }
    var imageFile := new File.Open(out.name, image, true);
    var chunks := HashImage(imageFile, part.newInfo.size);
    var matches := env.prims.digest(Concat(chunks)) == part.newInfo.hash;
    if |imageFile.data| != part.newInfo.size {
      return SizeMismatch(image, matches);
    }
    return Kept(image, Some(matches));
  }

  // ---------------------------------------------------------------------------
  // Properties of one partition

  /**
   * An operation the dispatch does not know (BSDIFF included) ends the
   * partition when it is reached, whatever comes after it: the output is
   * deleted and the run continues.
   */
  lemma UnsupportedDeletes(env: Env, part: PartitionUpdate, k: nat)
    requires k < |part.operations| && Route(part.operations[k].kind).None?
    requires RunOps(env, part.name, part.operations[..k], []).Completed?
    ensures PartitionOutcome(env, part) == Unlinked(Unsupported(part.operations[k].kind))
  {
    var ops := part.operations;
    RunOpsFrom(env, part.name, ops, k);
    assert ops[k..][0] == ops[k];
  }

  /**
   * A reached replace whose payload bytes do not match their digest deletes
   * the output: the partition is skipped and the run continues.
   */
  lemma CorruptDataDeletes(env: Env, part: PartitionUpdate, k: nat)
    requires k < |part.operations| && Route(part.operations[k].kind) == Some(ReplaceHandler)
    requires env.prims.digest(Raw(env, part.operations[k])) != part.operations[k].dataHash
    requires RunOps(env, part.name, part.operations[..k], []).Completed?
    ensures PartitionOutcome(env, part) == Unlinked(Threw(AssertionError))
  {
    var ops := part.operations;
    RunOpsFrom(env, part.name, ops, k);
    var image := RunOps(env, part.name, ops[..k], []).image;
    assert ops[k..][0] == ops[k];
    assert OpEffect(env, part.name, ops[k], image) == Some(Effect(Raised(AssertionError), image));
  }

  /**
   * With `--check`, a completed image of exactly the declared size whose
   * bytes have the declared digest is kept and reported as a match; one whose
   * digest differs is kept and reported as a mismatch, and the run goes on.
   */
  lemma CheckVerdict(env: Env, part: PartitionUpdate)
    requires env.cfg.check && RunOps(env, part.name, part.operations, []).Completed?
    requires |RunOps(env, part.name, part.operations, []).image| == part.newInfo.size
    ensures var image := RunOps(env, part.name, part.operations, []).image;
            PartitionOutcome(env, part) == Kept(image, Some(env.prims.digest(image) == part.newInfo.hash))
            && !Stops(PartitionOutcome(env, part))
  {
    var image := RunOps(env, part.name, part.operations, []).image;
    assert CheckedPrefix(image, part.newInfo.size) == image;
  }

  /**
   * A full image in two operations, with a block size of 4096: a REPLACE of
   * 4096 payload bytes `d` into block 0, then a ZERO of block 1.  The image is
   * `d` followed by 4096 zero bytes, and with `--check` and a declared size of
   * 8192 and the digest of those bytes, it is kept and reported as a match.
   */
  lemma ReplaceThenZero(env: Env, name: string, d: seq<byte>)
    requires env.bs == 4096 && |d| == 4096 && ReadAt(env.payload, env.dataOffset, 4096) == d
    ensures var replace := Operation(Replace, 0, 4096, env.prims.digest(d), [], [], [Extent(0, 1)]);
            var zero := Operation(Zero, 0, 0, [], [], [], [Extent(1, 1)]);
            var image := d + Zeros(4096);
            && RunOps(env, name, [replace, zero], []) == Completed(image)
            && (env.cfg.check ==>
                  PartitionOutcome(env, PartitionUpdate(name, PartitionInfo(8192, env.prims.digest(image)), [replace, zero]))
                  == Kept(image, Some(true)))
  {
    var replace := Operation(Replace, 0, 4096, env.prims.digest(d), [], [], [Extent(0, 1)]);
    var zero := Operation(Zero, 0, 0, [], [], [], [Extent(1, 1)]);
    var image := d + Zeros(4096);
    assert Offsets([Extent(0, 1)], 4096) == [0];
    assert Padded(d, 4096) == d;
    assert WriteEach([], [0], d) == WriteAt([], 0, d);
    assert WriteAt([], 0, d) == d;
    assert ReplaceEffect(replace, 4096, Raw(env, replace), [], env.prims) == Effect(Done, d);
    assert Spans([Extent(1, 1)], 4096) == [Span(4096, 4096)];
    assert ZeroEach(d, [Span(4096, 4096)]) == WriteAt(d, 4096, Zeros(4096));
    assert WriteAt(d, 4096, Zeros(4096)) == image;
    assert [replace, zero][1..] == [zero];
    assert RunOps(env, name, [zero], d) == Completed(image);
    assert CheckedPrefix(image, 8192) == image;
  }

  // ---------------------------------------------------------------------------
  // The output file's open mode

  /**
   * As written, the output is opened `'wb'`: a MOVE with any source extent
   * reads from a write-only file, which raises `io.UnsupportedOperation`.  No
   * `except` clause names it, so the bare `except` deletes the output and
   * re-raises, and no later partition is dumped.
   */
  lemma MoveOnWriteOnlyOutputEscapes(env: Env, part: PartitionUpdate, k: nat)
    requires env.outMode == WriteOnly
    requires k < |part.operations| && part.operations[k].kind == Move && part.operations[k].srcExtents != []
    requires RunOps(env, part.name, part.operations[..k], []).Completed?
    ensures PartitionOutcome(env, part) == Escaped(UnsupportedOperation) && Stops(PartitionOutcome(env, part))
  {
    var ops := part.operations;
    RunOpsFrom(env, part.name, ops, k);
    assert ops[k..][0] == ops[k];
  }

  /**
   * With the output opened for reading as well as writing, the same MOVE reads
   * the source blocks of the image built so far and, when they match their
   * digest, copies them to the start of every destination extent that no later
   * destination extent overlaps; the partition goes on with the next operation.
   */
  lemma MoveOnReadWriteOutputCopies(env: Env, part: PartitionUpdate, k: nat, j: nat)
    requires env.outMode == ReadWrite
    requires k < |part.operations| && part.operations[k].kind == Move
    requires RunOps(env, part.name, part.operations[..k], []).Completed?
    requires var op := part.operations[k];
             var image := RunOps(env, part.name, part.operations[..k], []).image;
             var data := Gather(image, op.srcExtents, env.bs);
             && env.prims.digest(data) == op.srcHash
             && j < |op.dstExtents|
             && forall i :: j < i < |op.dstExtents| ==>
                  Disjoint(Start(op.dstExtents[i], env.bs), Start(op.dstExtents[j], env.bs), |data|)
    ensures var op := part.operations[k];
            var image := RunOps(env, part.name, part.operations[..k], []).image;
            var data := Gather(image, op.srcExtents, env.bs);
            var run := RunOps(env, part.name, part.operations[..k + 1], []);
            && run.Completed?
            && ReadAt(run.image, Start(op.dstExtents[j], env.bs), |data|) == data
  {
    var ops := part.operations;
    var op := ops[k];
    var image := RunOps(env, part.name, ops[..k], []).image;
    RunOpsSnoc(env, part.name, ops, k);
    assert OpEffect(env, part.name, op, image) == Some(MoveEffect(op, env.bs, image, true, env.prims));
    MoveCopies(op, env.bs, image, env.prims, j);
  }

  // ---------------------------------------------------------------------------
  // The whole payload

  /** The outcomes up to and including the first one that ends the run. */
  function UpToStop(os: seq<Outcome>): (r: seq<Outcome>)
    ensures |r| <= |os| && r == os[..|r|]
    ensures forall i :: 0 <= i < |r| - 1 ==> !Stops(r[i])
    ensures |r| < |os| ==> |r| > 0 && Stops(r[|r| - 1])
  {
    if os == [] then []
    else if Stops(os[0]) then [os[0]]
    else [os[0]] + UpToStop(os[1..])
  }

  /** When outcome `k` is the first that ends the run, the run ends after it. */
  lemma {:induction false} UpToStopAt(os: seq<Outcome>, k: nat)
    requires k < |os| && Stops(os[k]) && forall i :: 0 <= i < k ==> !Stops(os[i])
    ensures UpToStop(os) == os[..k + 1]
  {
    if k > 0 {
      UpToStopAt(os[1..], k - 1);
      assert os[..k + 1] == [os[0]] + os[1..][..k];
    }
  }

  /** When no outcome ends the run, every partition is dumped. */
  lemma {:induction false} UpToStopAll(os: seq<Outcome>)
    requires forall i :: 0 <= i < |os| ==> !Stops(os[i])
    ensures UpToStop(os) == os
  {
    if os != [] {
      UpToStopAll(os[1..]);
      assert os == [os[0]] + os[1..];
    }
  }

  lemma PrefixSnoc(os: seq<Outcome>, k: nat)
    requires k < |os|
    ensures os[..k + 1] == os[..k] + [os[k]]
  {
  }

  /** Each partition's outcome on its own, in manifest order. */
  function Outcomes(env: Env, parts: seq<PartitionUpdate>): (os: seq<Outcome>)
    ensures |os| == |parts| && forall i :: 0 <= i < |parts| ==> os[i] == PartitionOutcome(env, parts[i])
  {
    seq(|parts|, i requires 0 <= i < |parts| => PartitionOutcome(env, parts[i]))
  }

  /**
   * The partitions dumped in manifest order, up to and including the first one
   * that ends the run.  Each outcome depends on its own partition only: a
   * partition that fails and is deleted does not change what later ones do.
   */
  function DumpAll(env: Env, parts: seq<PartitionUpdate>): (r: seq<Outcome>)
    ensures |r| <= |parts|
    ensures forall i :: 0 <= i < |r| ==> r[i] == PartitionOutcome(env, parts[i])
    ensures forall i :: 0 <= i < |r| - 1 ==> !Stops(r[i])
    ensures |r| < |parts| ==> |r| > 0 && Stops(r[|r| - 1])
  {
    UpToStop(Outcomes(env, parts))
  }

  /** Why the main program stops before dumping anything. */
  datatype RunError = HeaderRejected(e: HeaderError) | ManifestRejected

  /**
   * The main program on payload bytes `p`: the envelope is parsed, the
   * manifest decoded (by `decode`, None when the protobuf parse fails), and
   * every partition dumped with the data region starting right after the
   * signature.
   */
  function Dump(p: seq<byte>, decode: seq<byte> -> Option<DeltaManifest>, cfg: Config, outMode: Mode,
                oldImages: map<string, seq<byte>>, patchPath: string, prims: Primitives): Result<seq<Outcome>, RunError>
  {
    match DecodeHeader(p)
    case Err(e) => Err(HeaderRejected(e))
    case Ok(h) =>
      match decode(h.manifest)
      case None => Err(ManifestRejected)
      case Some(m) =>
        Ok(DumpAll(Env(p, h.dataOffset, m.blockSize, cfg, outMode, oldImages, patchPath, prims), m.partitions))
  }

  method DumpPayload(p: seq<byte>, decode: seq<byte> -> Option<DeltaManifest>, cfg: Config, outMode: Mode,
                     oldImages: map<string, seq<byte>>, patchPath: string, prims: Primitives)
    returns (r: Result<seq<Outcome>, RunError>)
    ensures r == Dump(p, decode, cfg, outMode, oldImages, patchPath, prims)
  {
    var payload := new File.Open("payload.bin", p, true);
    var header := ReadHeader(payload);
    if header.Err? {
      return Err(HeaderRejected(header.error));
    }
    var manifest := decode(header.value.manifest);
    if manifest.None? {
      return Err(ManifestRejected);
    }
    var dataOffset := payload.Tell();
    var env := Env(p, dataOffset, manifest.value.blockSize, cfg, outMode, oldImages, patchPath, prims);
    var outcomes := DumpPartitions(env, manifest.value.partitions, payload);
    r := Ok(outcomes);
  }

  /** The main loop: `dump_partition` for each partition in order, until one ends the run. */
  method DumpPartitions(env: Env, parts: seq<PartitionUpdate>, payload: File) returns (outcomes: seq<Outcome>)
    requires payload.readable && payload.data == env.payload
    modifies payload`pos
    ensures outcomes == DumpAll(env, parts)
  {
    ghost var os := Outcomes(env, parts);
    outcomes := [];
    var k := 0;
    while k < |parts|
      invariant 0 <= k <= |parts| && outcomes == os[..k]
      invariant forall i :: 0 <= i < k ==> !Stops(os[i])
    {
      var o := DumpPartition(env, parts[k], payload);
      PrefixSnoc(os, k);
      outcomes := outcomes + [o];
      if Stops(o) {
        UpToStopAt(os, k);
        return;
      }
      k := k + 1;
    }
    UpToStopAll(os);
    assert os[..k] == os;
  }
}
