/**
 * Python's binary file objects as the dumper uses them: `seek`, `read` (a short
 * read at the end of the file) and `write` (writing past the end extends the
 * file and zero-fills any gap).  The pure functions give the meaning of a read
 * or a write on the file's contents; `File` is the object the handlers mutate.
 */
module Seekable {
  import opened Base

  /** A byte range `[offset, offset + length)` of a file. */
  datatype Span = Span(offset: nat, length: nat)

  predicate InSpan(s: Span, i: int)
  {
    s.offset <= i < s.offset + s.length
  }

  /** Some span of `spans` covers position `i`. */
  predicate Covered(spans: seq<Span>, i: int)
  {
    exists k :: 0 <= k < |spans| && InSpan(spans[k], i)
  }

  /**
   * One past the last byte any non-empty span of `spans` reaches (0 for none):
   * an empty write does not extend a file, wherever it is aimed.
   */
  function SpansEnd(spans: seq<Span>): nat
  {
    if spans == [] then 0
    else
      var s := spans[|spans| - 1];
      Max(SpansEnd(spans[..|spans| - 1]), if s.length == 0 then 0 else s.offset + s.length)
  }

  /** `read(n)` at position `p`: at most `n` bytes, fewer at the end of the file, none past it. */
  function ReadAt(f: seq<byte>, p: nat, n: nat): (r: seq<byte>)
    ensures |r| == if p < |f| then Min(n, |f| - p) else 0
    ensures forall i :: 0 <= i < |r| ==> r[i] == f[p + i]
  {
    if p < |f| then f[p..Min(p + n, |f|)] else []
  }

  /** What position `i` holds after `d` is written at `p` over `f`. */
  function ByteAfterWrite(f: seq<byte>, p: nat, d: seq<byte>, i: nat): byte
  {
    if p <= i < p + |d| then d[i - p] else if i < |f| then f[i] else 0
  }

  /**
   * `seek(p); write(d)` on contents `f`: the file grows to cover the write,
   * any gap between the old end and `p` reads as zeros, and every byte outside
   * `[p, p + |d|)` keeps its value.  Writing nothing leaves the file as it is,
   * even when `p` lies past its end.
   */
  function WriteAt(f: seq<byte>, p: nat, d: seq<byte>): (r: seq<byte>)
    ensures |r| == if d == [] then |f| else Max(|f|, p + |d|)
    ensures forall i :: 0 <= i < |r| ==> r[i] == ByteAfterWrite(f, p, d, i)
  {
    if d == [] then f
    else
      var head := if p <= |f| then f[..p] else f + Zeros(p - |f|);
      var tail := if p + |d| < |f| then f[p + |d|..] else [];
      head + d + tail
  }

  /** Reading back what was just written returns it unchanged. */
  lemma ReadBackWritten(f: seq<byte>, p: nat, d: seq<byte>)
    ensures ReadAt(WriteAt(f, p, d), p, |d|) == d
  {
    var r := ReadAt(WriteAt(f, p, d), p, |d|);
    assert |r| == |d|;
    forall i | 0 <= i < |d| ensures r[i] == d[i] {
      assert ByteAfterWrite(f, p, d, p + i) == d[i];
    }
  }

  /** Two back-to-back writes (data, then padding) are one write of their concatenation. */
  lemma ContiguousWrites(f: seq<byte>, p: nat, d: seq<byte>, e: seq<byte>)
    ensures WriteAt(WriteAt(f, p, d), p + |d|, e) == WriteAt(f, p, d + e)
  {
    var g := WriteAt(f, p, d);
    var a := WriteAt(g, p + |d|, e);
    var b := WriteAt(f, p, d + e);
    assert |a| == |b|;
    forall i | 0 <= i < |a| ensures a[i] == b[i] {
      if p + |d| <= i < p + |d| + |e| {
        assert a[i] == e[i - p - |d|] == (d + e)[i - p];
      } else if i < |g| {
        assert a[i] == g[i];
      }
    }
  }

  /** The same buffer written at each offset of `offs`, in order. */
  function WriteEach(f: seq<byte>, offs: seq<nat>, d: seq<byte>): seq<byte>
  {
    if offs == [] then f
    else WriteAt(WriteEach(f, offs[..|offs| - 1], d), offs[|offs| - 1], d)
  }

  /** One past the last byte any of the writes of `WriteEach(_, offs, d)` with `|d| == n` reaches. */
  function WritesEnd(offs: seq<nat>, n: nat): nat
  {
    if offs == [] then 0 else Max(WritesEnd(offs[..|offs| - 1], n), offs[|offs| - 1] + n)
  }

  lemma {:induction false} WritesEndCovers(offs: seq<nat>, n: nat, k: nat)
    requires k < |offs|
    ensures offs[k] + n <= WritesEnd(offs, n)
  {
    if k < |offs| - 1 {
      WritesEndCovers(offs[..|offs| - 1], n, k);
    }
  }

  /**
   * The index of the last write (of length `n`, at the offsets `offs`) that covers
   * position `i`, or -1 when none does: that write decides the byte at `i`.
   */
  function LastCover(offs: seq<nat>, n: nat, i: nat): (k: int)
    ensures -1 <= k < |offs|
    ensures k >= 0 ==> offs[k] <= i < offs[k] + n
    ensures forall j :: k < j < |offs| ==> !(offs[j] <= i < offs[j] + n)
  {
    if offs == [] then -1
    else if offs[|offs| - 1] <= i < offs[|offs| - 1] + n then |offs| - 1
    else LastCover(offs[..|offs| - 1], n, i)
  }

  /** What position `i` holds after `WriteEach(f, offs, d)`. */
  function ByteAfterWrites(f: seq<byte>, offs: seq<nat>, d: seq<byte>, i: nat): byte
  {
    var k := LastCover(offs, |d|, i);
    if k >= 0 then d[i - offs[k]] else if i < |f| then f[i] else 0
  }

  /**
   * After writing `d` at every offset in turn, each position holds the byte of
   * the last write that covers it; positions no write covers keep their old
   * byte, or read as zero when they lie past the old end of the file.
   */
  lemma {:induction false} WriteEachBytes(f: seq<byte>, offs: seq<nat>, d: seq<byte>)
    ensures |WriteEach(f, offs, d)| == if d == [] then |f| else Max(|f|, WritesEnd(offs, |d|))
    ensures forall i :: 0 <= i < |WriteEach(f, offs, d)| ==>
              WriteEach(f, offs, d)[i] == ByteAfterWrites(f, offs, d, i)
  {
    if d == [] {
      EmptyWrites(f, offs);
      forall i | 0 <= i < |f| ensures f[i] == ByteAfterWrites(f, offs, d, i) {
        assert LastCover(offs, 0, i) == -1;
      }
    } else if offs != [] {
      var init := offs[..|offs| - 1];
      var o := offs[|offs| - 1];
      WriteEachBytes(f, init, d);
      var g := WriteEach(f, init, d);
      var r := WriteEach(f, offs, d);
      assert r == WriteAt(g, o, d);
      forall i | 0 <= i < |r| ensures r[i] == ByteAfterWrites(f, offs, d, i) {
        WriteStepByte(f, offs, d, g, i);
      }
    }
  }

  /** The last write of `WriteEach`, seen at one position `i`. */
  lemma WriteStepByte(f: seq<byte>, offs: seq<nat>, d: seq<byte>, g: seq<byte>, i: nat)
    requires offs != [] && d != []
    requires |g| == Max(|f|, WritesEnd(offs[..|offs| - 1], |d|))
    requires i < |g| ==> g[i] == ByteAfterWrites(f, offs[..|offs| - 1], d, i)
    requires i < |WriteAt(g, offs[|offs| - 1], d)|
    ensures WriteAt(g, offs[|offs| - 1], d)[i] == ByteAfterWrites(f, offs, d, i)
  {
    var init, o := offs[..|offs| - 1], offs[|offs| - 1];
    if o <= i < o + |d| {
      assert LastCover(offs, |d|, i) == |offs| - 1;
    } else {
      var k := LastCover(init, |d|, i);
      assert LastCover(offs, |d|, i) == k;
      if k >= 0 {
        assert offs[k] == init[k];
        WritesEndCovers(init, |d|, k);
      }
    }
  }

  /** Writing an empty buffer any number of times leaves the file as it is. */
  lemma {:induction false} EmptyWrites(f: seq<byte>, offs: seq<nat>)
    ensures WriteEach(f, offs, []) == f
  {
    if offs != [] {
      EmptyWrites(f, offs[..|offs| - 1]);
    }
  }

  /** One more write after a sequence of writes. */
  lemma WriteEachSnoc(f: seq<byte>, offs: seq<nat>, o: nat, d: seq<byte>)
    ensures WriteEach(f, offs + [o], d) == WriteAt(WriteEach(f, offs, d), o, d)
  {
    assert (offs + [o])[..|offs|] == offs;
  }

  /** The writes at offsets `a` and `b`, each `n` bytes long, share no position. */
  predicate Disjoint(a: nat, b: nat, n: nat)
  {
    a + n <= b || b + n <= a
  }

  /**
   * A write that no later write overlaps survives: its bytes read back intact
   * once all the writes are done.
   */
  lemma WriteEachReadBack(f: seq<byte>, offs: seq<nat>, d: seq<byte>, k: nat)
    requires k < |offs|
    requires forall j :: k < j < |offs| ==> Disjoint(offs[j], offs[k], |d|)
    ensures ReadAt(WriteEach(f, offs, d), offs[k], |d|) == d
  {
    if d != [] {
      var r := WriteEach(f, offs, d);
      WriteEachBytes(f, offs, d);
      WritesEndCovers(offs, |d|, k);
      var got := ReadAt(r, offs[k], |d|);
      assert |got| == |d|;
      forall i | 0 <= i < |d| ensures got[i] == d[i] {
        WrittenByteReadBack(f, offs, d, k, i);
        assert got[i] == r[offs[k] + i];
      }
    }
  }

  /** One byte of the write at `offs[k]`, when no later write overlaps it. */
  lemma WrittenByteReadBack(f: seq<byte>, offs: seq<nat>, d: seq<byte>, k: nat, i: nat)
    requires k < |offs| && i < |d|
    requires forall j :: k < j < |offs| ==> Disjoint(offs[j], offs[k], |d|)
    ensures ByteAfterWrites(f, offs, d, offs[k] + i) == d[i]
  {
    LastCoverIs(offs, |d|, k, offs[k] + i);
  }

  /** A write no later write overlaps is the last cover of each position it writes. */
  lemma {:induction false} LastCoverIs(offs: seq<nat>, n: nat, k: nat, i: nat)
    requires k < |offs| && offs[k] <= i < offs[k] + n
    requires forall j :: k < j < |offs| ==> Disjoint(offs[j], offs[k], n)
    ensures LastCover(offs, n, i) == k
  {
    if k < |offs| - 1 {
      var init := offs[..|offs| - 1];
      assert Disjoint(offs[|offs| - 1], offs[k], n);
      LastCoverIs(init, n, k, i);
    }
  }

  /** Positions of the old file that no write covers keep their bytes. */
  lemma WriteEachOutside(f: seq<byte>, offs: seq<nat>, d: seq<byte>, i: nat)
    requires i < |f|
    requires forall j :: 0 <= j < |offs| ==> !(offs[j] <= i < offs[j] + |d|)
    ensures i < |WriteEach(f, offs, d)| && WriteEach(f, offs, d)[i] == f[i]
  {
    WriteEachBytes(f, offs, d);
  }

  /** Zero bytes written over each span in turn, as `write(b'\0' * length)`. */
  function ZeroEach(f: seq<byte>, spans: seq<Span>): seq<byte>
  {
    if spans == [] then f
    else
      var s := spans[|spans| - 1];
      WriteAt(ZeroEach(f, spans[..|spans| - 1]), s.offset, Zeros(s.length))
  }

  /**
   * After zeroing every span, each covered position holds zero, the file
   * reaches the end of the furthest non-empty span (an empty span leaves the
   * length alone), and every uncovered position below the old end keeps its
   * byte (positions past it read as zero).
   */
  lemma {:induction false} ZeroEachBytes(f: seq<byte>, spans: seq<Span>)
    ensures |ZeroEach(f, spans)| == Max(|f|, SpansEnd(spans))
    ensures forall i :: 0 <= i < |ZeroEach(f, spans)| ==>
              ZeroEach(f, spans)[i] == if Covered(spans, i) || i >= |f| then 0 else f[i]
  {
    if spans != [] {
      var init := spans[..|spans| - 1];
      var s := spans[|spans| - 1];
      ZeroEachBytes(f, init);
      var g := ZeroEach(f, init);
      var r := ZeroEach(f, spans);
      forall i | 0 <= i < |r| ensures r[i] == if Covered(spans, i) || i >= |f| then 0 else f[i] {
        if InSpan(s, i) {
          assert Covered(spans, i) by { assert InSpan(spans[|spans| - 1], i); }
        } else {
          assert Covered(spans, i) == Covered(init, i) by {
            if Covered(spans, i) {
              var k :| 0 <= k < |spans| && InSpan(spans[k], i);
              assert k < |spans| - 1 && init[k] == spans[k];
            }
            if Covered(init, i) {
              var k :| 0 <= k < |init| && InSpan(init[k], i);
              assert spans[k] == init[k];
            }
          }
        }
      }
    }
  }

  /** An open binary file: its contents, its position and whether it was opened for reading. */
  class File {
    var data: seq<byte>
    var pos: nat
    const readable: bool
    const name: string

    /** `open(name, mode)` on a file with these contents, positioned at its start. */
    constructor Open(name: string, contents: seq<byte>, readable: bool)
      ensures this.name == name && this.readable == readable
      ensures data == contents && pos == 0
    {
      this.name := name;
      this.readable := readable;
      data := contents;
      pos := 0;
    }

    /** `seek(p)`: any position, including one past the end, is accepted. */
    method Seek(p: nat)
      modifies this`pos
      ensures pos == p
    {
      pos := p;
    }

    /** `tell()`. */
    method Tell() returns (p: nat)
      ensures p == pos
    {
      p := pos;
    }

    /** `read(n)`: a short read at the end of the file; the position moves past what was read. */
    method Read(n: nat) returns (r: seq<byte>)
      requires readable
      modifies this`pos
      ensures r == ReadAt(data, old(pos), n)
      ensures pos == old(pos) + |r|
    {
      r := ReadAt(data, pos, n);
      pos := pos + |r|;
    }

    /** `write(d)`: overwrites from the position on, extending the file as needed. */
    method Write(d: seq<byte>)
      modifies this`data, this`pos
      ensures data == WriteAt(old(data), old(pos), d)
      ensures pos == old(pos) + |d|
    {
      data := WriteAt(data, pos, d);
      pos := pos + |d|;
    }
  }
}
