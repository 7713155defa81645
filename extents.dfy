/**
 * Extent arithmetic: an extent names `numBlocks` blocks starting at block
 * `startBlock`; with the manifest's block size it becomes the byte range
 * `[startBlock * bs, startBlock * bs + numBlocks * bs)`.  Also the textual
 * `offset:length,offset:length` form handed to the external patchers.
 */
module Extents {
  import opened Base
  import opened Seekable

  datatype Extent = Extent(startBlock: nat, numBlocks: nat)

  /** Where an extent starts, in bytes: `start_block * block_size`. */
  function Start(e: Extent, bs: nat): nat
  {
    e.startBlock * bs
  }

  /** How many bytes an extent covers: `num_blocks * block_size`. */
  function Size(e: Extent, bs: nat): nat
  {
    e.numBlocks * bs
  }

  /** The byte range an extent covers. */
  function ByteSpan(e: Extent, bs: nat): Span
  {
    Span(Start(e, bs), Size(e, bs))
  }

  /** The byte offset of each extent, in order (where each `seek` goes). */
  function Offsets(es: seq<Extent>, bs: nat): (r: seq<nat>)
    ensures |r| == |es|
    ensures forall k :: 0 <= k < |es| ==> r[k] == Start(es[k], bs)
  {
    seq(|es|, k requires 0 <= k < |es| => Start(es[k], bs))
  }

  /** The byte range of each extent, in order. */
  function Spans(es: seq<Extent>, bs: nat): (r: seq<Span>)
    ensures |r| == |es|
    ensures forall k :: 0 <= k < |es| ==> r[k] == ByteSpan(es[k], bs)
  {
    seq(|es|, k requires 0 <= k < |es| => ByteSpan(es[k], bs))
  }

  /** The offsets of one more extent. */
  lemma OffsetsSnoc(es: seq<Extent>, bs: nat, k: nat)
    requires k < |es|
    ensures Offsets(es[..k + 1], bs) == Offsets(es[..k], bs) + [Start(es[k], bs)]
  {
  }

  lemma SpansSnoc(es: seq<Extent>, bs: nat, k: nat)
    requires k < |es|
    ensures Spans(es[..k + 1], bs) == Spans(es[..k], bs) + [ByteSpan(es[k], bs)]
  {
  }

  lemma GatherSnoc(f: seq<byte>, es: seq<Extent>, bs: nat, k: nat)
    requires k < |es|
    ensures Gather(f, es[..k + 1], bs) == Gather(f, es[..k], bs) + ReadAt(f, Start(es[k], bs), Size(es[k], bs))
  {
    assert es[..k + 1][..k] == es[..k];
  }

  /**
   * The buffer read across `es` from a file with contents `f`: for each extent,
   * in order, `seek(start * bs)` then `read(blocks * bs)`, the pieces concatenated.
   */
  function Gather(f: seq<byte>, es: seq<Extent>, bs: nat): seq<byte>
  {
    if es == [] then []
    else
      var e := es[|es| - 1];
      Gather(f, es[..|es| - 1], bs) + ReadAt(f, Start(e, bs), Size(e, bs))
  }

  /** Total bytes the extents name. */
  function TotalLength(es: seq<Extent>, bs: nat): nat
  {
    if es == [] then 0 else TotalLength(es[..|es| - 1], bs) + Size(es[|es| - 1], bs)
  }

  /** Every extent lies inside a file of `len` bytes. */
  predicate Within(es: seq<Extent>, bs: nat, len: nat)
  {
    forall k :: 0 <= k < |es| ==> Start(es[k], bs) + Size(es[k], bs) <= len
  }

  lemma {:induction false} WithinInit(es: seq<Extent>, bs: nat, len: nat)
    requires es != [] && Within(es, bs, len)
    ensures Within(es[..|es| - 1], bs, len)
  {
    var init := es[..|es| - 1];
    forall k | 0 <= k < |init| ensures Start(init[k], bs) + Size(init[k], bs) <= len {
      assert init[k] == es[k];
    }
  }

  /** A read of an extent that lies inside the file is never short. */
  lemma FullRead(f: seq<byte>, e: Extent, bs: nat)
    requires Start(e, bs) + Size(e, bs) <= |f|
    ensures ReadAt(f, Start(e, bs), Size(e, bs)) == f[Start(e, bs)..Start(e, bs) + Size(e, bs)]
  {
  }

  lemma {:induction false} GatherLength(f: seq<byte>, es: seq<Extent>, bs: nat)
    requires Within(es, bs, |f|)
    ensures |Gather(f, es, bs)| == TotalLength(es, bs)
  {
    if es != [] {
      WithinInit(es, bs, |f|);
      GatherLength(f, es[..|es| - 1], bs);
      FullRead(f, es[|es| - 1], bs);
    }
  }

  /**
   * When every extent lies inside the file, nothing is read short: the buffer
   * is `TotalLength` bytes long, and piece `k` starts at the total length of the
   * extents before it and holds exactly the bytes of extent `k`.
   */
  lemma GatherWithin(f: seq<byte>, es: seq<Extent>, bs: nat, k: nat)
    requires Within(es, bs, |f|) && k < |es|
    ensures |Gather(f, es, bs)| == TotalLength(es, bs)
    ensures TotalLength(es[..k], bs) + Size(es[k], bs) <= TotalLength(es, bs)
    ensures var at := TotalLength(es[..k], bs);
            var e := es[k];
            Gather(f, es, bs)[at..at + Size(e, bs)]
              == f[Start(e, bs)..Start(e, bs) + Size(e, bs)]
  {
    GatherLength(f, es, bs);
    TotalLengthPrefix(es, bs, k);
    GatherPiece(f, es, bs, k);
  }

  /** Piece `k` of the buffer is extent `k` of the file, at the total length of the extents before it. */
  lemma {:induction false} GatherPiece(f: seq<byte>, es: seq<Extent>, bs: nat, k: nat)
    requires Within(es, bs, |f|) && k < |es|
    ensures var at := TotalLength(es[..k], bs);
            var e := es[k];
            && at + Size(e, bs) <= |Gather(f, es, bs)|
            && Gather(f, es, bs)[at..at + Size(e, bs)] == f[Start(e, bs)..Start(e, bs) + Size(e, bs)]
    decreases |es|, 2
  {
    if k == |es| - 1 {
      GatherLastPiece(f, es, bs, k);
    } else {
      GatherPieceBeforeLast(f, es, bs, k);
    }
  }

  /** A piece before the last one: the buffer of all but the last extent already holds it. */
  lemma {:induction false} GatherPieceBeforeLast(f: seq<byte>, es: seq<Extent>, bs: nat, k: nat)
    requires Within(es, bs, |f|) && k < |es| - 1
    ensures var at := TotalLength(es[..k], bs);
            var e := es[k];
            && at + Size(e, bs) <= |Gather(f, es, bs)|
            && Gather(f, es, bs)[at..at + Size(e, bs)] == f[Start(e, bs)..Start(e, bs) + Size(e, bs)]
    decreases |es|, 1
  {
    var at, len, start := TotalLength(es[..k], bs), Size(es[k], bs), Start(es[k], bs);
    var gi := Gather(f, es[..|es| - 1], bs);
    PieceOfInit(f, es, bs, k);
    GatherEarlierPiece(f, es, bs, at, len);
    SliceTransfer(Gather(f, es, bs), gi, f[start..start + len], at, len);
  }

  /** The same piece, found in the buffer of all but the last extent. */
  lemma {:induction false} PieceOfInit(f: seq<byte>, es: seq<Extent>, bs: nat, k: nat)
    requires Within(es, bs, |f|) && k < |es| - 1
    ensures var at, len, start := TotalLength(es[..k], bs), Size(es[k], bs), Start(es[k], bs);
            var gi := Gather(f, es[..|es| - 1], bs);
            at + len <= |gi| && gi[at..at + len] == f[start..start + len]
    decreases |es|, 0
  {
    var init := es[..|es| - 1];
    WithinInit(es, bs, |f|);
    GatherPiece(f, init, bs, k);
    assert init[..k] == es[..k];
    assert init[k] == es[k];
  }

  /** Equal slices of two buffers carry the same bytes. */
  lemma SliceTransfer(g: seq<byte>, gi: seq<byte>, p: seq<byte>, at: nat, len: nat)
    requires at + len <= |gi| && at + len <= |g|
    requires g[at..at + len] == gi[at..at + len] && gi[at..at + len] == p
    ensures g[at..at + len] == p
  {
  }

  /** The last piece of the buffer is the last extent of the file. */
  lemma GatherLastPiece(f: seq<byte>, es: seq<Extent>, bs: nat, k: nat)
    requires Within(es, bs, |f|) && k == |es| - 1
    ensures var at := TotalLength(es[..k], bs);
            var e := es[k];
            && at + Size(e, bs) <= |Gather(f, es, bs)|
            && Gather(f, es, bs)[at..at + Size(e, bs)] == f[Start(e, bs)..Start(e, bs) + Size(e, bs)]
  {
    var init := es[..|es| - 1];
    var e := es[|es| - 1];
    var a, b := Gather(f, init, bs), ReadAt(f, Start(e, bs), Size(e, bs));
    WithinInit(es, bs, |f|);
    GatherLength(f, init, bs);
    FullRead(f, e, bs);
    assert b == f[Start(e, bs)..Start(e, bs) + Size(e, bs)] && |b| == Size(e, bs);
    SliceOfAppend(a, b, Gather(f, es, bs), |a|, |a| + |b|);
    assert b[..|b|] == b;
  }

  /** Appending the last extent's piece leaves the bytes before it where they were. */
  lemma GatherEarlierPiece(f: seq<byte>, es: seq<Extent>, bs: nat, at: nat, len: nat)
    requires es != [] && at + len <= |Gather(f, es[..|es| - 1], bs)|
    ensures at + len <= |Gather(f, es, bs)|
    ensures Gather(f, es, bs)[at..at + len] == Gather(f, es[..|es| - 1], bs)[at..at + len]
  {
    var e := es[|es| - 1];
    SliceOfAppend(Gather(f, es[..|es| - 1], bs), ReadAt(f, Start(e, bs), Size(e, bs)), Gather(f, es, bs), at, at + len);
  }

  /** Slices of `a + b` that lie inside `a`, or that start where `b` does. */
  lemma SliceOfAppend(a: seq<byte>, b: seq<byte>, c: seq<byte>, i: nat, j: nat)
    requires c == a + b && i <= j <= |a| + |b|
    ensures j <= |a| ==> c[i..j] == a[i..j]
    ensures i == |a| ==> c[i..j] == b[..j - i]
  {
  }

  lemma {:induction false} TotalLengthPrefix(es: seq<Extent>, bs: nat, k: nat)
    requires k < |es|
    ensures TotalLength(es[..k], bs) + Size(es[k], bs) <= TotalLength(es, bs)
  {
    if k < |es| - 1 {
      var init := es[..|es| - 1];
      assert init[..k] == es[..k] && init[k] == es[k];
      TotalLengthPrefix(init, bs, k);
    } else {
      assert es[..k] == es[..|es| - 1];
    }
  }

  // ---------------------------------------------------------------------------
  // Extent strings for the external patchers (`'%d:%d,' % (offset, length)`).

  predicate IsDigit(c: char) { '0' <= c <= '9' }

  predicate AllDigits(s: string) { forall i :: 0 <= i < |s| ==> IsDigit(s[i]) }

  function DigitChar(d: nat): (c: char)
    requires d < 10
    ensures IsDigit(c) && (c == '0' <==> d == 0)
  {
    (48 + d) as char
  }

  /** `'%d' % n`: decimal digits, no sign, no leading zeros. */
  function Decimal(n: nat): (s: string)
    ensures |s| > 0 && AllDigits(s)
    ensures (n > 0 || |s| > 1) ==> s[0] != '0'
  {
    if n < 10 then [DigitChar(n)] else Decimal(n / 10) + [DigitChar(n % 10)]
  }

  /** The value of one decimal digit (0 for any other character). */
  function DigitValue(c: char): nat
  {
    if IsDigit(c) then c as int - 48 else 0
  }

  /** The number a string of decimal digits denotes. */
  function DigitsValue(s: string): nat
  {
    if s == [] then 0 else DigitsValue(s[..|s| - 1]) * 10 + DigitValue(s[|s| - 1])
  }

  lemma {:induction false} DecimalValue(n: nat)
    ensures DigitsValue(Decimal(n)) == n
  {
    if n >= 10 {
      DecimalValue(n / 10);
      var s := Decimal(n);
      assert s[..|s| - 1] == Decimal(n / 10);
    }
  }

  /** The length of the longest all-digit prefix of `s`. */
  function DigitRun(s: string): (k: nat)
    ensures k <= |s|
    ensures k < |s| ==> !IsDigit(s[k])
  {
    if s == [] || !IsDigit(s[0]) then 0 else 1 + DigitRun(s[1..])
  }

  /** A digit prefix followed by the end or by a non-digit is the longest digit prefix. */
  lemma {:induction false} DigitRunUnique(s: string, m: nat)
    requires m <= |s| && AllDigits(s[..m])
    requires m < |s| ==> !IsDigit(s[m])
    ensures DigitRun(s) == m
  {
    if m > 0 {
      assert IsDigit(s[..m][0]);
      assert s[1..][..m - 1] == s[..m][1..];
      DigitRunUnique(s[1..], m - 1);
    }
  }

  /** `'%d:%d' % (offset, length)` for one byte range. */
  function RangeText(r: Span): string
  {
    Decimal(r.offset) + ":" + Decimal(r.length)
  }

  /** The accumulator after the loop: each range followed by a comma, in order. */
  function Accumulated(rs: seq<Span>): string
  {
    if rs == [] then "" else Accumulated(rs[..|rs| - 1]) + RangeText(rs[|rs| - 1]) + ","
  }

  /** Python's `s[:-1]`: drops the last character, and leaves the empty string empty. */
  function DropLast(s: string): string
  {
    if s == [] then s else s[..|s| - 1]
  }

  /** The ranges joined by single commas: no leading or trailing comma. */
  function Joined(rs: seq<Span>): string
  {
    if rs == [] then ""
    else if |rs| == 1 then RangeText(rs[0])
    else RangeText(rs[0]) + "," + Joined(rs[1..])
  }

  lemma {:induction false} AccumulatedFront(rs: seq<Span>)
    requires rs != []
    ensures Accumulated(rs) == RangeText(rs[0]) + "," + Accumulated(rs[1..])
  {
    if |rs| > 1 {
      var init, rest := rs[..|rs| - 1], rs[1..];
      var x, t := RangeText(rs[0]) + ",", RangeText(rs[|rs| - 1]);
      var a := Accumulated(init[1..]);
      assert Accumulated(init) == x + a by {
        AccumulatedFront(init);
        assert init[0] == rs[0];
      }
      assert Accumulated(rest) == a + t + "," by {
        assert init[1..] == rest[..|rest| - 1];
        assert rest[|rest| - 1] == rs[|rs| - 1];
      }
      assert Accumulated(rs) == x + a + t + ",";
      Reassociate(x, a, t, ",");
    } else {
      assert rs[1..] == [];
    }
  }

  lemma Reassociate(x: string, y: string, z: string, w: string)
    ensures x + y + z + w == x + (y + z + w)
  {
    assert x + y + z == x + (y + z);
  }

  /** Stripping the trailing comma of the accumulator gives the comma-joined list. */
  lemma {:induction false} AccumulatedThenStripped(rs: seq<Span>)
    ensures DropLast(Accumulated(rs)) == Joined(rs)
  {
    if rs != [] {
      AccumulatedFront(rs);
      if |rs| > 1 {
        AccumulatedThenStripped(rs[1..]);
        var a := Accumulated(rs[1..]);
        assert a != [] by { AccumulatedFront(rs[1..]); }
        assert (RangeText(rs[0]) + "," + a)[..|RangeText(rs[0]) + "," + a| - 1]
               == RangeText(rs[0]) + "," + a[..|a| - 1];
      } else {
        assert rs[1..] == [];
      }
    }
  }

  /** The number at the start of `s` and how many digits it spans (0 when `s` starts with no digit). */
  function ParseNumber(s: string): (nat, nat)
  {
    var k := DigitRun(s);
    (DigitsValue(s[..k]), k)
  }

  /** The first `offset:length` pair of `s` and the index just past it, or None if malformed. */
  function ParseRange(s: string): (p: Option<(Span, nat)>)
    ensures p.Some? ==> 0 < p.value.1 <= |s|
  {
    var (offset, a) := ParseNumber(s);
    if a == 0 || a == |s| || s[a] != ':' then None
    else
      var (length, b) := ParseNumber(s[a + 1..]);
      if b == 0 then None
      else Some((Span(offset, length), a + 1 + b))
  }

  /** The byte ranges an `offset:length,offset:length` string denotes, or None if malformed. */
  function ParseRanges(s: string): Option<seq<Span>>
    decreases |s|
  {
    if s == [] then Some([])
    else
      match ParseRange(s)
      case None => None
      case Some((r, n)) =>
        if n == |s| then Some([r])
        else if s[n] != ',' || n + 1 == |s| then None
        else
          match ParseRanges(s[n + 1..])
          case None => None
          case Some(more) => Some([r] + more)
  }

  /** The decimal text of `n`, followed by the end or by a non-digit, is read back as `n`. */
  lemma ParseDecimal(n: nat, t: string, s: string)
    requires t == [] || !IsDigit(t[0])
    requires s == Decimal(n) + t
    ensures ParseNumber(s) == (n, |Decimal(n)|)
  {
    var x := Decimal(n);
    assert s[..|x|] == x;
    DigitRunUnique(s, |x|);
    DecimalValue(n);
  }

  /** One range is read off as soon as both numbers and the colon between them are found. */
  lemma ParseRangeOf(s: string, a: nat, v1: nat, v2: nat, b: nat)
    requires ParseNumber(s) == (v1, a) && 0 < a < |s| && s[a] == ':'
    requires ParseNumber(s[a + 1..]) == (v2, b) && b > 0
    ensures ParseRange(s) == Some((Span(v1, v2), a + 1 + b))
  {
  }

  /** What the parser finds in the text of a range: both numbers, with the colon between them. */
  lemma RangeTextPieces(r: Span, t: string, s: string)
    requires t == [] || !IsDigit(t[0])
    requires s == RangeText(r) + t
    ensures var a := |Decimal(r.offset)|;
            && ParseNumber(s) == (r.offset, a) && a < |s| && s[a] == ':'
            && ParseNumber(s[a + 1..]) == (r.length, |Decimal(r.length)|)
  {
    var x, y := Decimal(r.offset), Decimal(r.length);
    ColonSplit(s, x, y, t);
    ParseDecimal(r.offset, ":" + (y + t), s);
    ParseDecimal(r.length, t, s[|x| + 1..]);
  }

  /** Where the colon of `x:y` followed by `t` sits, and what follows it. */
  lemma ColonSplit(s: string, x: string, y: string, t: string)
    requires s == x + ":" + y + t
    ensures s == x + (":" + (y + t)) && |x| < |s| && s[|x|] == ':' && s[|x| + 1..] == y + t
  {
  }

  /** The parser reads back one range text, stopping at the first non-digit after it. */
  lemma ParseRangeText(r: Span, t: string, s: string)
    requires t == [] || !IsDigit(t[0])
    requires s == RangeText(r) + t
    ensures ParseRange(s) == Some((r, |RangeText(r)|))
  {
    RangeTextPieces(r, t, s);
    ParseRangeOf(s, |Decimal(r.offset)|, r.offset, r.length, |Decimal(r.length)|);
  }

  /** The patcher can recover exactly the byte ranges, in order, from the joined string. */
  lemma {:induction false} ParseJoined(rs: seq<Span>)
    ensures ParseRanges(Joined(rs)) == Some(rs)
    decreases |rs|, 1
  {
    if |rs| == 1 {
      var s := Joined(rs);
      assert s == RangeText(rs[0]) + "";
      ParseRangeText(rs[0], "", s);
      assert [rs[0]] == rs;
    } else if |rs| > 1 {
      ParseJoinedMore(rs);
    }
  }

  /** Two or more ranges: the first is read off, then the rest after the comma. */
  lemma {:induction false} ParseJoinedMore(rs: seq<Span>)
    requires |rs| > 1
    ensures ParseRanges(Joined(rs)) == Some(rs)
    decreases |rs|, 0
  {
    var s := Joined(rs);
    JoinedFront(rs);
    ParseRangeText(rs[0], "," + Joined(rs[1..]), s);
    ParseJoined(rs[1..]);
    ParseRangesStep(s, rs[0], |RangeText(rs[0])|, rs[1..]);
    HeadTail(rs);
  }

  /** A joined list of two or more ranges: the first range's text, a comma, then the rest joined. */
  lemma JoinedFront(rs: seq<Span>)
    requires |rs| > 1
    ensures var s, n := Joined(rs), |RangeText(rs[0])|;
            && s == RangeText(rs[0]) + ("," + Joined(rs[1..]))
            && n + 1 < |s| && s[n] == ',' && s[n + 1..] == Joined(rs[1..])
  {
    var x, t := RangeText(rs[0]), Joined(rs[1..]);
    assert Joined(rs) == x + "," + t;
    JoinedNonEmpty(rs[1..]);
    CommaSplit(Joined(rs), x, t);
  }

  lemma JoinedNonEmpty(rs: seq<Span>)
    requires rs != []
    ensures |Joined(rs)| > 0
  {
  }

  /** Where the comma of `x,t` sits, and what follows it. */
  lemma CommaSplit(s: string, x: string, t: string)
    requires s == x + "," + t && |t| > 0
    ensures s == x + ("," + t) && |x| + 1 < |s| && s[|x|] == ',' && s[|x| + 1..] == t
  {
  }

  lemma HeadTail(rs: seq<Span>)
    requires rs != []
    ensures [rs[0]] + rs[1..] == rs
  {
  }

  /** One step of the parser: a range, a comma, and a parsable remainder. */
  lemma ParseRangesStep(s: string, r: Span, n: nat, more: seq<Span>)
    requires ParseRange(s) == Some((r, n)) && n + 1 < |s| && s[n] == ','
    requires ParseRanges(s[n + 1..]) == Some(more)
    ensures ParseRanges(s) == Some([r] + more)
  {
  }
}
