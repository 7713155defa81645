/**
 * The payload envelope: a 24-byte fixed header (magic `CrAU`, a big-endian
 * u64 format version that must be 2, a big-endian u64 manifest size and a
 * big-endian u32 metadata-signature size), then the manifest, then the
 * signature; the payload data region starts right after them.
 */
module Envelope {
  import opened Base
  import opened Seekable

  /** `b'CrAU'`. */
  const Magic: seq<byte> := [0x43, 0x72, 0x41, 0x55]
  const SupportedVersion: nat := 2
  /** 4 (magic) + 8 (version) + 8 (manifest size) + 4 (signature size). */
  const FixedHeaderSize: nat := 24

  function Pow256(k: nat): (r: nat)
    ensures r > 0
  {
    if k == 0 then 1 else 256 * Pow256(k - 1)
  }

  /** The unsigned integer whose big-endian encoding is `s`; it always fits in `|s|` bytes. */
  function BigEndian(s: seq<byte>): (n: nat)
    ensures n < Pow256(|s|)
  {
    if s == [] then 0
    else
      var m := BigEndian(s[..|s| - 1]);
      assert m * 256 + 255 < Pow256(|s| - 1) * 256 by {
        assert m + 1 <= Pow256(|s| - 1);
      }
      m * 256 + s[|s| - 1] as nat
  }

  /** The `width`-byte big-endian encoding of `n`, what `struct.pack('>I'/'>Q', n)` gives. */
  function ToBigEndian(n: nat, width: nat): (s: seq<byte>)
    requires n < Pow256(width)
    ensures |s| == width
  {
    if width == 0 then []
    else ToBigEndian(n / 256, width - 1) + [(n % 256) as byte]
  }

  /** Decoding the encoding of a number that fits gives the number back. */
  lemma {:induction false} BigEndianOfEncoding(n: nat, width: nat)
    requires n < Pow256(width)
    ensures BigEndian(ToBigEndian(n, width)) == n
  {
    if width > 0 {
      var s := ToBigEndian(n, width);
      BigEndianOfEncoding(n / 256, width - 1);
      assert s[..width - 1] == ToBigEndian(n / 256, width - 1);
    }
  }

  /** Encoding a decoded byte string gives the byte string back: the decoding is one-to-one. */
  lemma {:induction false} EncodingOfBigEndian(s: seq<byte>)
    ensures ToBigEndian(BigEndian(s), |s|) == s
  {
    if s != [] {
      var init := s[..|s| - 1];
      EncodingOfBigEndian(init);
      var n := BigEndian(s);
      assert n / 256 == BigEndian(init) && n % 256 == s[|s| - 1] as nat;
      assert s == init + [s[|s| - 1]];
    }
  }

  /** `u32(x)`: `struct.unpack('>I', x)`, which raises unless `x` has exactly 4 bytes. */
  function U32(x: seq<byte>): (r: Option<nat>)
    ensures r.Some? <==> |x| == 4
    ensures r.Some? ==> r.value < Pow256(4) && ToBigEndian(r.value, 4) == x
  {
    if |x| == 4 then EncodingOfBigEndian(x); Some(BigEndian(x)) else None
  }

  /** `u64(x)`: `struct.unpack('>Q', x)`, which raises unless `x` has exactly 8 bytes. */
  function U64(x: seq<byte>): (r: Option<nat>)
    ensures r.Some? <==> |x| == 8
    ensures r.Some? ==> r.value < Pow256(8) && ToBigEndian(r.value, 8) == x
  {
    if |x| == 8 then EncodingOfBigEndian(x); Some(BigEndian(x)) else None
  }

  lemma U32OfEncoding(n: nat)
    requires n < Pow256(4)
    ensures U32(ToBigEndian(n, 4)) == Some(n)
  {
    BigEndianOfEncoding(n, 4);
  }

  lemma U64OfEncoding(n: nat)
    requires n < Pow256(8)
    ensures U64(ToBigEndian(n, 8)) == Some(n)
  {
    BigEndianOfEncoding(n, 8);
  }

  /** What the header parse leaves behind: the two sizes, the two blobs and the data offset. */
  datatype Header = Header(manifestSize: nat, signatureSize: nat,
                           manifest: seq<byte>, signature: seq<byte>, dataOffset: nat)

  /** Why the run stops before any partition: a failed assertion or a `struct.error`. */
  datatype HeaderError = BadMagic | BadVersion(version: nat) | ShortField

  /**
   * The reads after the fixed header: `read(manifest_size)` then
   * `read(metadata_signature_size)`, either of which may come back short; the
   * data offset is where the second one stops.
   */
  function Blobs(p: seq<byte>, manifestSize: nat, signatureSize: nat): (h: Header)
    requires |p| >= FixedHeaderSize
    ensures h.manifestSize == manifestSize && h.signatureSize == signatureSize
    ensures h.dataOffset == Min(FixedHeaderSize + manifestSize + signatureSize, |p|)
    ensures h.manifest + h.signature == p[FixedHeaderSize..h.dataOffset]
    ensures |h.manifest| == Min(manifestSize, |p| - FixedHeaderSize)
  {
    var manifest := ReadAt(p, FixedHeaderSize, manifestSize);
    var signature := ReadAt(p, FixedHeaderSize + |manifest|, signatureSize);
    assert manifest + signature == p[FixedHeaderSize..FixedHeaderSize + |manifest| + |signature|];
    Header(manifestSize, signatureSize, manifest, signature, FixedHeaderSize + |manifest| + |signature|)
  }

  /**
   * The header parse of the main program, on the whole payload `p` read from
   * its start.  The manifest and signature reads may come back short; the data
   * offset is the stream position after them.
   */
  function DecodeHeader(p: seq<byte>): (r: Result<Header, HeaderError>)
    ensures r.Ok? <==> |p| >= FixedHeaderSize && p[..4] == Magic && BigEndian(p[4..12]) == SupportedVersion
    ensures r.Ok? ==> r.value == Blobs(p, BigEndian(p[12..20]), BigEndian(p[20..24]))
    ensures (|p| < 4 || p[..4] != Magic) ==> r == Err(BadMagic)
    ensures |p| >= 12 && p[..4] == Magic && BigEndian(p[4..12]) != SupportedVersion
            ==> r == Err(BadVersion(BigEndian(p[4..12])))
    ensures |p| >= 4 && p[..4] == Magic && (|p| < 12 || (BigEndian(p[4..12]) == SupportedVersion && |p| < FixedHeaderSize))
            ==> r == Err(ShortField)
  {
    var magic := ReadAt(p, 0, 4);
    if magic != Magic then Err(BadMagic)
    else
      assert p[..4] == magic;
      match U64(ReadAt(p, 4, 8))
      case None => Err(ShortField)
      case Some(version) =>
        assert ReadAt(p, 4, 8) == p[4..12];
        if version != SupportedVersion then Err(BadVersion(version))
        else
          match U64(ReadAt(p, 12, 8))
          case None => Err(ShortField)
          case Some(manifestSize) =>
            match U32(ReadAt(p, 20, 4))
            case None => Err(ShortField)
            case Some(signatureSize) =>
              assert ReadAt(p, 12, 8) == p[12..20] && ReadAt(p, 20, 4) == p[20..24];
              Ok(Blobs(p, manifestSize, signatureSize))
  }

  /** The envelope a payload generator writes around a manifest and its signature. */
  function EncodeHeader(manifest: seq<byte>, signature: seq<byte>): seq<byte>
    requires |manifest| < Pow256(8) && |signature| < Pow256(4)
  {
    Magic + ToBigEndian(SupportedVersion, 8) + ToBigEndian(|manifest|, 8)
      + ToBigEndian(|signature|, 4) + manifest + signature
  }

  /** The four fixed fields and what follows them, at their offsets 0, 4, 12, 20 and 24. */
  lemma FixedFields(p: seq<byte>, magic: seq<byte>, version: seq<byte>, manifestSize: seq<byte>,
                    signatureSize: seq<byte>, tail: seq<byte>)
    requires |magic| == 4 && |version| == 8 && |manifestSize| == 8 && |signatureSize| == 4
    requires p == magic + version + manifestSize + signatureSize + tail
    ensures |p| >= FixedHeaderSize && p[..4] == magic && p[4..12] == version
    ensures p[12..20] == manifestSize && p[20..24] == signatureSize && p[FixedHeaderSize..] == tail
  {
  }

  /** When the manifest and the signature follow the fixed header in full, the blob reads return them. */
  lemma BlobsOf(p: seq<byte>, manifest: seq<byte>, signature: seq<byte>, rest: seq<byte>)
    requires |p| >= FixedHeaderSize && p[FixedHeaderSize..] == manifest + signature + rest
    ensures Blobs(p, |manifest|, |signature|)
            == Header(|manifest|, |signature|, manifest, signature, FixedHeaderSize + |manifest| + |signature|)
  {
    var m := ReadAt(p, FixedHeaderSize, |manifest|);
    assert |m| == |manifest|;
    forall i | 0 <= i < |m| ensures m[i] == manifest[i] {
      assert p[FixedHeaderSize + i] == (manifest + signature + rest)[i];
    }
    var g := ReadAt(p, FixedHeaderSize + |manifest|, |signature|);
    assert |g| == |signature|;
    forall i | 0 <= i < |g| ensures g[i] == signature[i] {
      assert p[FixedHeaderSize + |manifest| + i] == (manifest + signature + rest)[|manifest| + i];
    }
  }

  /**
   * Decoding an envelope recovers the manifest and the signature, and the data
   * region starts at 4 + 8 + 8 + 4 + manifest size + signature size, whatever
   * payload data follows.
   */
  lemma HeaderRoundTrip(manifest: seq<byte>, signature: seq<byte>, rest: seq<byte>)
    requires |manifest| < Pow256(8) && |signature| < Pow256(4)
    ensures DecodeHeader(EncodeHeader(manifest, signature) + rest)
            == Ok(Header(|manifest|, |signature|, manifest, signature,
                         FixedHeaderSize + |manifest| + |signature|))
  {
    var p := EncodeHeader(manifest, signature) + rest;
    var v := ToBigEndian(SupportedVersion, 8);
    var ms := ToBigEndian(|manifest|, 8);
    var ss := ToBigEndian(|signature|, 4);
    EncodedLayout(manifest, signature, rest);
    FixedFields(p, Magic, v, ms, ss, manifest + signature + rest);
    BigEndianOfEncoding(SupportedVersion, 8);
    BigEndianOfEncoding(|manifest|, 8);
    BigEndianOfEncoding(|signature|, 4);
    DecodeAccepts(p, |manifest|, |signature|);
    BlobsOf(p, manifest, signature, rest);
  }

  /** The encoded envelope followed by more bytes: the four fixed fields, then everything after them. */
  lemma EncodedLayout(manifest: seq<byte>, signature: seq<byte>, rest: seq<byte>)
    requires |manifest| < Pow256(8) && |signature| < Pow256(4)
    ensures EncodeHeader(manifest, signature) + rest
            == Magic + ToBigEndian(SupportedVersion, 8) + ToBigEndian(|manifest|, 8)
               + ToBigEndian(|signature|, 4) + (manifest + signature + rest)
  {
  }

  /** A header with the magic, version 2 and both size fields present is accepted with those sizes. */
  lemma DecodeAccepts(p: seq<byte>, manifestSize: nat, signatureSize: nat)
    requires |p| >= FixedHeaderSize && p[..4] == Magic && BigEndian(p[4..12]) == SupportedVersion
    requires BigEndian(p[12..20]) == manifestSize && BigEndian(p[20..24]) == signatureSize
    ensures DecodeHeader(p) == Ok(Blobs(p, manifestSize, signatureSize))
  {
  }

  /** When the payload is long enough, the data offset is exactly 24 + manifest size + signature size. */
  lemma DataOffsetExact(p: seq<byte>)
    requires DecodeHeader(p).Ok?
    requires |p| >= FixedHeaderSize + DecodeHeader(p).value.manifestSize + DecodeHeader(p).value.signatureSize
    ensures DecodeHeader(p).value.dataOffset
            == 4 + 8 + 8 + 4 + DecodeHeader(p).value.manifestSize + DecodeHeader(p).value.signatureSize
  {
  }

  /**
   * The main program's header reads, in order, on the payload file opened at
   * its start; on success the file is left at the data offset (`tell()`).
   */
  method ReadHeader(f: File) returns (r: Result<Header, HeaderError>)
    requires f.readable && f.pos == 0
    modifies f`pos
    ensures r == DecodeHeader(f.data)
    ensures r.Ok? ==> f.pos == r.value.dataOffset
  {
    var magic := f.Read(4);
    if magic != Magic {
      return Err(BadMagic);
    }
    var versionBytes := f.Read(8);
    var version := U64(versionBytes);
    if version.None? {
      return Err(ShortField);
    }
    if version.value != SupportedVersion {
      return Err(BadVersion(version.value));
    }
    var manifestSizeBytes := f.Read(8);
    var manifestSize := U64(manifestSizeBytes);
    if manifestSize.None? {
      return Err(ShortField);
    }
    var signatureSizeBytes := f.Read(4);
    var signatureSize := U32(signatureSizeBytes);
    if signatureSize.None? {
      return Err(ShortField);
    }
    var header := ReadBlobs(f, manifestSize.value, signatureSize.value);
    r := Ok(header);
  }

  /** `read(manifest_size)`, `read(metadata_signature_size)`, then `tell()`, from just after the fixed header. */
  method ReadBlobs(f: File, manifestSize: nat, signatureSize: nat) returns (h: Header)
    requires f.readable && f.pos == FixedHeaderSize <= |f.data|
    modifies f`pos
    ensures h == Blobs(f.data, manifestSize, signatureSize) && f.pos == h.dataOffset
  {
    var manifest := f.Read(manifestSize);
    var signature := f.Read(signatureSize);
    var dataOffset := f.Tell();
    h := Header(manifestSize, signatureSize, manifest, signature, dataOffset);
  }
}
