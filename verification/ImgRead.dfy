/** Breaking an image into chunks (ReadImage, imgdiff.c:368-511). */
module ImgRead {
  import opened Bytes
  import opened Codec
  import opened Wrappers
  import opened ImgPatch
  import opened ImgFormat
  import opened ImgChunks

  const GZIP_HEADER_LEN := 10
  const GZIP_FOOTER_LEN := 8

  /**
   What ReadImage does.  end is where the last chunk ends, which need not be the end of the image; NeverReturns stands
   for a loop that makes no progress, OutOfBounds for a read past the padding.
   */
  datatype Outcome = Chunked(chunks: seq<Chunk>, end: nat) | BadFooter | NeverReturns | OutOfBounds

  /** Where inflate finds the end of a stream, what follows the stream does not matter. */
  ghost predicate Streaming(z: Codecs)
  {
    forall b :: z.inflate(b).Some? ==>
        z.inflate(b).value.1 <= |b| && z.inflate(b[..z.inflate(b).value.1]) == z.inflate(b)
  }

  /** The image followed by the four zero bytes that ReadImage appends. */
  function Padded(img: seq<Byte>): (p: seq<Byte>)
  {
    img + [0, 0, 0, 0]
  }

  /** The buffer up to end: the image itself if that is where it ends. */
  function View(img: seq<Byte>, end: nat): (v: seq<Byte>)
    requires end <= |img| + 4
    ensures |v| == end && (end == |img| ==> v == img)
  {
    Padded(img)[..end]
  }

  /** The gzip header bytes 1f 8b 08 00 at position i. */
  predicate Magic(b: seq<Byte>, i: int)
  {
    0 <= i && i + 4 <= |b| && b[i] == 0x1f && b[i + 1] == 0x8b && b[i + 2] == 0x08 && b[i + 3] == 0x00
  }

  predicate EndsInMagic(img: seq<Byte>)
  {
    |img| >= 3 && img[|img| - 3..] == [0x1f, 0x8b, 0x08]
  }

  /** The scan for the next gzip header (imgdiff.c:498-505). */
  method ScanNormal(img: seq<Byte>, pos: nat) returns (len: nat)
    requires pos < |img|
    ensures pos + len <= |img| && (pos + len < |img| ==> Magic(Padded(img), pos + len))
    ensures forall i :: pos <= i < pos + len ==> !Magic(Padded(img), i)
  {
    var p := Padded(img);
    len := 0;
    while len < |img| - pos
      invariant 0 <= len <= |img| - pos
      invariant forall i :: pos <= i < pos + len ==> !Magic(p, i)
    {
      if Magic(p, pos + len) { break; }
      len := len + 1;
    }
  }

  lemma StuckOnlyAtEnd(img: seq<Byte>, pos: nat)
    requires pos < |img| && Magic(Padded(img), pos) && !(|img| - pos >= 4 && Magic(img, pos))
    ensures pos == |img| - 3 && EndsInMagic(img)
  {
    var p := Padded(img);
    assert p[pos] == 0x1f && p[pos + 1] == 0x8b && p[pos + 2] == 0x08;
  }

  lemma AddNormal(img: seq<Byte>, cs: seq<Chunk>, pos: nat, len: nat, z: Codecs)
    requires Tiles(img, cs, pos, z) && pos + len <= |img|
    ensures Tiles(img, cs + [Normal(pos, len, pos)], pos + len, z)
  {
    assert (cs + [Normal(pos, len, pos)])[..|cs|] == cs;
  }

  lemma AddDeflate(img: seq<Byte>, cs: seq<Chunk>, pos: nat, data: seq<Byte>, n: nat, z: Codecs)
    requires Tiles(Padded(img), cs, pos, z) && Streaming(z) && |data| < TWO63
    requires pos <= |img| && z.inflate(img[pos..]) == Some((data, n))
    ensures pos + n <= |img| && Tiles(Padded(img), cs + [Deflate(pos, n, data, Params(0, 0, 0, 0, 0))], pos + n, z)
  {
    var c := Deflate(pos, n, data, Params(0, 0, 0, 0, 0));
    assert img[pos..][..n] == ChunkBytes(Padded(img), c);
    assert (cs + [c])[..|cs|] == cs;
  }

  /** Chunks that tile the front of a buffer tile that front by itself. */
  lemma {:induction false} TilesFront(img: seq<Byte>, cs: seq<Chunk>, n: nat, m: nat, z: Codecs)
    requires Tiles(img, cs, n, z) && n <= m <= |img|
    ensures Tiles(img[..m], cs, n, z)
    decreases |cs|
  {
    if cs != [] {
      var c := cs[|cs| - 1];
      TilesFront(img, cs[..|cs| - 1], c.start, m, z);
      assert ChunkBytes(img[..m], c) == ChunkBytes(img, c);
    }
  }

  // ---------------------------------------------------------------- what an image holds

  /** The first gzip header at or after e, or the image's length. */
  function FirstHeader(img: seq<Byte>, e: nat): (p: nat)
    requires e <= |img|
    ensures e <= p <= |img| && (p < |img| ==> Magic(img, p)) && forall i :: e <= i < p ==> !Magic(img, i)
    decreases |img| - e
  {
    if e == |img| || Magic(img, e) then e else FirstHeader(img, e + 1)
  }

  /**
   A gzip section: a good one; one whose footer runs over the end of the image and is completed by the padding; one
   without a stream; one that runs over the padding too; one whose footer has another length.
   */
  datatype Section = Good(data: seq<Byte>, n: nat) | Over(data: seq<Byte>, n: nat) | NoStream | Cut | Misfit

  function SectionAt(img: seq<Byte>, p: nat, z: Codecs): (s: Section)
    ensures s.Good? ==> SectionEnd(p, s.n) <= |img|
    ensures s.Over? ==> |img| < SectionEnd(p, s.n) <= |img| + 4
  {
    var body := p + GZIP_HEADER_LEN;
    if body > |img| then Cut
    else
      match z.inflate(img[body..])
      case None => NoStream
      case Some((data, n)) =>
        var end := SectionEnd(p, n);
        if end > |img| + 4 then Cut
        else if Read4(Padded(img)[end - 4..end]) != |data| then Misfit
        else if end > |img| then Over(data, n)
        else Good(data, n)
  }

  function SectionEnd(p: nat, n: nat): (e: nat)
    ensures e > p && e >= 18
  {
    p + GZIP_HEADER_LEN + n + GZIP_FOOTER_LEN
  }

  datatype Ending = Covered | Overrun | Stuck | Mislabelled | Truncated

  /**
   How the image reads from e on, section by section.  It is covered if every section is good and the ending is not
   one the scan stops short of; overrun if good sections lead to one whose footer the padding completes; stuck if they
   lead to a header without a stream, or to a rest of at least three bytes without a header that ends in 1f 8b 08.
   */
  function EndingFrom(img: seq<Byte>, e: nat, z: Codecs): (r: Ending)
    requires e <= |img|
    decreases |img| - e, 1
  {
    var p := FirstHeader(img, e);
    if p < |img| then EndingAt(img, p, z)
    else if EndsInMagic(img) && e <= |img| - 3 then Stuck
    else Covered
  }

  /** How it reads from the header at p on. */
  function EndingAt(img: seq<Byte>, p: nat, z: Codecs): (r: Ending)
    requires p < |img|
    decreases |img| - p, 0
  {
    match SectionAt(img, p, z)
    case Good(_, n) => EndingFrom(img, SectionEnd(p, n), z)
    case Over(_, _) => Overrun
    case NoStream => Stuck
    case Misfit => Mislabelled
    case Cut => Truncated
  }

  /** Chunks are returned. */
  predicate Read(img: seq<Byte>, z: Codecs)
  {
    EndingFrom(img, 0, z) == Covered || EndingFrom(img, 0, z) == Overrun
  }

  /** Where reading from e on ends. */
  function EndFrom(img: seq<Byte>, e: nat, z: Codecs): (n: nat)
    requires e <= |img|
    ensures |img| <= n <= |img| + 4 && (n == |img| <==> EndingFrom(img, e, z) != Overrun)
    decreases |img| - e, 1
  {
    var p := FirstHeader(img, e);
    if p < |img| then EndAt(img, p, z) else |img|
  }

  function EndAt(img: seq<Byte>, p: nat, z: Codecs): (n: nat)
    requires p < |img|
    ensures |img| <= n <= |img| + 4 && (n == |img| <==> EndingAt(img, p, z) != Overrun)
    decreases |img| - p, 0
  {
    match SectionAt(img, p, z)
    case Good(_, n) => EndFrom(img, SectionEnd(p, n), z)
    case Over(_, n) => SectionEnd(p, n)
    case _ => |img|
  }

  function SectionChunks(p: nat, data: seq<Byte>, n: nat): (cs: seq<Chunk>)
  {
    var body := p + GZIP_HEADER_LEN;
    [Normal(p, GZIP_HEADER_LEN, p), Deflate(body, n, data, Params(0, 0, 0, 0, 0)),
        Normal(body + n, GZIP_FOOTER_LEN, body + n)]
  }

  function Plain(from: nat, to: nat): (cs: seq<Chunk>)
    requires from <= to
  {
    if from == to then [] else [Normal(from, to - from, from)]
  }

  /** The chunks of an image from e on: each accepted section as three, what lies between as one. */
  function ChunksFrom(img: seq<Byte>, e: nat, z: Codecs): (cs: seq<Chunk>)
    requires e <= |img|
    decreases |img| - e, 1
  {
    var p := FirstHeader(img, e);
    Plain(e, p) + if p < |img| then ChunksAt(img, p, z) else []
  }

  function ChunksAt(img: seq<Byte>, p: nat, z: Codecs): (cs: seq<Chunk>)
    requires p < |img|
    decreases |img| - p, 0
  {
    match SectionAt(img, p, z)
    case Good(data, n) => SectionChunks(p, data, n) + ChunksFrom(img, SectionEnd(p, n), z)
    case Over(data, n) => SectionChunks(p, data, n)
    case _ => []
  }

  /** A gzip section: header, deflate data and footer (imgdiff.c:398-483). */
  method ReadGzip(img: seq<Byte>, pos: nat, ghost cs: seq<Chunk>, z: Codecs) returns (r: Outcome)
    requires pos < |img| && Magic(img, pos) && Streaming(z) && Tiles(Padded(img), cs, pos, z)
    ensures var s := SectionAt(img, pos, z);
      && (r.Chunked? <==> s.Good? || s.Over?) && (r.NeverReturns? <==> s.NoStream?) && (r.BadFooter? <==> s.Misfit?)
      && (r.Chunked? ==> r.chunks == SectionChunks(pos, s.data, s.n) && r.end == SectionEnd(pos, s.n))
    ensures r.Chunked? ==> pos + 18 <= r.end <= |img| + 4 && |r.chunks| == 3 && StartsBy(r.chunks, |img|)
    ensures r.Chunked? ==> Tiles(Padded(img), cs + r.chunks, r.end, z)
  {
    hide Tiles, Streaming;
    var start := pos + GZIP_HEADER_LEN;
    if start > |img| { return OutOfBounds; }
    AddNormal(Padded(img), cs, pos, GZIP_HEADER_LEN, z);
    var head := Normal(pos, GZIP_HEADER_LEN, pos);
    match z.inflate(img[start..]) {
      case None => return NeverReturns;
      case Some((data, n)) =>
        var body := Deflate(start, n, data, Params(0, 0, 0, 0, 0));
        var foot := start + n;
        var end := foot + GZIP_FOOTER_LEN;
        if end > |img| + 4 { return OutOfBounds; }
        if Read4(Padded(img)[end - 4..end]) != |data| { return BadFooter; }
        AddDeflate(img, cs + [head], start, data, n, z);
        AddNormal(Padded(img), cs + [head] + [body], foot, GZIP_FOOTER_LEN, z);
        r := Chunked([head, body, Normal(foot, GZIP_FOOTER_LEN, foot)], end);
        assert cs + r.chunks == cs + [head] + [body] + [Normal(foot, GZIP_FOOTER_LEN, foot)];
    }
  }

  /** After a good section the rest decides. */
  lemma GzipStep(img: seq<Byte>, pos: nat, z: Codecs)
    requires pos < |img| && Magic(img, pos)
    ensures var s := SectionAt(img, pos, z);
      && (s.NoStream? ==> EndingFrom(img, pos, z) == Stuck) && (s.Misfit? ==> EndingFrom(img, pos, z) == Mislabelled)
      && (s.Cut? ==> EndingFrom(img, pos, z) == Truncated)
      && (s.Over? ==> EndingFrom(img, pos, z) == Overrun && EndFrom(img, pos, z) == SectionEnd(pos, s.n) &&
                      ChunksFrom(img, pos, z) == SectionChunks(pos, s.data, s.n))
      && (s.Good? ==> Continues(img, pos, SectionEnd(pos, s.n), SectionChunks(pos, s.data, s.n), z))
  {
    hide SectionChunks, SectionEnd;
    AtHeader(img, pos, pos, z);
    hide EndingFrom, EndFrom, ChunksFrom, SectionAt;
  }

  /** Reading from pos is reading from the next header, after what lies before it. */
  lemma AtHeader(img: seq<Byte>, pos: nat, q: nat, z: Codecs)
    requires pos <= q < |img| && (FirstHeader(img, pos) == q || (pos == q && Magic(img, q)))
    ensures EndingFrom(img, pos, z) == EndingAt(img, q, z) && EndFrom(img, pos, z) == EndAt(img, q, z)
    ensures ChunksFrom(img, pos, z) == Plain(pos, q) + ChunksAt(img, q, z)
  {
    assert FirstHeader(img, pos) == q;
    hide EndingAt, EndAt, ChunksAt, FirstHeader;
  }

  /** Reading from pos is reading from next, after these chunks. */
  ghost predicate Continues(img: seq<Byte>, pos: nat, next: nat, cs: seq<Chunk>, z: Codecs)
  {
    && pos <= |img| && next <= |img|
    && EndingFrom(img, pos, z) == EndingFrom(img, next, z) && EndFrom(img, pos, z) == EndFrom(img, next, z)
    && (EndingFrom(img, pos, z) in {Covered, Overrun} ==> ChunksFrom(img, pos, z) == cs + ChunksFrom(img, next, z))
  }

  /** Where the scan from a place that is not a header stops, and what that says of the image. */
  lemma ScanStep(img: seq<Byte>, pos: nat, q: nat, z: Codecs)
    requires pos <= q <= |img| && pos < |img| && !Magic(img, pos)
    requires (q < |img| ==> Magic(Padded(img), q)) && forall i :: pos <= i < q ==> !Magic(Padded(img), i)
    ensures q == pos ==> EndingFrom(img, pos, z) == Stuck
    ensures Continues(img, pos, q, [Normal(pos, q - pos, pos)], z)
  {
    hide SectionAt, SectionChunks, SectionEnd;
    forall i | pos <= i < q
      ensures !Magic(img, i)
    {
      MagicPadded(img, i);
    }
    if q < |img| && !Magic(img, q) {
      StuckOnlyAtEnd(img, q);
      assert FirstHeader(img, pos) == FirstHeader(img, q) == |img|;
    } else if q < |img| {
      assert FirstHeader(img, pos) == FirstHeader(img, q) == q;
      ToHeader(img, pos, q, z);
    } else {
      if EndsInMagic(img) && pos <= |img| - 3 { StuckAtEnd(img); }
      assert FirstHeader(img, pos) == |img|;
    }
  }

  /** What lies before the next header is one chunk. */
  lemma ToHeader(img: seq<Byte>, pos: nat, q: nat, z: Codecs)
    requires pos < q < |img| && FirstHeader(img, pos) == FirstHeader(img, q) == q
    ensures Continues(img, pos, q, [Normal(pos, q - pos, pos)], z)
  {
    assert Plain(q, q) == [] && Plain(pos, q) == [Normal(pos, q - pos, pos)];
    AtHeader(img, pos, q, z);
    AtHeader(img, q, q, z);
    hide *;
    assert [] + ChunksAt(img, q, z) == ChunksAt(img, q, z);
    ContinuesIs(img, pos, q, [Normal(pos, q - pos, pos)], z);
  }

  lemma ContinuesIs(img: seq<Byte>, pos: nat, next: nat, cs: seq<Chunk>, z: Codecs)
    requires pos <= |img| && next <= |img|
    requires EndingFrom(img, pos, z) == EndingFrom(img, next, z) && EndFrom(img, pos, z) == EndFrom(img, next, z)
    requires ChunksFrom(img, pos, z) == cs + ChunksFrom(img, next, z)
    ensures Continues(img, pos, next, cs, z)
  {
    hide EndingFrom, EndFrom, ChunksFrom;
  }

  lemma MagicPadded(img: seq<Byte>, i: int)
    ensures Magic(img, i) ==> Magic(Padded(img), i)
  {
  }

  /**
   ReadImage.  It returns chunks exactly for an image that is covered or overrun, and they tile what it read: the image
   if that is covered, and else the image with one to four bytes of padding.  On an image that is stuck it never
   returns, since at such an ending the padding completes a header that the gzip test then refuses, and without a
   stream inflate makes no progress.
   */
  method ReadImage(img: seq<Byte>, z: Codecs) returns (r: Outcome)
    requires Streaming(z)
    ensures r.Chunked? <==> Read(img, z)
    ensures r.NeverReturns? <==> EndingFrom(img, 0, z) == Stuck
    ensures r.BadFooter? <==> EndingFrom(img, 0, z) == Mislabelled
    ensures r.Chunked? ==> r.end == EndFrom(img, 0, z) && r.chunks == ChunksFrom(img, 0, z)
    ensures r.Chunked? ==>
              Tiles(View(img, r.end), r.chunks, r.end, z) && |r.chunks| <= |img| && StartsBy(r.chunks, |img|)
  {
    hide Tiles, Streaming, EndingFrom, EndFrom, ChunksFrom, SectionAt, SectionEnd, Magic, SectionChunks, Padded,
        StartsBy;
    var pos, chunks := 0, [];
    StartsBoth([], [], |img|);
    NoChunksTile(Padded(img), z);
    while pos < |img|
      invariant |chunks| <= pos <= |img| + 4 && |chunks| <= |img| && Tiles(Padded(img), chunks, pos, z) &&
                StartsBy(chunks, |img|)
      invariant pos <= |img| ==> Continues(img, 0, pos, chunks, z)
      invariant pos > |img| ==>
                EndingFrom(img, 0, z) == Overrun && EndFrom(img, 0, z) == pos && ChunksFrom(img, 0, z) == chunks
      decreases |img| - pos
    {
      if |img| - pos >= 4 && Magic(img, pos) {
        GzipStep(img, pos, z);
        var g := ReadGzip(img, pos, chunks, z);
        if !g.Chunked? { return g; }
        StartsBoth(chunks, g.chunks, |img|);
        chunks, pos := chunks + g.chunks, g.end;
      } else {
        var len := ScanNormal(img, pos);
        TooShort(img, pos);
        ScanStep(img, pos, pos + len, z);
        if len == 0 {
          return NeverReturns;
        }
        PaddedSize(img);
        StartsBoth(chunks, [Normal(pos, len, pos)], |img|);
        AddNormal(Padded(img), chunks, pos, len, z);
        chunks, pos := chunks + [Normal(pos, len, pos)], pos + len;
      }
    }
    NothingLeft(img, z);
    PaddedSize(img);
    TilesFront(Padded(img), chunks, pos, pos, z);
    return Chunked(chunks, pos);
  }

  lemma StartsBoth(cs: seq<Chunk>, ds: seq<Chunk>, m: int)
    ensures StartsBy(cs, m) && StartsBy(ds, m) ==> StartsBy(cs + ds, m)
    ensures |cs| == 0 ==> StartsBy(cs, m)
    ensures |ds| == 1 && ds[0].start <= m ==> StartsBy(ds, m)
    ensures |ds| == 1 && ds[0].start <= m && StartsBy(cs, m) ==> StartsBy(cs + ds, m)
  {
  }

  lemma PaddedSize(img: seq<Byte>)
    ensures |Padded(img)| == |img| + 4
  {
  }

  /**
   An image that is one gzip section whose footer has lost its last byte, a zero, reads as if it still had it: the
   comment at imgdiff.c:385-387 thinks of headers only.
   */
  lemma LostZero(img: seq<Byte>, z: Codecs)
    requires |img| > 0 && Magic(img, 0) && img[|img| - 1] == 0 && SectionAt(img, 0, z).Good?
    requires SectionEnd(0, SectionAt(img, 0, z).n) == |img|
    requires z.inflate(img[GZIP_HEADER_LEN..|img| - 1]) == z.inflate(img[GZIP_HEADER_LEN..])
    ensures var short := img[..|img| - 1];
            EndingFrom(short, 0, z) == Overrun && EndFrom(short, 0, z) == |img| && View(short, |img|) == img
  {
    var short, e := img[..|img| - 1], |img|;
    assert short[GZIP_HEADER_LEN..] == img[GZIP_HEADER_LEN..e - 1];
    assert Padded(short)[..e] == img;
    assert Padded(short)[e - 4..e] == img[e - 4..e] == Padded(img)[e - 4..e];
    assert Magic(short, 0) && FirstHeader(short, 0) == 0;
  }

  /** Ten bytes of header, a stream that inflates to data, four bytes of checksum and four of length, after pre. */
  ghost predicate Gzip(img: seq<Byte>, pre: seq<Byte>, head: seq<Byte>, stream: seq<Byte>, crc: seq<Byte>,
      size: seq<Byte>, rest: seq<Byte>, data: seq<Byte>, z: Codecs)
  {
    && img == pre + head + stream + crc + size + rest && |head| == 10 && |crc| == 4 && |size| == 4
    && head[..4] == [0x1f, 0x8b, 0x08, 0x00] && z.inflate(stream + crc + size + rest) == Some((data, |stream|))
  }

  /**
   A gzip section anywhere in an image: with the data's length at its end it is three chunks and reading goes on behind
   it; with anything else there the image is refused.
   */
  lemma SectionMeans(img: seq<Byte>, pre: seq<Byte>, head: seq<Byte>, stream: seq<Byte>, crc: seq<Byte>,
      size: seq<Byte>, rest: seq<Byte>, data: seq<Byte>, z: Codecs)
    requires Gzip(img, pre, head, stream, crc, size, rest, data, z) && |data| < TWO31
    ensures var p, next := |pre|, |pre| + 10 + |stream| + 8;
      && next <= |img|
      && (size != Le(|data|, 4) ==> EndingFrom(img, p, z) == Mislabelled)
      && (size == Le(|data|, 4) ==>
           Continues(img, p, next, [Normal(p, 10, p), Deflate(p + 10, |stream|, data, Params(0, 0, 0, 0, 0)),
                                    Normal(p + 10 + |stream|, 8, p + 10 + |stream|)], z))
  {
    hide *;
    SectionBytes(img, pre, head, stream, crc, size, rest, data, z);
    SectionReads(img, |pre|, |stream|, data, size, z);
  }

  lemma SectionReads(img: seq<Byte>, p: nat, n: nat, data: seq<Byte>, size: seq<Byte>, z: Codecs)
    requires p + 18 + n <= |img| && Magic(img, p) && z.inflate(img[p + 10..]) == Some((data, n)) && |data| < TWO31
    requires |size| == 4 && size == img[p + 14 + n..p + 18 + n]
    ensures size != Le(|data|, 4) ==> EndingFrom(img, p, z) == Mislabelled
    ensures size == Le(|data|, 4) ==>
              Continues(img, p, p + 10 + n + 8, [Normal(p, 10, p), Deflate(p + 10, n, data, Params(0, 0, 0, 0, 0)),
                                                 Normal(p + 10 + n, 8, p + 10 + n)], z)
  {
    hide *;
    LengthBytes(size, |data|);
    SectionIs(img, p, n, data, size, z);
    GzipStep(img, p, z);
  }

  lemma SectionIs(img: seq<Byte>, p: nat, n: nat, data: seq<Byte>, size: seq<Byte>, z: Codecs)
    requires p + 18 + n <= |img| && z.inflate(img[p + 10..]) == Some((data, n))
    requires |size| == 4 && size == img[p + 14 + n..p + 18 + n]
    ensures SectionAt(img, p, z) == if Read4(size) == |data| then Good(data, n) else Misfit
    ensures SectionEnd(p, n) == p + 10 + n + 8
    ensures SectionChunks(p, data, n) == [Normal(p, 10, p), Deflate(p + 10, n, data, Params(0, 0, 0, 0, 0)),
                                          Normal(p + 10 + n, 8, p + 10 + n)]
  {
    hide Read4;
    var end := p + 18 + n;
    assert Padded(img)[end - 4..end] == size;
  }

  lemma SectionBytes(img: seq<Byte>, pre: seq<Byte>, head: seq<Byte>, stream: seq<Byte>, crc: seq<Byte>,
      size: seq<Byte>, rest: seq<Byte>, data: seq<Byte>, z: Codecs)
    requires Gzip(img, pre, head, stream, crc, size, rest, data, z)
    ensures var p, end := |pre|, |pre| + 18 + |stream|;
      && end <= |img| && Magic(img, p) && z.inflate(img[p + 10..]) == Some((data, |stream|))
      && |size| == 4 && img[end - 4..end] == size
  {
    var p, front := |pre|, pre + head;
    assert img == front + (stream + crc + size + rest);
    assert img[p + 10..] == stream + crc + size + rest;
    assert img == (front + stream + crc) + size + rest;
    assert img[p] == head[..4][0] && img[p + 1] == head[..4][1] && img[p + 2] == head[..4][2] &&
        img[p + 3] == head[..4][3];
  }

  /** An image that is one gzip section. */
  method ReadSection(head: seq<Byte>, stream: seq<Byte>, crc: seq<Byte>, size: seq<Byte>, ghost data: seq<Byte>,
      z: Codecs) returns (r: Outcome)
    requires Streaming(z) && |head| == 10 && |crc| == 4 && |size| == 4
    requires head[..4] == [0x1f, 0x8b, 0x08, 0x00] && |data| < TWO31
    requires z.inflate(stream + crc + size) == Some((data, |stream|))
    ensures size == Le(|data|, 4) ==>
              r == Chunked([Normal(0, 10, 0), Deflate(10, |stream|, data, Params(0, 0, 0, 0, 0)),
                            Normal(10 + |stream|, 8, 10 + |stream|)], |stream| + 18)
    ensures size != Le(|data|, 4) ==> r == BadFooter
  {
    var img := head + stream + crc + size;
    assert img == [] + head + stream + crc + size + [];
    assert stream + crc + size + [] == stream + crc + size;
    hide *;
    SectionMeans(img, [], head, stream, crc, size, [], data, z);
    ReadFrom(img, [Normal(0, 10, 0), Deflate(10, |stream|, data, Params(0, 0, 0, 0, 0)),
                   Normal(10 + |stream|, 8, 10 + |stream|)], z);
    r := ReadImage(img, z);
  }

  lemma ReadFrom(img: seq<Byte>, cs: seq<Chunk>, z: Codecs)
    ensures Continues(img, 0, |img|, cs, z) ==>
              Read(img, z) && ChunksFrom(img, 0, z) == cs && EndFrom(img, 0, z) == |img|
    ensures Read(img, z) ==> EndingFrom(img, 0, z) != Mislabelled
  {
    NothingLeft(img, z);
    hide EndingFrom, EndFrom, ChunksFrom;
  }

  lemma TooShort(img: seq<Byte>, pos: nat)
    ensures |img| - pos < 4 ==> !Magic(img, pos)
  {
  }

  lemma NothingLeft(img: seq<Byte>, z: Codecs)
    ensures EndingFrom(img, |img|, z) == Covered && ChunksFrom(img, |img|, z) == [] && EndFrom(img, |img|, z) == |img|
  {
  }

  lemma NoChunksTile(img: seq<Byte>, z: Codecs)
    ensures Tiles(img, [], 0, z)
  {
  }

  /** An ending 1f 8b 08: the padding makes it a header for the scan, but not for the test on the image itself. */
  lemma StuckAtEnd(img: seq<Byte>)
    requires EndsInMagic(img)
    ensures Magic(Padded(img), |img| - 3) && !Magic(img, |img| - 3)
  {
    var t := img[|img| - 3..];
    assert img[|img| - 3] == t[0] && img[|img| - 2] == t[1] && img[|img| - 1] == t[2];
  }
}
