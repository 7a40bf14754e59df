/** Chunk lists of an image: tiling, merging and demotion (imgdiff.c:599-752 and 847-907). */
module ImgChunks {
  import opened Bytes
  import opened Codec
  import opened Wrappers
  import opened ImgPatch
  import opened ImgFormat

  /** An ImageChunk.  at is where a normal chunk's data pointer points into the image. */
  datatype Chunk =
    | Normal(start: nat, len: nat, at: nat)
    | Deflate(start: nat, deflateLen: nat, data: seq<Byte>, params: Params)

  function End(c: Chunk): (e: nat)
  {
    c.start + if c.Normal? then c.len else c.deflateLen
  }

  /** The bytes of the image the chunk stands for. */
  function ChunkBytes(img: seq<Byte>, c: Chunk): (b: seq<Byte>)
    requires End(c) <= |img|
  {
    img[c.start..End(c)]
  }

  ghost predicate ChunkOk(img: seq<Byte>, c: Chunk, z: Codecs)
  {
    && End(c) <= |img|
    && match c
       case Normal(start, _, at) => at == start
       case Deflate(_, _, data, _) =>
         |data| < TWO63 && z.inflate(ChunkBytes(img, c)).Some? && z.inflate(ChunkBytes(img, c)).value.0 == data
  }

  /** The chunks cover img[..n], one after the other. */
  ghost predicate Tiles(img: seq<Byte>, cs: seq<Chunk>, n: int, z: Codecs)
  {
    if cs == [] then n == 0
    else
      var c := cs[|cs| - 1];
      End(c) == n && ChunkOk(img, c, z) && Tiles(img, cs[..|cs| - 1], c.start, z)
  }

  ghost function Pieces(img: seq<Byte>, cs: seq<Chunk>, n: int, z: Codecs): (b: seq<seq<Byte>>)
    requires Tiles(img, cs, n, z)
    ensures |b| == |cs|
  {
    if cs == [] then []
    else Pieces(img, cs[..|cs| - 1], cs[|cs| - 1].start, z) + [ChunkBytes(img, cs[|cs| - 1])]
  }

  lemma {:induction false} TilesAt(img: seq<Byte>, cs: seq<Chunk>, n: int, z: Codecs, i: nat)
    requires Tiles(img, cs, n, z) && i < |cs|
    ensures ChunkOk(img, cs[i], z) && Pieces(img, cs, n, z)[i] == ChunkBytes(img, cs[i]) && 0 <= n <= |img|
    decreases |cs|
  {
    if i < |cs| - 1 { TilesAt(img, cs[..|cs| - 1], cs[|cs| - 1].start, z, i); }
  }

  /** In a tiling each chunk ends where the next starts. */
  lemma {:induction false} TilesMeet(img: seq<Byte>, cs: seq<Chunk>, n: int, z: Codecs, i: nat)
    requires Tiles(img, cs, n, z) && i < |cs|
    ensures End(cs[i]) == if i == |cs| - 1 then n else cs[i + 1].start
    decreases |cs|
  {
    if i < |cs| - 1 { TilesMeet(img, cs[..|cs| - 1], cs[|cs| - 1].start, z, i); }
  }

  /** The pieces of a tiling, put together, are the image. */
  lemma {:induction false} PiecesJoin(img: seq<Byte>, cs: seq<Chunk>, n: int, z: Codecs)
    requires Tiles(img, cs, n, z)
    ensures 0 <= n <= |img| && Join(Pieces(img, cs, n, z)) == img[..n]
    decreases |cs|
  {
    if cs != [] {
      var c := cs[|cs| - 1];
      PiecesJoin(img, cs[..|cs| - 1], c.start, z);
      JoinLast(Pieces(img, cs[..|cs| - 1], c.start, z), ChunkBytes(img, c));
      assert img[..c.start] + img[c.start..n] == img[..n];
    }
  }

  // ---------------------------------------------------------------- merging

  /** c continues p: both normal, and adjacent in the image and in memory. */
  predicate Joins(p: Chunk, c: Chunk)
  {
    p.Normal? && c.Normal? && c.start == p.start + p.len && c.at == p.at + p.len
  }

  function Push(ms: seq<Chunk>, c: Chunk): (r: seq<Chunk>)
  {
    if ms != [] && Joins(ms[|ms| - 1], c) then
      var p := ms[|ms| - 1];
      ms[..|ms| - 1] + [Normal(p.start, p.len + c.len, p.at)]
    else ms + [c]
  }

  /** Runs of adjacent normal chunks made one. */
  function Merged(cs: seq<Chunk>): (r: seq<Chunk>)
    ensures |r| <= |cs|
    ensures cs != [] ==> r != [] && (r[|r| - 1].Normal? <==> cs[|cs| - 1].Normal?)
    ensures cs != [] && r[|r| - 1].Normal? ==>
              End(r[|r| - 1]) == End(cs[|cs| - 1]) &&
                  r[|r| - 1].at + r[|r| - 1].len == cs[|cs| - 1].at + cs[|cs| - 1].len
  {
    if cs == [] then [] else Push(Merged(cs[..|cs| - 1]), cs[|cs| - 1])
  }

  lemma MergedNext(cs: seq<Chunk>, i: nat)
    requires i < |cs|
    ensures Merged(cs[..i + 1]) == Push(Merged(cs[..i]), cs[i])
  {
    assert cs[..i + 1][..i] == cs[..i];
  }

  /** The merged form of a run lo..hi of normal chunks. */
  function Whole(C: seq<Chunk>, lo: nat, hi: nat): (c: Chunk)
    requires lo < hi <= |C| && C[lo].Normal? && C[hi - 1].Normal? && C[hi - 1].start >= C[lo].start
  {
    Normal(C[lo].start, C[hi - 1].len + (C[hi - 1].start - C[lo].start), C[lo].at)
  }

  /** lo..hi is a run, and merging up to hi has made it one chunk. */
  ghost predicate IsRun(C: seq<Chunk>, lo: int, hi: int)
  {
    && 0 <= lo < hi <= |C| && C[lo].Normal? && C[hi - 1].Normal? && C[hi - 1].start >= C[lo].start
    && C[hi - 1].start - C[lo].start == C[hi - 1].at - C[lo].at
    && Merged(C[..hi]) == Merged(C[..lo]) + [Whole(C, lo, hi)]
  }

  lemma RunStarts(C: seq<Chunk>, lo: nat)
    requires lo < |C| && (lo == 0 || !Joins(C[lo - 1], C[lo]))
    ensures Merged(C[..lo + 1]) == Merged(C[..lo]) + [C[lo]]
    ensures C[lo].Normal? ==> IsRun(C, lo, lo + 1)
  {
    MergedNext(C, lo);
    FirstOfRun(C, lo);
  }

  lemma RunGrows(C: seq<Chunk>, lo: nat, hi: nat)
    requires IsRun(C, lo, hi) && hi < |C| && Joins(C[hi - 1], C[hi])
    ensures IsRun(C, lo, hi + 1)
  {
    hide Merged, Push, Whole, Joins;
    MergedNext(C, hi);
    WholeGrows(C, lo, hi);
    PushOnto(Merged(C[..lo]), Whole(C, lo, hi), C[hi]);
  }

  lemma WholeGrows(C: seq<Chunk>, lo: nat, hi: nat)
    requires lo < hi < |C| && C[lo].Normal? && C[hi - 1].Normal? && C[hi - 1].start >= C[lo].start
    requires C[hi - 1].start - C[lo].start == C[hi - 1].at - C[lo].at && Joins(C[hi - 1], C[hi])
    ensures C[hi].Normal? && C[hi].start >= C[lo].start && C[hi].start - C[lo].start == C[hi].at - C[lo].at
    ensures var w := Whole(C, lo, hi);
            Joins(w, C[hi]) && w.Normal? && Whole(C, lo, hi + 1) == Normal(w.start, w.len + C[hi].len, w.at)
  {
  }

  lemma PushOnto(ms: seq<Chunk>, p: Chunk, c: Chunk)
    requires Joins(p, c) && p.Normal? && c.Normal?
    ensures Push(ms + [p], c) == ms + [Normal(p.start, p.len + c.len, p.at)]
  {
    assert (ms + [p])[..|ms|] == ms;
  }

  /** The end of a run of normal chunks that starts at lo (imgdiff.c:714-720); C is the list before compaction. */
  method RunEnd(chunks: array<Chunk>, n: nat, lo: nat, ghost C: seq<Chunk>) returns (hi: nat)
    requires n == |C| <= chunks.Length && (forall i :: lo <= i < n ==> chunks[i] == C[i]) && IsRun(C, lo, lo + 1)
    ensures IsRun(C, lo, hi) && (hi < n ==> !Joins(C[hi - 1], C[hi]))
  {
    hide Merged, Joins;
    hi := lo + 1;
    while hi < n && Joins(chunks[hi - 1], chunks[hi])
      invariant IsRun(C, lo, hi)
    {
      RunGrows(C, lo, hi);
      hi := hi + 1;
    }
  }

  /** A chunk that does not continue the one before it starts a merged chunk of its own. */
  lemma FirstOfRun(C: seq<Chunk>, lo: nat)
    requires lo < |C| && (lo == 0 || !Joins(C[lo - 1], C[lo]))
    ensures Push(Merged(C[..lo]), C[lo]) == Merged(C[..lo]) + [C[lo]]
  {
    if lo > 0 {
      var r := Merged(C[..lo]);
      assert C[..lo][lo - 1] == C[lo - 1];
    }
  }

  /** MergeAdjacentNormalChunks (imgdiff.c:704-752), in place. */
  method MergeAdjacentNormalChunks(chunks: array<Chunk>, n: nat) returns (out: nat)
    requires n <= chunks.Length
    modifies chunks
    ensures out <= n && chunks[..out] == Merged(old(chunks[..n]))
  {
    hide Merged, Joins;
    ghost var C := chunks[..n];
    MergedNothing();
    out := 0;
    var lo := 0;
    while lo < n
      invariant 0 <= out <= lo <= n == |C| && chunks[..out] == Merged(C[..lo])
      invariant forall i :: lo <= i < n ==> chunks[i] == C[i]
      invariant 0 < lo < n ==> !Joins(C[lo - 1], C[lo])
    {
      lo := MergeRun(chunks, n, out, lo, C);
      out := out + 1;
    }
    assert C[..n] == C;
  }

  /** One run, or one chunk that is not normal, goes to its place. */
  method MergeRun(chunks: array<Chunk>, n: nat, out: nat, lo: nat, ghost C: seq<Chunk>) returns (hi: nat)
    requires out <= lo < n == |C| <= chunks.Length && chunks[..out] == Merged(C[..lo])
    requires (forall i :: lo <= i < n ==> chunks[i] == C[i]) && (lo > 0 ==> !Joins(C[lo - 1], C[lo]))
    modifies chunks
    ensures lo < hi <= n && chunks[..out + 1] == Merged(C[..hi]) && (hi < n ==> !Joins(C[hi - 1], C[hi]))
    ensures forall i :: hi <= i < n ==> chunks[i] == C[i]
  {
    hide Merged, Joins;
    hi := lo + 1;
    RunStarts(C, lo);
    ghost var done := chunks[..out];
    if chunks[lo].Normal? {
      hi := RunEnd(chunks, n, lo, C);
    } else {
      NotJoined(C, lo);
    }
    if hi == lo + 1 {
      if out != lo { chunks[out] := chunks[lo]; }
    } else {
      chunks[out] := Normal(chunks[lo].start, chunks[hi - 1].len + (chunks[hi - 1].start - chunks[lo].start),
          chunks[lo].at);
    }
    assert chunks[..out + 1] == done + [chunks[out]];
  }

  lemma MergedNothing()
    ensures Merged([]) == []
  {
  }

  lemma NotJoined(C: seq<Chunk>, lo: nat)
    requires lo < |C| && !C[lo].Normal?
    ensures lo + 1 < |C| ==> !Joins(C[lo], C[lo + 1])
  {
  }

  /** Merging keeps a tiling a tiling. */
  lemma {:induction false} MergedTiles(img: seq<Byte>, cs: seq<Chunk>, n: int, z: Codecs)
    requires Tiles(img, cs, n, z)
    ensures Tiles(img, Merged(cs), n, z)
  {
    if cs != [] {
      var c := cs[|cs| - 1];
      MergedTiles(img, cs[..|cs| - 1], c.start, z);
      PushTiles(img, Merged(cs[..|cs| - 1]), c, z);
    }
  }

  lemma PushTiles(img: seq<Byte>, ms: seq<Chunk>, c: Chunk, z: Codecs)
    requires Tiles(img, ms, c.start, z) && ChunkOk(img, c, z)
    ensures Tiles(img, Push(ms, c), End(c), z)
  {
    if ms != [] && Joins(ms[|ms| - 1], c) {
      assert Push(ms, c)[..|ms| - 1] == ms[..|ms| - 1];
    } else {
      assert Push(ms, c)[..|ms|] == ms;
    }
  }

  /** A merged list has no two neighbours left to merge. */
  lemma {:induction false} MergedApart(cs: seq<Chunk>)
    ensures forall i :: 0 < i < |Merged(cs)| ==> !Joins(Merged(cs)[i - 1], Merged(cs)[i])
  {
    if cs != [] {
      var init, c := cs[..|cs| - 1], cs[|cs| - 1];
      MergedApart(init);
      MergedLast(cs);
      hide Merged;
      PushApart(Merged(init), c);
    } else {
      assert Merged(cs) == [];
    }
  }

  lemma PushApart(ms: seq<Chunk>, c: Chunk)
    requires forall i :: 0 < i < |ms| ==> !Joins(ms[i - 1], ms[i])
    ensures forall i :: 0 < i < |Push(ms, c)| ==> !Joins(Push(ms, c)[i - 1], Push(ms, c)[i])
  {
  }

  /** Which chunks are normal. */
  function Kinds(cs: seq<Chunk>): (k: seq<bool>)
    ensures |k| == |cs|
  {
    seq(|cs|, i requires 0 <= i < |cs| => cs[i].Normal?)
  }

  /** Each run of normals reduced to one. */
  function Collapse(k: seq<bool>): (r: seq<bool>)
    ensures k != [] ==> r != [] && r[|r| - 1] == k[|k| - 1]
  {
    if k == [] then []
    else
      var r, x := Collapse(k[..|k| - 1]), k[|k| - 1];
      if x && r != [] && r[|r| - 1] then r else r + [x]
  }

  /** In a tiling every normal chunk continues a normal chunk before it, so merging is decided by kinds alone. */
  lemma {:induction false} MergedKinds(img: seq<Byte>, cs: seq<Chunk>, n: int, z: Codecs)
    requires Tiles(img, cs, n, z)
    ensures Kinds(Merged(cs)) == Collapse(Kinds(cs))
  {
    if cs != [] {
      var init, c := cs[..|cs| - 1], cs[|cs| - 1];
      MergedKinds(img, init, c.start, z);
      MergedTiles(img, init, c.start, z);
      assert Kinds(cs)[..|cs| - 1] == Kinds(init);
      hide Tiles, Merged, Collapse, Kinds;
      PushKinds(img, Merged(init), c, z);
      hide Push;
      MergedLast(cs);
      CollapseLast(Kinds(cs));
      KindsLast(cs);
    }
  }

  lemma PushKinds(img: seq<Byte>, ms: seq<Chunk>, c: Chunk, z: Codecs)
    requires Tiles(img, ms, c.start, z) && ChunkOk(img, c, z)
    ensures Kinds(Push(ms, c)) ==
            if c.Normal? && ms != [] && Kinds(ms)[|ms| - 1] then Kinds(ms) else Kinds(ms) + [c.Normal?]
  {
  }

  lemma MergedLast(cs: seq<Chunk>)
    requires cs != []
    ensures Merged(cs) == Push(Merged(cs[..|cs| - 1]), cs[|cs| - 1])
  {
  }

  lemma CollapseLast(k: seq<bool>)
    requires k != []
    ensures var r, x := Collapse(k[..|k| - 1]), k[|k| - 1];
            Collapse(k) == if x && r != [] && r[|r| - 1] then r else r + [x]
  {
  }

  lemma KindsLast(cs: seq<Chunk>)
    requires cs != []
    ensures Kinds(cs)[|cs| - 1] == cs[|cs| - 1].Normal?
  {
  }

  /** Merging does not touch deflate chunks. */
  lemma {:induction false} MergedDeflates(cs: seq<Chunk>)
    ensures forall i :: 0 <= i < |Merged(cs)| && Merged(cs)[i].Deflate? ==> Merged(cs)[i] in cs
  {
    if cs != [] {
      var init, c := cs[..|cs| - 1], cs[|cs| - 1];
      MergedDeflates(init);
      MergedLast(cs);
      hide Merged;
      PushDeflates(Merged(init), c);
      forall i | 0 <= i < |Merged(cs)| && Merged(cs)[i].Deflate?
        ensures Merged(cs)[i] in cs
      {
        var x := Merged(cs)[i];
        if x != c {
          var k :| 0 <= k < |Merged(init)| && Merged(init)[k] == x;
          assert x in init;
        }
      }
    } else {
      assert Merged(cs) == [];
    }
  }

  /** No chunk starts after m. */
  ghost predicate StartsBy(cs: seq<Chunk>, m: int)
  {
    forall i :: 0 <= i < |cs| ==> cs[i].start <= m
  }

  /** Merged chunks start where chunks started. */
  lemma {:induction false} MergedStartsBy(cs: seq<Chunk>, m: int)
    requires StartsBy(cs, m)
    ensures StartsBy(Merged(cs), m)
  {
    if cs != [] {
      MergedStartsBy(cs[..|cs| - 1], m);
      MergedLast(cs);
      hide Merged;
    }
  }

  lemma PushDeflates(ms: seq<Chunk>, c: Chunk)
    ensures forall i :: 0 <= i < |Push(ms, c)| && Push(ms, c)[i].Deflate? ==>
              Push(ms, c)[i] == c || Push(ms, c)[i] in ms
  {
  }

  // ---------------------------------------------------------------- demotion

  /** ChangeDeflateChunkToNormal (imgdiff.c:670-676). */
  function ToNormal(c: Chunk): (r: Chunk)
    ensures r.Normal? && r.start == c.start && End(r) == End(c)
  {
    if c.Normal? then c else Normal(c.start, c.deflateLen, c.start)
  }

  const BUFFER_SIZE := 32768

  /** TryReconstruction (imgdiff.c:521-558): compares the recompressed data with the image piece by piece. */
  method TryReconstruction(img: seq<Byte>, c: Chunk, params: Params, z: Codecs) returns (ok: bool)
    requires c.Deflate? && End(c) <= |img|
    ensures ok <==> z.deflate(params, c.data) == ChunkBytes(img, c)
  {
    var packed := z.deflate(params, c.data);
    var p := 0;
    while p < |packed|
      invariant 0 <= p <= |packed| && c.start + p <= |img|
      invariant packed[..p] == img[c.start..c.start + p]
    {
      var have := if |packed| - p < BUFFER_SIZE then |packed| - p else BUFFER_SIZE;
      if c.start + p + have > |img| || packed[p..p + have] != img[c.start + p..c.start + p + have] {
        Differs(packed, img, c.start, End(c), p, have);
        return false;
      }
      assert packed[..p + have] == packed[..p] + packed[p..p + have];
      assert img[c.start..c.start + p + have] == img[c.start..c.start + p] + img[c.start + p..c.start + p + have];
      p := p + have;
    }
    assert packed[..p] == packed;
    return p == c.deflateLen;
  }

  lemma Differs(packed: seq<Byte>, img: seq<Byte>, start: nat, end: nat, p: nat, have: nat)
    requires start <= end <= |img| && p + have <= |packed|
    requires start + p + have > |img| || packed[p..p + have] != img[start + p..start + p + have]
    ensures packed != img[start..end]
  {
    if packed == img[start..end] {
      assert img == img[..start] + packed + img[end..];
      Slice(img[..start], packed, img[end..], p, p + have);
    }
  }

  const Z_DEFLATED := 8
  const Z_DEFAULT_STRATEGY := 0

  function ParamsAt(level: int): (q: Params)
  {
    Params(level, Z_DEFLATED, -15, 8, Z_DEFAULT_STRATEGY)
  }

  /**
   ReconstructDeflateChunk (imgdiff.c:566-591): finds encoder parameters that give the image's own bytes back, if level
   6 or 9 does.
   */
  method ReconstructDeflateChunk(img: seq<Byte>, c: Chunk, z: Codecs) returns (r: Option<Params>)
    requires c.Deflate? && End(c) <= |img|
    ensures r.Some? ==> z.deflate(r.value, c.data) == ChunkBytes(img, c) && Fits(r.value)
    ensures r.Some? ==> r.value == Params(6, 8, -15, 8, 0) || r.value == Params(9, 8, -15, 8, 0)
    ensures r.None? ==> forall level :: level in {6, 9} ==> z.deflate(ParamsAt(level), c.data) != ChunkBytes(img, c)
  {
    var level := 6;
    while level <= 9
      invariant level == 6 || level == 9 || level == 12
      invariant level > 6 ==> z.deflate(ParamsAt(6), c.data) != ChunkBytes(img, c)
      invariant level > 9 ==> z.deflate(ParamsAt(9), c.data) != ChunkBytes(img, c)
      decreases 12 - level
    {
      var ok := TryReconstruction(img, c, ParamsAt(level), z);
      if ok { return Some(ParamsAt(level)); }
      level := level + 3;
    }
    return None;
  }

  /** AreChunksEqual (imgdiff.c:682-697) for two chunks of the same kind. */
  function AreChunksEqual(a: seq<Byte>, c: Chunk, b: seq<Byte>, d: Chunk): (r: bool)
    requires End(c) <= |a| && End(d) <= |b|
  {
    c.Normal? == d.Normal? && ChunkBytes(a, c) == ChunkBytes(b, d)
  }

  /** Deflate chunks carry parameters that recompress them to their own bytes. */
  ghost predicate Reconstructs(img: seq<Byte>, c: Chunk, z: Codecs)
  {
    c.Deflate? ==> End(c) <= |img| && z.deflate(c.params, c.data) == ChunkBytes(img, c) && Fits(c.params)
  }

  /** Replacing a chunk by one that stands for the same stretch. */
  lemma {:induction false} TilesReplace(img: seq<Byte>, cs: seq<Chunk>, n: int, z: Codecs, i: nat, c: Chunk)
    requires Tiles(img, cs, n, z) && i < |cs| && c.start == cs[i].start && End(c) == End(cs[i]) && ChunkOk(img, c, z)
    ensures Tiles(img, cs[i := c], n, z)
    decreases |cs|
  {
    var init := cs[..|cs| - 1];
    if i < |cs| - 1 {
      TilesReplace(img, init, cs[|cs| - 1].start, z, i, c);
      assert cs[i := c][..|cs| - 1] == init[i := c];
    } else {
      assert cs[i := c][..|cs| - 1] == init;
    }
  }
}
