/** Computing an image patch (imgdiff.c:599-1010, image mode), and that it rebuilds the target image. */
module ImgDiff {
  import opened Bytes
  import opened Codec
  import opened Wrappers
  import opened ImgPatch
  import opened ImgFormat
  import opened ImgChunks
  import opened ImgFront
  import BsDiff

  /** Two chunk lists of the same kinds that tile their images. */
  ghost predicate Parallel(srcImg: seq<Byte>, srcs: seq<Chunk>, tgtImg: seq<Byte>, tgts: seq<Chunk>, z: Codecs)
  {
    Tiles(srcImg, srcs, |srcImg|, z) && Tiles(tgtImg, tgts, |tgtImg|, z) && Kinds(srcs) == Kinds(tgts)
  }

  lemma Demoted(srcImg: seq<Byte>, srcs: seq<Chunk>, tgtImg: seq<Byte>, tgts: seq<Chunk>, z: Codecs, i: nat)
    requires Parallel(srcImg, srcs, tgtImg, tgts, z) && i < |tgts| == |srcs|
    ensures Parallel(srcImg, srcs[i := ToNormal(srcs[i])], tgtImg, tgts[i := ToNormal(tgts[i])], z)
  {
    TilesAt(srcImg, srcs, |srcImg|, z, i);
    TilesAt(tgtImg, tgts, |tgtImg|, z, i);
    TilesReplace(srcImg, srcs, |srcImg|, z, i, ToNormal(srcs[i]));
    TilesReplace(tgtImg, tgts, |tgtImg|, z, i, ToNormal(tgts[i]));
    hide Tiles;
    assert Kinds(srcs[i := ToNormal(srcs[i])]) == Kinds(srcs)[i := true];
    assert Kinds(tgts[i := ToNormal(tgts[i])]) == Kinds(tgts)[i := true];
  }

  lemma Tuned(srcImg: seq<Byte>, srcs: seq<Chunk>, tgtImg: seq<Byte>, tgts: seq<Chunk>, z: Codecs, i: nat, q: Params)
    requires Parallel(srcImg, srcs, tgtImg, tgts, z) && i < |tgts| && tgts[i].Deflate?
    ensures Parallel(srcImg, srcs, tgtImg, tgts[i := tgts[i].(params := q)], z)
  {
    TilesAt(tgtImg, tgts, |tgtImg|, z, i);
    TilesReplace(tgtImg, tgts, |tgtImg|, z, i, tgts[i].(params := q));
    hide Tiles;
    assert Kinds(tgts[i := tgts[i].(params := q)]) == Kinds(tgts);
  }

  lemma ParallelAt(srcImg: seq<Byte>, srcs: seq<Chunk>, tgtImg: seq<Byte>, tgts: seq<Chunk>, z: Codecs, i: nat)
    requires Parallel(srcImg, srcs, tgtImg, tgts, z) && i < |tgts|
    ensures |srcs| == |tgts| && ChunkOk(srcImg, srcs[i], z) && ChunkOk(tgtImg, tgts[i], z) &&
            srcs[i].Normal? == tgts[i].Normal?
    ensures End(srcs[i]) <= |srcImg| && End(tgts[i]) <= |tgtImg|
  {
    TilesAt(tgtImg, tgts, |tgtImg|, z, i);
    assert |Kinds(srcs)| == |Kinds(tgts)| && Kinds(srcs)[i] == Kinds(tgts)[i];
    TilesAt(srcImg, srcs, |srcImg|, z, i);
  }

  /** Level 6 or 9 recompresses the data of a deflate chunk to the bytes of the image. */
  ghost predicate Recompresses(img: seq<Byte>, c: Chunk, z: Codecs)
  {
    && c.Deflate? && End(c) <= |img|
    && (z.deflate(ParamsAt(6), c.data) == ChunkBytes(img, c) || z.deflate(ParamsAt(9), c.data) == ChunkBytes(img, c))
  }

  /** It does so, and the chunk has changed since the source. */
  ghost predicate Stays(srcImg: seq<Byte>, src: Chunk, tgtImg: seq<Byte>, tgt: Chunk, z: Codecs)
  {
    Recompresses(tgtImg, tgt, z) && End(src) <= |srcImg| && ChunkBytes(tgtImg, tgt) != ChunkBytes(srcImg, src)
  }

  /** What becomes of a pair of chunks: it is kept, with parameters found, exactly if it stays; else both are normal. */
  ghost predicate Demotes(srcImg: seq<Byte>, src: Chunk, src': Chunk, tgtImg: seq<Byte>, tgt: Chunk, tgt': Chunk,
      z: Codecs)
  {
    if tgt.Normal? then src' == src && tgt' == tgt
    else if Stays(srcImg, src, tgtImg, tgt, z) then
      && src' == src && tgt'.Deflate? && tgt' == tgt.(params := tgt'.params)
      && (tgt'.params == ParamsAt(6) || tgt'.params == ParamsAt(9))
    else src' == ToNormal(src) && tgt' == ToNormal(tgt)
  }

  /**
   The demotion loop (imgdiff.c:847-888): deflate chunks that do not recompress, or are unchanged, become
   normal on both sides; the rest get parameters that recompress them.
   */
  method Demote(srcImg: seq<Byte>, srcs: array<Chunk>, tgtImg: seq<Byte>, tgts: array<Chunk>, n: nat, z: Codecs)
    requires srcs != tgts && n <= srcs.Length && n <= tgts.Length && Parallel(srcImg, srcs[..n], tgtImg, tgts[..n], z)
    modifies srcs, tgts
    ensures Parallel(srcImg, srcs[..n], tgtImg, tgts[..n], z)
    ensures forall k :: 0 <= k < n ==> Reconstructs(tgtImg, tgts[k], z) && srcs[k].start == old(srcs[k].start)
    ensures forall k :: 0 <= k < n ==>
              Demotes(srcImg, old(srcs[k]), srcs[k], tgtImg, old(tgts[k]), tgts[k], z)
  {
    hide Parallel, Reconstructs, Demotes;
    var i := 0;
    while i < n
      invariant 0 <= i <= n && Parallel(srcImg, srcs[..n], tgtImg, tgts[..n], z)
      invariant forall k :: 0 <= k < i ==> Reconstructs(tgtImg, tgts[k], z) && srcs[k].start == old(srcs[k].start)
      invariant forall k :: 0 <= k < i ==>
                  Demotes(srcImg, old(srcs[k]), srcs[k], tgtImg, old(tgts[k]), tgts[k], z)
      invariant forall k :: i <= k < n ==> srcs[k] == old(srcs[k]) && tgts[k] == old(tgts[k])
    {
      DemoteOne(srcImg, srcs, tgtImg, tgts, n, i, z);
      i := i + 1;
    }
  }

  /** One pair. */
  method DemoteOne(srcImg: seq<Byte>, srcs: array<Chunk>, tgtImg: seq<Byte>, tgts: array<Chunk>, ghost n: nat, i: nat,
      z: Codecs)
    requires srcs != tgts && i < n <= srcs.Length && n <= tgts.Length
    requires Parallel(srcImg, srcs[..n], tgtImg, tgts[..n], z)
    modifies srcs, tgts
    ensures Parallel(srcImg, srcs[..n], tgtImg, tgts[..n], z)
    ensures Reconstructs(tgtImg, tgts[i], z) && srcs[i].start == old(srcs[i].start)
    ensures Demotes(srcImg, old(srcs[i]), srcs[i], tgtImg, old(tgts[i]), tgts[i], z)
    ensures forall k :: 0 <= k < n && k != i ==> srcs[k] == old(srcs[k]) && tgts[k] == old(tgts[k])
  {
    hide Parallel, ChunkOk, Reconstructs;
    ParallelAt(srcImg, srcs[..n], tgtImg, tgts[..n], z, i);
    NormalReconstructs(tgtImg, tgts[i], z);
    if tgts[i].Deflate? {
      var r := ReconstructDeflateChunk(tgtImg, tgts[i], z);
      if r.None? {
        DemoteAt(srcImg, srcs, tgtImg, tgts, n, i, z);
      } else {
        Tuned(srcImg, srcs[..n], tgtImg, tgts[..n], z, i, r.value);
        IsReconstructed(tgtImg, tgts[i], r.value, z);
        tgts[i] := tgts[i].(params := r.value);
        if AreChunksEqual(tgtImg, tgts[i], srcImg, srcs[i]) {
          DemoteAt(srcImg, srcs, tgtImg, tgts, n, i, z);
        }
      }
    }
  }

  lemma NormalReconstructs(img: seq<Byte>, c: Chunk, z: Codecs)
    ensures c.Normal? ==> Reconstructs(img, c, z)
  {
  }

  lemma IsReconstructed(img: seq<Byte>, c: Chunk, q: Params, z: Codecs)
    requires c.Deflate? && End(c) <= |img| && z.deflate(q, c.data) == ChunkBytes(img, c) && Fits(q)
    ensures Reconstructs(img, c.(params := q), z)
  {
  }

  method DemoteAt(ghost srcImg: seq<Byte>, srcs: array<Chunk>, ghost tgtImg: seq<Byte>, tgts: array<Chunk>,
      ghost n: nat, i: nat, ghost z: Codecs)
    requires srcs != tgts && i < n <= srcs.Length && n <= tgts.Length &&
             Parallel(srcImg, srcs[..n], tgtImg, tgts[..n], z)
    modifies srcs, tgts
    ensures Parallel(srcImg, srcs[..n], tgtImg, tgts[..n], z) && tgts[i] == ToNormal(old(tgts[i]))
    ensures Reconstructs(tgtImg, tgts[i], z) && srcs[i] == ToNormal(old(srcs[i]))
    ensures forall k :: 0 <= k < tgts.Length && k != i ==> tgts[k] == old(tgts[k])
    ensures forall k :: 0 <= k < srcs.Length && k != i ==> srcs[k] == old(srcs[k])
  {
    Demoted(srcImg, srcs[..n], tgtImg, tgts[..n], z, i);
    hide Parallel;
    tgts[i] := ToNormal(tgts[i]);
    srcs[i] := ToNormal(srcs[i]);
  }

  /**
   After merging both, parallel lists are still parallel: the "went awry" exit cannot be taken (imgdiff.c:900-906).
   */
  lemma MergedParallel(srcImg: seq<Byte>, srcs: seq<Chunk>, tgtImg: seq<Byte>, tgts: seq<Chunk>, z: Codecs)
    requires Parallel(srcImg, srcs, tgtImg, tgts, z)
    ensures Parallel(srcImg, Merged(srcs), tgtImg, Merged(tgts), z) && |Merged(srcs)| == |Merged(tgts)|
  {
    MergedTiles(srcImg, srcs, |srcImg|, z);
    MergedTiles(tgtImg, tgts, |tgtImg|, z);
    MergedKinds(srcImg, srcs, |srcImg|, z);
    MergedKinds(tgtImg, tgts, |tgtImg|, z);
    assert |Kinds(Merged(srcs))| == |Kinds(Merged(tgts))|;
  }

  lemma MergedReconstructs(img: seq<Byte>, cs: seq<Chunk>, z: Codecs)
    requires forall k :: 0 <= k < |cs| ==> Reconstructs(img, cs[k], z)
    ensures forall k :: 0 <= k < |Merged(cs)| ==> Reconstructs(img, Merged(cs)[k], z)
  {
    MergedDeflates(cs);
  }

  // ---------------------------------------------------------------- patches

  /** What bsdiff is run on: the image's own bytes, or the uncompressed data. */
  function Data(img: seq<Byte>, c: Chunk): (d: seq<Byte>)
    requires c.Normal? ==> c.at + c.len <= |img|
  {
    if c.Normal? then img[c.at..c.at + c.len] else c.data
  }

  /** MakePatch (imgdiff.c:599-661): small or badly compressible normal chunks are stored as they are. */
  method MakePatch(srcImg: seq<Byte>, src: Chunk, tgtImg: seq<Byte>, tgt: Chunk, compress: BsDiff.Compress, z: Codecs)
    returns (r: Record)
    requires ChunkOk(srcImg, src, z) && ChunkOk(tgtImg, tgt, z) && src.Normal? == tgt.Normal? &&
             Reconstructs(tgtImg, tgt, z)
    requires |srcImg| < TWO63 && |tgtImg| < TWO63 && BsDiff.Inverse2(compress, z.expand)
    ensures |Body(r)| < TWO63 && |tgtImg| < TWO31 ==> Good(srcImg, r, ChunkBytes(tgtImg, tgt), z)
    ensures RecordOf(r, src) && Chosen(r, srcImg, src, tgtImg, tgt, compress)
  {
    hide BsDiff.Inverse2;
    if tgt.Normal? && tgt.len <= 160 {
      return RawRec(Data(tgtImg, tgt));
    }
    var I, patch := BsDiff.BsDiff(Data(srcImg, src), [], Data(tgtImg, tgt), compress, z.expand);
    if tgt.Normal? && tgt.len <= |patch| {
      return RawRec(Data(tgtImg, tgt));
    }
    assert |patch| < TWO63 ==> Rebuilds(Data(srcImg, src), patch, Data(tgtImg, tgt), z.expand);
    hide *;
    if tgt.Normal? {
      r := NormalRec(src.start, src.len, patch);
    } else {
      r := DeflateRec(src.start, src.deflateLen, |src.data|, |tgt.data|, tgt.params, patch);
    }
    BodyOf(r);
    RecordIs(r, src, tgt);
    if |patch| < TWO63 { PatchGood(srcImg, src, tgtImg, tgt, r, z); }
  }

  /**
   The kind of record: a deflate chunk gets a patch of its data; so does a normal one of more than 160 bytes whose patch
   is shorter than it; any other normal chunk is stored.
   */
  ghost predicate Chosen(r: Record, srcImg: seq<Byte>, src: Chunk, tgtImg: seq<Byte>, tgt: Chunk,
      compress: BsDiff.Compress)
  {
    && (src.Normal? ==> src.at + src.len <= |srcImg|) && (tgt.Normal? ==> tgt.at + tgt.len <= |tgtImg|)
    && var s, t := Data(srcImg, src), Data(tgtImg, tgt);
       match r
       case DeflateRec(_, _, expanded, target, q, patch) =>
         tgt.Deflate? && expanded == |s| && target == |t| && q == tgt.params && BsDiff.IsPatch(s, t, patch, compress)
       case NormalRec(_, _, patch) =>
         tgt.Normal? && 160 < tgt.len && |patch| < tgt.len && BsDiff.IsPatch(s, t, patch, compress)
       case RawRec(data) =>
         && tgt.Normal? && data == t
         && (tgt.len <= 160 || exists patch :: |patch| >= tgt.len && BsDiff.IsPatch(s, t, patch, compress))
  }

  ghost predicate AllChosen(rs: seq<Record>, srcImg: seq<Byte>, srcs: seq<Chunk>, tgtImg: seq<Byte>, tgts: seq<Chunk>,
      compress: BsDiff.Compress)
  {
    |rs| == |srcs| == |tgts| && forall k :: 0 <= k < |rs| ==> Chosen(rs[k], srcImg, srcs[k], tgtImg, tgts[k], compress)
  }

  /** The record stores the target's bytes, or takes those of this source chunk. */
  ghost predicate RecordOf(r: Record, src: Chunk)
  {
    r.RawRec? || (r.start == src.start && Reach(r) == End(src))
  }

  lemma RecordIs(r: Record, src: Chunk, tgt: Chunk)
    requires src.Normal? == tgt.Normal? && !r.RawRec?
    requires r == if tgt.Normal? then NormalRec(src.start, src.len, r.patch)
                  else DeflateRec(src.start, src.deflateLen, |src.data|, |tgt.data|, tgt.params, r.patch)
    ensures RecordOf(r, src)
  {
  }

  lemma BodyOf(r: Record)
    requires !r.RawRec?
    ensures Body(r) == r.patch
  {
  }

  /** The record of a chunk whose patch rebuilds its data. */
  lemma PatchGood(srcImg: seq<Byte>, src: Chunk, tgtImg: seq<Byte>, tgt: Chunk, r: Record, z: Codecs)
    requires ChunkOk(srcImg, src, z) && ChunkOk(tgtImg, tgt, z) && src.Normal? == tgt.Normal? &&
             Reconstructs(tgtImg, tgt, z)
    requires |srcImg| < TWO63 && |tgtImg| < TWO63 && !r.RawRec? &&
             Rebuilds(Data(srcImg, src), r.patch, Data(tgtImg, tgt), z.expand)
    requires r == if tgt.Normal? then NormalRec(src.start, src.len, r.patch)
                  else DeflateRec(src.start, src.deflateLen, |src.data|, |tgt.data|, tgt.params, r.patch)
    ensures Good(srcImg, r, ChunkBytes(tgtImg, tgt), z)
  {
    hide Rebuilds;
  }

  lemma {:induction false} BodyWithin(rs: seq<Record>, i: nat)
    requires i < |rs|
    ensures |Body(rs[i])| <= |Bodies(rs)|
  {
    if i > 0 { BodyWithin(rs[1..], i - 1); }
  }

  /** The patch loop (imgdiff.c:915-930). */
  method MakePatches(srcImg: seq<Byte>, srcs: seq<Chunk>, tgtImg: seq<Byte>, tgts: seq<Chunk>,
      compress: BsDiff.Compress, z: Codecs)
    returns (rs: seq<Record>)
    requires Parallel(srcImg, srcs, tgtImg, tgts, z) && |srcs| == |tgts| &&
             forall k :: 0 <= k < |tgts| ==> Reconstructs(tgtImg, tgts[k], z)
    requires |srcImg| < TWO63 && |tgtImg| < TWO63 && BsDiff.Inverse2(compress, z.expand)
    requires Tiles(tgtImg, tgts, |tgtImg|, z)
    ensures |rs| == |tgts| && forall k :: 0 <= k < |rs| ==> RecordOf(rs[k], srcs[k])
    ensures AllChosen(rs, srcImg, srcs, tgtImg, tgts, compress)
    ensures forall k :: 0 <= k < |rs| && |Body(rs[k])| < TWO63 && |tgtImg| < TWO31 ==>
              Good(srcImg, rs[k], Pieces(tgtImg, tgts, |tgtImg|, z)[k], z)
  {
    hide Parallel, ChunkOk, Reconstructs, BsDiff.Inverse2, Good, Body, Tiles, Pieces, RecordOf, Chosen;
    rs := [];
    var i := 0;
    while i < |tgts|
      invariant 0 <= i <= |tgts| && |rs| == i && forall k :: 0 <= k < i ==> RecordOf(rs[k], srcs[k])
      invariant forall k :: 0 <= k < i ==> Chosen(rs[k], srcImg, srcs[k], tgtImg, tgts[k], compress)
      invariant forall k :: 0 <= k < i && |Body(rs[k])| < TWO63 && |tgtImg| < TWO31 ==>
                  Good(srcImg, rs[k], Pieces(tgtImg, tgts, |tgtImg|, z)[k], z)
    {
      ParallelAt(srcImg, srcs, tgtImg, tgts, z, i);
      TilesAt(tgtImg, tgts, |tgtImg|, z, i);
      var r := MakePatch(srcImg, srcs[i], tgtImg, tgts[i], compress, z);
      rs := rs + [r];
      i := i + 1;
    }
  }

  /** The bytes of a patch rebuild the target image: every chunk is emitted, and the applier finishes. */
  ghost predicate RebuildsImage(srcImg: seq<Byte>, patch: seq<Byte>, tgtImg: seq<Byte>, z: Codecs)
  {
    var run := ImageRun(srcImg, patch, z);
    run.status == Complete && Concat(run.segs) == tgtImg
  }

  /** In a patch file that is not too long every record is good, and what they make is the target. */
  lemma AllRecordsGood(srcImg: seq<Byte>, tgtImg: seq<Byte>, tgts: seq<Chunk>, rs: seq<Record>, z: Codecs)
    requires Tiles(tgtImg, tgts, |tgtImg|, z) && |rs| == |tgts| && |Layout(rs)| < TWO63
    requires forall k :: 0 <= k < |rs| && |Body(rs[k])| < TWO63 ==>
              Good(srcImg, rs[k], Pieces(tgtImg, tgts, |tgtImg|, z)[k], z)
    ensures AllGood(srcImg, rs, Pieces(tgtImg, tgts, |tgtImg|, z), z) &&
            Join(Pieces(tgtImg, tgts, |tgtImg|, z)) == tgtImg
  {
    hide Good, Body, Heads;
    forall k | 0 <= k < |rs|
      ensures Good(srcImg, rs[k], Pieces(tgtImg, tgts, |tgtImg|, z)[k], z)
    {
      BodyWithin(rs, k);
    }
    PiecesJoin(tgtImg, tgts, |tgtImg|, z);
    assert tgtImg[..|tgtImg|] == tgtImg;
  }

  /** The patch rebuilds the target from a front of the source exactly if no record reaches past that front. */
  lemma RebuildsFromFront(src: seq<Byte>, srcImg: seq<Byte>, rs: seq<Record>, outs: seq<seq<Byte>>, tgtImg: seq<Byte>,
      z: Codecs)
    requires AllGood(srcImg, rs, outs, z) && Join(outs) == tgtImg && src <= srcImg && |rs| < TWO31 &&
             |Layout(rs)| < TWO63
    ensures RebuildsImage(src, Layout(rs), tgtImg, z) <==> Within(rs, |src|)
    ensures RebuildsImage(srcImg, Layout(rs), tgtImg, z)
    ensures forall t :: RebuildsImage(src, Layout(rs), t, z) ==> t == tgtImg
  {
    hide Good, AllGood, Layout, ImageRun, Concat, Within, Join;
    LayoutOnFront(src, srcImg, rs, outs, z);
    LayoutOnFront(srcImg, srcImg, rs, outs, z);
    GoodWithin(srcImg, rs, outs, z);
  }

  /** Compares the kinds of two chunk lists (imgdiff.c:826-844). */
  method SameStructure(srcs: array<Chunk>, ns: nat, tgts: array<Chunk>, nt: nat) returns (same: bool)
    requires ns <= srcs.Length && nt <= tgts.Length
    ensures same <==> Kinds(srcs[..ns]) == Kinds(tgts[..nt])
  {
    if ns != nt {
      assert |Kinds(srcs[..ns])| != |Kinds(tgts[..nt])|;
      return false;
    }
    var i := 0;
    while i < ns
      invariant 0 <= i <= ns
      invariant forall k :: 0 <= k < i ==> srcs[k].Normal? == tgts[k].Normal?
    {
      if srcs[i].Normal? != tgts[i].Normal? {
        assert Kinds(srcs[..ns])[i] != Kinds(tgts[..nt])[i];
        return false;
      }
      i := i + 1;
    }
    return true;
  }

  /** What is known of the records of a patch: which source chunks they go with, and what they make. */
  ghost predicate Accounted(srcImg: seq<Byte>, tgtImg: seq<Byte>, rs: seq<Record>, S: seq<Chunk>, outs: seq<seq<Byte>>,
      z: Codecs)
  {
    && Tiles(srcImg, S, |srcImg|, z) && |S| == |rs| && (forall k :: 0 <= k < |rs| ==> RecordOf(rs[k], S[k]))
    && (|Layout(rs)| < TWO63 && |tgtImg| < TWO31 ==> AllGood(srcImg, rs, outs, z) && Join(outs) == tgtImg)
  }

  /**
   imgdiff in image mode (imgdiff.c:816-1010).  Given chunk lists that tile source and target, a patch is
   written exactly when the merged lists have the same kinds, and the patch rebuilds the target image from
   the source image byte for byte.
   */
  method ImgDiff(srcImg: seq<Byte>, srcs: array<Chunk>, tgtImg: seq<Byte>, tgts: array<Chunk>,
      compress: BsDiff.Compress, z: Codecs)
    returns (r: Option<seq<Byte>>, ghost rs: seq<Record>, ghost S: seq<Chunk>, ghost outs: seq<seq<Byte>>)
    requires srcs != tgts && Tiles(srcImg, srcs[..], |srcImg|, z) && Tiles(tgtImg, tgts[..], |tgtImg|, z)
    requires |srcImg| < TWO63 && |tgtImg| < TWO63 && BsDiff.Inverse2(compress, z.expand)
    modifies srcs, tgts
    ensures r.Some? <==> old(Kinds(Merged(srcs[..]))) == old(Kinds(Merged(tgts[..])))
    ensures r.Some? ==> r.value == Layout(rs) && |rs| <= tgts.Length && Accounted(srcImg, tgtImg, rs, S, outs, z)
    ensures r.Some? ==> forall m :: old(StartsBy(srcs[..], m)) ==> StartsBy(S, m)
    ensures r.Some? ==> Composed(srcImg, old(srcs[..]), tgtImg, old(tgts[..]), rs, compress, z)
    ensures r.Some? && |r.value| < TWO63 && |tgtImg| < TWO31 && tgts.Length < TWO31 ==>
              RebuildsImage(srcImg, r.value, tgtImg, z)
  {
    hide *;
    rs, S, outs := [], [], [];
    MergedTiles(srcImg, srcs[..], |srcImg|, z);
    MergedTiles(tgtImg, tgts[..], |tgtImg|, z);
    assert srcs[..srcs.Length] == srcs[..] && tgts[..tgts.Length] == tgts[..];
    var nt := MergeAdjacentNormalChunks(tgts, tgts.Length);
    assert srcs[..] == old(srcs[..]);
    var ns := MergeAdjacentNormalChunks(srcs, srcs.Length);
    var same := SameStructure(srcs, ns, tgts, nt);
    if !same { return None, rs, S, outs; }
    IsParallel(srcImg, srcs[..ns], tgtImg, tgts[..nt], z);
    ghost var S1 := srcs[..ns];
    ghost var T;
    nt, ns, S, T := DemoteAndMerge(srcImg, srcs, tgtImg, tgts, nt, z);
    StartsThrough(old(srcs[..]), S1, S);
    ParallelTiles(srcImg, S, tgtImg, T, z);
    var records := MakePatches(srcImg, srcs[..ns], tgtImg, tgts[..nt], compress, z);
    var f := WriteImgDiff(records);
    rs, outs := records, Pieces(tgtImg, T, |tgtImg|, z);
    Account(srcImg, tgtImg, rs, S, T, z);
    ComposedIs(srcImg, old(srcs[..]), S, tgtImg, old(tgts[..]), T, rs, compress, z);
    if |f| < TWO63 && |tgtImg| < TWO31 && |rs| < TWO31 {
      AccountedGood(srcImg, tgtImg, rs, S, outs, z);
      RebuildsFromFront(srcImg, srcImg, rs, outs, tgtImg, z);
    }
    return Some(f), rs, S, outs;
  }

  /** S and T come from the lists by demoting pairs and merging. */
  ghost predicate Processed(srcImg: seq<Byte>, srcs: seq<Chunk>, S: seq<Chunk>, tgtImg: seq<Byte>, tgts: seq<Chunk>,
      T: seq<Chunk>, z: Codecs)
  {
    exists s, t :: S == Merged(s) && T == Merged(t) && AllDemote(srcImg, srcs, s, tgtImg, tgts, t, z)
  }

  ghost predicate AllDemote(srcImg: seq<Byte>, srcs: seq<Chunk>, s: seq<Chunk>, tgtImg: seq<Byte>, tgts: seq<Chunk>,
      t: seq<Chunk>, z: Codecs)
  {
    && |s| == |srcs| == |tgts| == |t|
    && forall k :: 0 <= k < |s| ==> Demotes(srcImg, srcs[k], s[k], tgtImg, tgts[k], t[k], z)
  }

  lemma ProcessedIs(srcImg: seq<Byte>, srcs: seq<Chunk>, s: seq<Chunk>, tgtImg: seq<Byte>, tgts: seq<Chunk>,
      t: seq<Chunk>, z: Codecs)
    requires |s| == |srcs| == |tgts| == |t|
    requires forall k :: 0 <= k < |s| ==> Demotes(srcImg, srcs[k], s[k], tgtImg, tgts[k], t[k], z)
    ensures Processed(srcImg, srcs, Merged(s), tgtImg, tgts, Merged(t), z)
  {
    hide Merged, Demotes;
    assert AllDemote(srcImg, srcs, s, tgtImg, tgts, t, z);
  }

  /** The records are the ones chosen for the pairs of chunks left after merging, demoting and merging again. */
  ghost predicate Composed(srcImg: seq<Byte>, srcs: seq<Chunk>, tgtImg: seq<Byte>, tgts: seq<Chunk>, rs: seq<Record>,
      compress: BsDiff.Compress, z: Codecs)
  {
    exists S, T ::
      && Processed(srcImg, Merged(srcs), S, tgtImg, Merged(tgts), T, z)
      && AllChosen(rs, srcImg, S, tgtImg, T, compress)
  }

  lemma ComposedIs(srcImg: seq<Byte>, srcs: seq<Chunk>, S: seq<Chunk>, tgtImg: seq<Byte>, tgts: seq<Chunk>,
      T: seq<Chunk>, rs: seq<Record>, compress: BsDiff.Compress, z: Codecs)
    requires Processed(srcImg, Merged(srcs), S, tgtImg, Merged(tgts), T, z)
    requires AllChosen(rs, srcImg, S, tgtImg, T, compress)
    ensures Composed(srcImg, srcs, tgtImg, tgts, rs, compress, z)
  {
    hide Merged, Processed, AllChosen;
  }

  /** The demotion loop and the second merging (imgdiff.c:847-907); the lists cannot get out of step. */
  method DemoteAndMerge(srcImg: seq<Byte>, srcs: array<Chunk>, tgtImg: seq<Byte>, tgts: array<Chunk>, n: nat, z: Codecs)
    returns (nt: nat, ns: nat, ghost S: seq<Chunk>, ghost T: seq<Chunk>)
    requires srcs != tgts && n <= srcs.Length && n <= tgts.Length && Parallel(srcImg, srcs[..n], tgtImg, tgts[..n], z)
    modifies srcs, tgts
    ensures nt == ns <= n && srcs[..ns] == S && tgts[..nt] == T && Parallel(srcImg, S, tgtImg, T, z)
    ensures forall k :: 0 <= k < |T| ==> Reconstructs(tgtImg, T[k], z)
    ensures forall m :: old(StartsBy(srcs[..n], m)) ==> StartsBy(S, m)
    ensures Processed(srcImg, old(srcs[..n]), S, tgtImg, old(tgts[..n]), T, z)
  {
    hide *;
    Demote(srcImg, srcs, tgtImg, tgts, n, z);
    ProcessedIs(srcImg, old(srcs[..n]), srcs[..n], tgtImg, old(tgts[..n]), tgts[..n], z);
    MergedParallel(srcImg, srcs[..n], tgtImg, tgts[..n], z);
    MergedReconstructs(tgtImg, tgts[..n], z);
    StartsKept(old(srcs[..n]), srcs[..n]);
    S, T := Merged(srcs[..n]), Merged(tgts[..n]);
    nt := MergeAdjacentNormalChunks(tgts, n);
    ns := MergeAdjacentNormalChunks(srcs, n);
    assert srcs[..ns] == S && tgts[..nt] == T;
    if ns != nt {
      assert false;
      return;
    }
  }

  /** Demoting keeps where chunks start, and merging starts no chunk elsewhere. */
  lemma StartsKept(before: seq<Chunk>, after: seq<Chunk>)
    requires |after| == |before| && forall k :: 0 <= k < |after| ==> after[k].start == before[k].start
    ensures forall m :: StartsBy(before, m) ==> StartsBy(Merged(after), m)
  {
    forall m | StartsBy(before, m)
      ensures StartsBy(Merged(after), m)
    {
      MergedStartsBy(after, m);
    }
  }

  lemma StartsThrough(first: seq<Chunk>, second: seq<Chunk>, third: seq<Chunk>)
    requires second == Merged(first) && forall m :: StartsBy(second, m) ==> StartsBy(third, m)
    ensures forall m :: StartsBy(first, m) ==> StartsBy(third, m)
  {
    forall m | StartsBy(first, m)
      ensures StartsBy(third, m)
    {
      MergedStartsBy(first, m);
    }
  }

  lemma Account(srcImg: seq<Byte>, tgtImg: seq<Byte>, rs: seq<Record>, S: seq<Chunk>, T: seq<Chunk>, z: Codecs)
    requires Tiles(srcImg, S, |srcImg|, z) && Tiles(tgtImg, T, |tgtImg|, z) && |rs| == |T| == |S|
    requires forall k :: 0 <= k < |rs| ==> RecordOf(rs[k], S[k])
    requires forall k :: 0 <= k < |rs| && |Body(rs[k])| < TWO63 && |tgtImg| < TWO31 ==>
               Good(srcImg, rs[k], Pieces(tgtImg, T, |tgtImg|, z)[k], z)
    ensures Accounted(srcImg, tgtImg, rs, S, Pieces(tgtImg, T, |tgtImg|, z), z)
  {
    hide Tiles, RecordOf, Body, Good, Pieces, Layout, AllGood, Join;
    if |Layout(rs)| < TWO63 && |tgtImg| < TWO31 { AllRecordsGood(srcImg, tgtImg, T, rs, z); }
  }

  lemma AccountedGood(srcImg: seq<Byte>, tgtImg: seq<Byte>, rs: seq<Record>, S: seq<Chunk>, outs: seq<seq<Byte>>,
      z: Codecs)
    requires Accounted(srcImg, tgtImg, rs, S, outs, z) && |Layout(rs)| < TWO63 && |tgtImg| < TWO31
    ensures AllGood(srcImg, rs, outs, z) && Join(outs) == tgtImg
  {
  }

  lemma IsParallel(srcImg: seq<Byte>, srcs: seq<Chunk>, tgtImg: seq<Byte>, tgts: seq<Chunk>, z: Codecs)
    requires Tiles(srcImg, srcs, |srcImg|, z) && Tiles(tgtImg, tgts, |tgtImg|, z) && Kinds(srcs) == Kinds(tgts)
    ensures Parallel(srcImg, srcs, tgtImg, tgts, z) && |srcs| == |tgts|
  {
    assert |Kinds(srcs)| == |Kinds(tgts)|;
  }

  lemma ParallelTiles(srcImg: seq<Byte>, srcs: seq<Chunk>, tgtImg: seq<Byte>, tgts: seq<Chunk>, z: Codecs)
    requires Parallel(srcImg, srcs, tgtImg, tgts, z)
    ensures Tiles(srcImg, srcs, |srcImg|, z) && Tiles(tgtImg, tgts, |tgtImg|, z) && |srcs| == |tgts|
  {
    assert |Kinds(srcs)| == |Kinds(tgts)|;
  }
}
