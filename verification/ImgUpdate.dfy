/** Image mode from end to end: two images are read, diffed, and the patch applied to the first gives the second. */
module ImgUpdate {
  import opened Bytes
  import opened Codec
  import opened Wrappers
  import opened ImgPatch
  import opened ImgChunks
  import opened ImgRead
  import opened ImgFormat
  import opened ImgFront
  import BsDiff
  import ImgDiff

  method ToArray(cs: seq<Chunk>) returns (a: array<Chunk>)
    ensures fresh(a) && a[..] == cs
  {
    a := new Chunk[|cs|](i requires 0 <= i < |cs| => cs[i]);
  }

  /** What ReadImage takes an image for: the image itself, or with some of the padding if a footer runs over its end. */
  ghost function Taken(img: seq<Byte>, z: Codecs): (t: seq<Byte>)
    ensures img <= t && |t| <= |img| + 4 && (t == img <==> EndingFrom(img, 0, z) != Overrun)
  {
    var t := View(img, EndFrom(img, 0, z));
    assert img <= Padded(img);
    t
  }

  /** Both images are read, and what is read has the same sequence of deflate and other stretches. */
  ghost predicate SameShape(srcImg: seq<Byte>, tgtImg: seq<Byte>, z: Codecs)
  {
    Read(srcImg, z) && Read(tgtImg, z) &&
        Kinds(Merged(ChunksFrom(srcImg, 0, z))) == Kinds(Merged(ChunksFrom(tgtImg, 0, z)))
  }

  /** The last record stores its bytes instead of taking them from the source. */
  ghost predicate EndsRaw(rs: seq<Record>)
  {
    rs == [] || rs[|rs| - 1].RawRec?
  }

  /** Lengths that the fields of a patch can hold. */
  ghost predicate Storable(patch: seq<Byte>, tgt: seq<Byte>)
  {
    |patch| < TWO63 && |tgt| < TWO31
  }

  /**
   main in image mode (imgdiff.c:816-1010) reads both images, and writes a patch exactly if their structures agree.  The
   patch makes what the target was taken for out of what the source was taken for.  Applied to the source itself it
   still does so exactly if the source was read to its own end or the last record is raw; so what it makes is the target
   exactly if, besides, the target was read to its own end.
   */
  method DiffImages(srcImg: seq<Byte>, tgtImg: seq<Byte>, compress: BsDiff.Compress, z: Codecs)
    returns (r: Option<seq<Byte>>, ghost rs: seq<Record>)
    requires Streaming(z) && BsDiff.Inverse2(compress, z.expand) && |srcImg| + 4 < TWO63 && |tgtImg| + 4 < TWO63
    ensures r.Some? <==> SameShape(srcImg, tgtImg, z)
    ensures r.Some? ==> r.value == Layout(rs)
    ensures r.Some? && Storable(r.value, Taken(tgtImg, z)) ==>
              Outcomes(srcImg, tgtImg, Taken(srcImg, z), Taken(tgtImg, z), rs, z)
  {
    hide EndingFrom, EndFrom, ChunksFrom, Kinds, Merged, Streaming, BsDiff.Inverse2, Tiles, ImgDiff.RebuildsImage,
        StartsBy, ImgDiff.Accounted, Layout;
    rs := [];
    var s := ReadImage(srcImg, z);
    if !s.Chunked? { return None, rs; }
    var t := ReadImage(tgtImg, z);
    if !t.Chunked? { return None, rs; }
    var srcs := ToArray(s.chunks);
    var tgts := ToArray(t.chunks);
    ghost var S, outs;
    r, rs, S, outs := ImgDiff.ImgDiff(View(srcImg, s.end), srcs, View(tgtImg, t.end), tgts, compress, z);
    if r.Some? && Storable(r.value, Taken(tgtImg, z)) {
      Settled(srcImg, tgtImg, Taken(srcImg, z), Taken(tgtImg, z), rs, S, outs, z);
    }
  }

  /** What the patch of the records rs does, made for images taken for S and T. */
  ghost predicate Outcomes(srcImg: seq<Byte>, tgtImg: seq<Byte>, S: seq<Byte>, T: seq<Byte>, rs: seq<Record>, z: Codecs)
  {
    && ImgDiff.RebuildsImage(S, Layout(rs), T, z)
    && (ImgDiff.RebuildsImage(srcImg, Layout(rs), T, z) <==> srcImg == S || EndsRaw(rs))
    && (ImgDiff.RebuildsImage(srcImg, Layout(rs), tgtImg, z) <==> tgtImg == T && (srcImg == S || EndsRaw(rs)))
  }

  lemma Settled(srcImg: seq<Byte>, tgtImg: seq<Byte>, S: seq<Byte>, T: seq<Byte>, rs: seq<Record>, cs: seq<Chunk>,
      outs: seq<seq<Byte>>, z: Codecs)
    requires ImgDiff.Accounted(S, T, rs, cs, outs, z) && StartsBy(cs, |srcImg|) && Storable(Layout(rs), T) &&
             |rs| < TWO31
    requires srcImg <= S
    ensures Outcomes(srcImg, tgtImg, S, T, rs, z)
  {
    hide ImgDiff.RebuildsImage, Layout;
    ImgDiff.AccountedGood(S, T, rs, cs, outs, z);
    ImgDiff.RebuildsFromFront(srcImg, S, rs, outs, T, z);
    if srcImg != S {
      OnlyLastReaches(srcImg, S, T, rs, cs, outs, z);
    } else {
      GoodWithin(S, rs, outs, z);
    }
  }

  /**
   If the source was read past its end, the last record is the only one that can reach past it, and does unless it is
   raw.
   */
  lemma OnlyLastReaches(srcImg: seq<Byte>, S: seq<Byte>, T: seq<Byte>, rs: seq<Record>, cs: seq<Chunk>,
      outs: seq<seq<Byte>>, z: Codecs)
    requires ImgDiff.Accounted(S, T, rs, cs, outs, z) && StartsBy(cs, |srcImg|) && |srcImg| < |S|
    ensures Within(rs, |srcImg|) <==> EndsRaw(rs)
  {
    hide Layout, AllGood, Join;
    var last := |rs| - 1;
    assert cs != [];
    hide Tiles;
    forall k | 0 <= k < |rs|
      ensures Reach(rs[k]) <= |srcImg| <==> k < last || rs[k].RawRec?
    {
      TilesMeet(S, cs, |S|, z, k);
      assert ImgDiff.RecordOf(rs[k], cs[k]);
    }
  }

  /**
   Two images have a patch exactly if they have the same shape; and if no footer runs over the end of either, applying
   it to the first yields the second, byte for byte, and the applier finishes.
   */
  method DiffThenPatch(srcImg: seq<Byte>, tgtImg: seq<Byte>, compress: BsDiff.Compress, z: Codecs)
    returns (patch: Option<seq<Byte>>, segs: seq<Seg>, status: Status, ghost rs: seq<Record>)
    requires Streaming(z) && BsDiff.Inverse2(compress, z.expand) && |srcImg| + 4 < TWO63 && |tgtImg| + 4 < TWO63
    ensures patch.Some? <==> SameShape(srcImg, tgtImg, z)
    ensures patch.Some? ==> patch.value == Layout(rs)
    ensures patch.Some? && Storable(patch.value, Taken(tgtImg, z)) ==>
              (status == Complete && Concat(segs) == tgtImg <==>
                 EndingFrom(tgtImg, 0, z) == Covered && (EndingFrom(srcImg, 0, z) == Covered || EndsRaw(rs)))
  {
    hide EndingFrom, ChunksFrom, Kinds, Merged, Streaming, BsDiff.Inverse2, Layout, Concat;
    patch, rs := DiffImages(srcImg, tgtImg, compress, z);
    segs, status := [], Failed;
    if patch.Some? {
      segs, status := ApplyImagePatch(srcImg, patch.value, z);
    }
  }

  /** A target that is one gzip section without the zero its footer ends in is patched to one byte more than it has. */
  lemma LostZeroComesBack(img: seq<Byte>, z: Codecs)
    requires |img| > 0 && Magic(img, 0) && img[|img| - 1] == 0 && SectionAt(img, 0, z).Good?
    requires SectionEnd(0, SectionAt(img, 0, z).n) == |img|
    requires z.inflate(img[GZIP_HEADER_LEN..|img| - 1]) == z.inflate(img[GZIP_HEADER_LEN..])
    ensures Taken(img[..|img| - 1], z) == img
  {
    LostZero(img, z);
  }
}
