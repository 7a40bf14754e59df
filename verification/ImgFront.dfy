/**
 Applying a patch to less than the source it was made for: what reading an image past its end comes to
 (imgdiff.c:477 with imgpatch.c:68-81 and 103-130).
 */
module ImgFront {
  import opened Bytes
  import opened Codec
  import opened ImgPatch
  import opened ImgFormat
  import BsPatch

  /** How far into the source a record reaches. */
  function Reach(r: Record): (n: nat)
  {
    if r.RawRec? then 0 else r.start + r.len
  }

  /** No record reaches past n. */
  ghost predicate Within(rs: seq<Record>, n: nat)
  {
    forall i :: 0 <= i < |rs| ==> Reach(rs[i]) <= n
  }

  ghost predicate AllGood(src: seq<Byte>, rs: seq<Record>, outs: seq<seq<Byte>>, z: Codecs)
  {
    |rs| == |outs| && forall i :: 0 <= i < |rs| ==> Good(src, rs[i], outs[i], z)
  }

  /** A record that stays within a front of the source does there what it does on the whole. */
  lemma GoodOnFront(src: seq<Byte>, whole: seq<Byte>, r: Record, out: seq<Byte>, z: Codecs)
    requires Good(whole, r, out, z) && src <= whole && Reach(r) <= |src|
    ensures Good(src, r, out, z)
  {
    hide Rebuilds, Fits;
    if !r.RawRec? { assert src[r.start..r.start + r.len] == whole[r.start..r.start + r.len]; }
  }

  /** A record that reaches further sends the applier out of the source's buffer. */
  lemma StopsPast(src: seq<Byte>, whole: seq<Byte>, pre: seq<Byte>, r: Record, off: int, rest: seq<Byte>,
      out: seq<Byte>, z: Codecs)
    requires Good(whole, r, out, z) && Reach(r) > |src| && 0 <= off < TWO63
    ensures OneChunk(src, pre + Head(r, off) + rest, |pre|, z) == Stop(Undefined)
  {
    var h := Head(r, off);
    var file := pre + h + rest;
    if r.NormalRec? {
      NormalHead(r, off);
      hide Head, Field4, Field8, OneChunk, Rebuilds, BsPatch.ApplyPatch;
      Part4(pre, h, rest, 0, CHUNK_NORMAL);
      Part8(pre, h, rest, 4, r.start);
      Part8(pre, h, rest, 12, r.len);
      assert |file| >= |pre| + 28;
      IsNormal(src, file, |pre|, z);
    } else {
      hide Head, Field4, Field8, OneChunk, Rebuilds, BsPatch.ApplyPatch;
      DeflateFields(pre, r, off, rest);
      IsDeflate(src, file, |pre|, z);
    }
  }

  /** So as soon as one of the records reaches past the source, the run ends there. */
  lemma {:induction false} RecordsStop(src: seq<Byte>, whole: seq<Byte>, pre: seq<Byte>, rs: seq<Record>,
      mid: seq<Byte>, outs: seq<seq<Byte>>, z: Codecs)
    requires AllGood(whole, rs, outs, z) && src <= whole && !Within(rs, |src|)
    requires |pre| + HeadsSize(rs) + |mid| + |Bodies(rs)| < TWO63
    ensures var off := |pre| + HeadsSize(rs) + |mid|;
            Chunks(src, pre + Heads(rs, off) + mid + Bodies(rs), |pre|, |rs|, z).status == Undefined
    decreases |rs|
  {
    hide Good, Head, Body, OneChunk, Heads, Bodies, Reach;
    var r, rs' := rs[0], rs[1..];
    var off := |pre| + HeadsSize(rs) + |mid|;
    var file := pre + Heads(rs, off) + mid + Bodies(rs);
    var tail := Heads(rs', off + |Body(r)|) + mid + Bodies(rs);
    FirstRecord(pre, rs, mid, off);
    if Reach(r) > |src| {
      StopsPast(src, whole, pre, r, off, tail, outs[0], z);
    } else {
      GoodOnFront(src, whole, r, outs[0], z);
      RecordRead(src, pre, r, off, tail, outs[0], z);
      BodiesSplit(rs);
      assert !Within(rs', |src|) by {
        var i :| 0 <= i < |rs| && Reach(rs[i]) > |src|;
        assert rs'[i - 1] == rs[i];
      }
      RecordsStop(src, whole, pre + Head(r, off), rs', mid + Body(r), outs[1..], z);
    }
  }

  /**
   A patch made for whole, applied to a front of it: it does what it should exactly if no record reaches past that
   front.
   */
  lemma LayoutOnFront(src: seq<Byte>, whole: seq<Byte>, rs: seq<Record>, outs: seq<seq<Byte>>, z: Codecs)
    requires AllGood(whole, rs, outs, z) && src <= whole && |rs| < TWO31 && |Layout(rs)| < TWO63
    ensures Within(rs, |src|) ==>
              ImageRun(src, Layout(rs), z).status == Complete && Concat(ImageRun(src, Layout(rs), z).segs) == Join(outs)
    ensures !Within(rs, |src|) ==> ImageRun(src, Layout(rs), z).status == Undefined
  {
    hide Good, Heads, Bodies, Chunks, SegsOf, Concat, Join;
    if Within(rs, |src|) {
      forall i | 0 <= i < |rs|
        ensures Good(src, rs[i], outs[i], z)
      {
        GoodOnFront(src, whole, rs[i], outs[i], z);
      }
      LayoutRead(src, rs, outs, z);
    } else {
      var pre := MAGIC + Write4(|rs|);
      var off := 12 + HeadsSize(rs);
      var file := Layout(rs);
      assert file == pre + Heads(rs, off) + [] + Bodies(rs);
      RecordsStop(src, whole, pre, rs, [], outs, z);
      assert file[8..12] == Write4(|rs|) && file[..8] == MAGIC;
      Reads4(file, 8, |rs|);
    }
  }

  /** On the source it was made for no record reaches too far. */
  lemma GoodWithin(src: seq<Byte>, rs: seq<Record>, outs: seq<seq<Byte>>, z: Codecs)
    requires AllGood(src, rs, outs, z)
    ensures Within(rs, |src|)
  {
    forall i | 0 <= i < |rs|
      ensures Reach(rs[i]) <= |src|
    {
      assert Good(src, rs[i], outs[i], z);
    }
  }
}
