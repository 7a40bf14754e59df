/**
 Buffered reading and writing of flash partitions with bad blocks (mtdutils.c).

 A device is a list of blocks, some marked bad.  Positions are block numbers: every file position the code uses is
 a multiple of the erase size.  Blocks not marked bad erase, program and verify without error, and the ECC counters
 stay still.
 */
module Mtd {
  import opened Bytes
  import Power2

  type Block = seq<Byte>

  predicate AllZero(b: Block)
  {
    forall i :: 0 <= i < |b| ==> b[i] == 0
  }

  function Zeros(n: nat): (b: Block)
    ensures |b| == n
  {
    seq(n, _ => 0)
  }

  // ---------------------------------------------------------------- what the device holds, seen by a reader

  ghost predicate NoneZero(bs: seq<Block>)
  {
    forall i :: 0 <= i < |bs| ==> !AllZero(bs[i])
  }

  lemma NoneZeroLast(bs: seq<Block>, b: Block)
    ensures NoneZero(bs + [b]) ==> NoneZero(bs) && !AllZero(b)
  {
    hide AllZero;
    var cs := bs + [b];
    assert cs[|bs|] == b && forall i :: 0 <= i < |bs| ==> cs[i] == bs[i];
  }

  /** noted lists, in order, exactly the bad blocks from start up to at. */
  ghost predicate Noted(bad: seq<bool>, noted: seq<nat>, start: nat, at: nat)
  {
    && start <= at <= |bad|
    && (forall i :: 0 <= i < |noted| ==> start <= noted[i] < at && bad[noted[i]])
    && (forall k :: start <= k < at && bad[k] ==> k in noted)
    && (forall i, j :: 0 <= i < j < |noted| ==> noted[i] < noted[j])
  }

  /** The blocks a reader is given between block positions lo and hi. */
  ghost function Readable(blocks: seq<Block>, bad: seq<bool>, lo: nat, hi: nat): (bs: seq<Block>)
    requires |blocks| == |bad| && lo <= hi <= |blocks|
  {
    if lo == hi then []
    else
      var init := Readable(blocks, bad, lo, hi - 1);
      if bad[hi - 1] || AllZero(blocks[hi - 1]) then init else init + [blocks[hi - 1]]
  }

  /** How many blocks between lo and hi are not marked bad. */
  ghost function GoodBlocks(bad: seq<bool>, lo: nat, hi: nat): (n: nat)
    requires lo <= hi <= |bad|
  {
    if lo == hi then 0 else GoodBlocks(bad, lo, hi - 1) + if bad[hi - 1] then 0 else 1
  }

  lemma {:induction false} GoodSkips(bad: seq<bool>, lo: nat, at: nat, hi: nat)
    requires lo <= at <= hi <= |bad|
    ensures GoodBlocks(bad, lo, at) <= GoodBlocks(bad, lo, hi)
    ensures (forall k :: at <= k < hi ==> bad[k]) ==> GoodBlocks(bad, lo, hi) == GoodBlocks(bad, lo, at)
    decreases hi
  {
    if at < hi { GoodSkips(bad, lo, at, hi - 1); }
  }

  /** One block more than the good ones from start on can hold. */
  ghost function Limit(bad: seq<bool>, start: nat, e: nat): (n: nat)
    requires start <= |bad|
  {
    (GoodBlocks(bad, start, |bad|) + 1) * e
  }

  lemma {:induction false} ReadableSkips(blocks: seq<Block>, bad: seq<bool>, lo: nat, at: nat, hi: nat)
    requires |blocks| == |bad| && lo <= at <= hi <= |blocks|
    requires forall k :: at <= k < hi ==> bad[k] || AllZero(blocks[k])
    ensures Readable(blocks, bad, lo, hi) == Readable(blocks, bad, lo, at)
    decreases hi
  {
    if at < hi { ReadableSkips(blocks, bad, lo, at, hi - 1); }
  }

  lemma {:induction false} ReadableFrame(blocks: seq<Block>, blocks': seq<Block>, bad: seq<bool>, lo: nat, hi: nat)
    requires |blocks| == |bad| == |blocks'| && lo <= hi <= |blocks| &&
             forall k :: lo <= k < hi ==> blocks'[k] == blocks[k]
    ensures Readable(blocks', bad, lo, hi) == Readable(blocks, bad, lo, hi)
    decreases hi
  {
    if lo < hi { ReadableFrame(blocks, blocks', bad, lo, hi - 1); }
  }

  lemma {:induction false} ReadablePrefix(blocks: seq<Block>, bad: seq<bool>, lo: nat, mid: nat, hi: nat)
    requires |blocks| == |bad| && lo <= mid <= hi <= |blocks|
    ensures Readable(blocks, bad, lo, mid) <= Readable(blocks, bad, lo, hi)
    decreases hi
  {
    if mid < hi { ReadablePrefix(blocks, bad, lo, mid, hi - 1); }
  }

  lemma {:induction false} JoinAppend(bs: seq<Block>, cs: seq<Block>)
    ensures Join(bs + cs) == Join(bs) + Join(cs)
    decreases |cs|
  {
    assert Join([]) == [];
    hide Join;
    if cs == [] {
      assert bs + [] == bs;
    } else {
      var init, last := cs[..|cs| - 1], cs[|cs| - 1];
      JoinAppend(bs, init);
      JoinLast(bs + init, last);
      JoinLast(init, last);
      assert cs == init + [last];
      assert bs + cs == bs + init + [last];
    }
  }

  lemma {:induction false} JoinSize(bs: seq<Block>, e: nat)
    requires forall i :: 0 <= i < |bs| ==> |bs[i]| == e
    ensures |Join(bs)| == |bs| * e
  {
    if bs != [] {
      var init := bs[..|bs| - 1];
      JoinSize(init, e);
      assert |bs| * e == |init| * e + e;
    }
  }

  // ---------------------------------------------------------------- the device

  class Flash {
    const erase: nat
    const bad: seq<bool>
    var blocks: seq<Block>

    ghost predicate Valid()
      reads this
    {
      erase > 0 && |blocks| == |bad| && forall i :: 0 <= i < |blocks| ==> |blocks[i]| == erase
    }

    constructor (erase: nat, bad: seq<bool>, blocks: seq<Block>)
      requires erase > 0 && |blocks| == |bad| && forall i :: 0 <= i < |blocks| ==> |blocks[i]| == erase
      ensures Valid() && this.erase == erase && this.bad == bad && this.blocks == blocks
    {
      this.erase, this.bad, this.blocks := erase, bad, blocks;
    }
  }

  /** memcpy into a buffer. */
  method Blit(dst: array<Byte>, at: nat, src: seq<Byte>)
    requires at + |src| <= dst.Length
    modifies dst
    ensures dst[..] == old(dst[..at]) + src + old(dst[at + |src|..])
  {
    ghost var before := dst[..];
    var i := 0;
    while i < |src|
      invariant 0 <= i <= |src|
      invariant dst[..] == before[..at] + src[..i] + before[at + i..]
    {
      dst[at + i] := src[i];
      i := i + 1;
    }
  }

  // ---------------------------------------------------------------- writing

  class WriteContext {
    const flash: Flash
    const buffer: array<Byte>
    var at: nat
    var stored: nat
    var badOffsets: seq<nat>
    ghost var Start: nat
    ghost var Pieces: seq<Block>

    /** What the caller has written so far. */
    ghost function Stream(): (s: seq<Byte>)
      reads this, buffer
      requires stored <= buffer.Length
    {
      Join(Pieces) + buffer[..stored]
    }

    /** The good blocks since Start hold the pieces, and they read back, as long as none is all zero. */
    ghost predicate Valid()
      reads this, flash, buffer
    {
      && flash.Valid() && buffer.Length == flash.erase && stored < buffer.Length && Start <= at <= |flash.blocks|
      && (forall i :: 0 <= i < |Pieces| ==> |Pieces[i]| == flash.erase)
      && (NoneZero(Pieces) ==> Readable(flash.blocks, flash.bad, Start, at) == Pieces) &&
          |Pieces| == GoodBlocks(flash.bad, Start, at)
      && Noted(flash.bad, badOffsets, Start, at)
    }

    /** mtd_write_partition (mtdutils.c:368-395), for a position the caller may have sought to. */
    constructor (flash: Flash, at: nat)
      requires flash.Valid() && at <= |flash.blocks|
      ensures Valid() && this.flash == flash && fresh(buffer) && stored == 0 && Start == this.at == at &&
              Pieces == [] && badOffsets == []
    {
      this.flash, this.at, stored, badOffsets := flash, at, 0, [];
      buffer := new Byte[flash.erase];
      Start, Pieces := at, [];
    }

    /**
     write_block (mtdutils.c:406-469): the next block not marked bad gets the data; bad ones on the way are noted.
     */
    method WriteBlock(data: Block) returns (ok: bool)
      requires Valid() && |data| == flash.erase
      modifies this, flash
      ensures buffer[..] == old(buffer[..]) && stored == old(stored) && Start == old(Start)
      ensures ok ==> Valid() && Pieces == old(Pieces) + [data]
      ensures !ok ==> flash.Valid() && forall k :: old(at) <= k < |flash.blocks| ==> flash.bad[k]
      ensures !ok ==> |old(Pieces)| == GoodBlocks(flash.bad, Start, |flash.bad|)
    {
      ghost var B := flash.blocks;
      var pos, noted := SkipBad();
      hide AllZero, Readable, NoneZero, Noted, GoodBlocks;
      GoodSkips(flash.bad, Start, at, pos);
      if pos == |flash.blocks| { return false; }
      flash.blocks := flash.blocks[pos := data];
      WrittenReads(B, flash.bad, Start, at, pos, data);
      NoneZeroLast(Pieces, data);
      OneMoreGood(flash.bad, Start, pos, noted);
      at, badOffsets, Pieces := pos + 1, noted, Pieces + [data];
      ok := true;
    }

    /** The next block not marked bad, and the bad blocks noted up to it. */
    method SkipBad() returns (pos: nat, noted: seq<nat>)
      requires Valid()
      ensures at <= pos <= |flash.blocks| && (pos < |flash.blocks| ==> !flash.bad[pos]) &&
              forall k :: at <= k < pos ==> flash.bad[k]
      ensures Noted(flash.bad, noted, Start, pos)
    {
      hide AllZero, Readable, NoneZero, GoodBlocks;
      pos, noted := at, badOffsets;
      while pos < |flash.blocks| && flash.bad[pos]
        invariant at <= pos <= |flash.blocks|
        invariant forall k :: at <= k < pos ==> flash.bad[k]
        invariant Noted(flash.bad, noted, Start, pos)
      {
        noted := noted + [pos];
        pos := pos + 1;
      }
    }

    /** Adds to the buffer, and writes it out once it is a full block (mtdutils.c:475-488). */
    method Coalesce(data: seq<Byte>, wrote: nat) returns (ok: bool, wrote': nat)
      requires Valid() && wrote < |data|
      modifies this, flash, buffer
      ensures ok ==> Valid() && wrote < wrote' <= |data| && Stream() == old(Stream()) + data[wrote..wrote']
      ensures Start == old(Start) && (!ok ==> |old(Stream())| + |data| - wrote >= Limit(flash.bad, Start, flash.erase))
    {
      hide Readable, AllZero, NoneZero, Noted, Join, GoodBlocks;
      ghost var S, B := Stream(), buffer[..stored];
      var avail := flash.erase - stored;
      var copy := if |data| - wrote < avail then |data| - wrote else avail;
      wrote' := wrote + copy;
      var chunk := data[wrote..wrote'];
      Blit(buffer, stored, chunk);
      assert buffer[..stored + copy] == B + chunk;
      ok := true;
      if stored + copy == flash.erase {
        assert buffer[..] == B + chunk;
        ghost var full := buffer[..];
        ghost var P := Pieces;
        JoinSize(P, flash.erase);
        ok := WriteBlock(buffer[..]);
        if !ok {
          OverLimit(|P|, flash.erase);
          return;
        }
        stored := 0;
        JoinLast(P, full);
        assert Stream() == Join(P) + (B + chunk) == S + chunk;
      } else {
        stored := stored + copy;
        assert Stream() == Join(Pieces) + (B + chunk) == S + chunk;
      }
    }

    /** Writes one whole block straight from the caller's data (mtdutils.c:490-494). */
    method WriteWhole(data: seq<Byte>, wrote: nat) returns (ok: bool)
      requires Valid() && stored == 0 && wrote + flash.erase <= |data|
      modifies this, flash
      ensures ok ==> Valid() && stored == 0 && Stream() == old(Stream()) + data[wrote..wrote + flash.erase]
      ensures Start == old(Start) && (!ok ==> |old(Stream())| + flash.erase >= Limit(flash.bad, Start, flash.erase))
      ensures buffer[..] == old(buffer[..])
    {
      hide Readable, AllZero, NoneZero, Noted, GoodBlocks;
      ghost var P := Pieces;
      var b := data[wrote..wrote + flash.erase];
      JoinSize(P, flash.erase);
      ok := WriteBlock(b);
      if !ok { OverLimit(|P|, flash.erase); }
      JoinLast(P, b);
    }

    /**
     mtd_write_data (mtdutils.c:471-498): whatever the split into calls, the stream grows by the data, whole blocks
     of it going to the device and the rest staying in the buffer.
     */
    method WriteData(data: seq<Byte>) returns (ok: bool)
      requires Valid()
      modifies this, flash, buffer
      ensures ok ==> Valid() && Stream() == old(Stream()) + data
      ensures Start == old(Start) && (!ok ==> |old(Stream())| + |data| >= Limit(flash.bad, Start, flash.erase))
    {
      hide Readable, AllZero, NoneZero, Noted, Join, GoodBlocks, Limit;
      ghost var S := Stream();
      var wrote := 0;
      assert data[..0] == [] && S + [] == S;
      while wrote < |data|
        invariant 0 <= wrote <= |data| && Valid() && Start == old(Start)
        invariant Stream() == S + data[..wrote]
      {
        ghost var before := wrote;
        if stored > 0 || |data| - wrote < flash.erase {
          ghost var w := wrote;
          ok, wrote := Coalesce(data, wrote);
          if !ok { return; }
          Extend(S, data, w, wrote);
        }
        while stored == 0 && |data| - wrote >= flash.erase
          invariant before <= wrote <= |data| && Valid() && Start == old(Start)
          invariant wrote == before ==> stored == 0 && |data| - wrote >= flash.erase
          invariant Stream() == S + data[..wrote]
          decreases |data| - wrote
        {
          ok := WriteWhole(data, wrote);
          if !ok { return; }
          Extend(S, data, wrote, wrote + flash.erase);
          wrote := wrote + flash.erase;
        }
      }
      assert data[..wrote] == data;
      ok := true;
    }

    /** The zero padding of mtd_erase_blocks (mtdutils.c:500-508): pending data is written out as a block of its own. */
    method Pad() returns (ok: bool)
      requires Valid()
      modifies this, flash, buffer
      ensures ok ==> Valid() && stored == 0
      ensures Start == old(Start)
      ensures !ok ==>
                old(stored) > 0 && |old(Stream())| + flash.erase - old(stored) >= Limit(flash.bad, Start, flash.erase)
      ensures ok ==> Stream() == old(Stream()) + Zeros(if old(stored) == 0 then 0 else flash.erase - old(stored))
    {
      hide Readable, AllZero, NoneZero, Noted, GoodBlocks;
      ghost var S, B, P := Stream(), buffer[..stored], Pieces;
      if stored == 0 {
        assert S + Zeros(0) == S;
        return true;
      }
      Blit(buffer, stored, Zeros(flash.erase - stored));
      assert buffer[..] == B + Zeros(flash.erase - stored);
      ghost var full := buffer[..];
      JoinSize(P, flash.erase);
      ok := WriteBlock(buffer[..]);
      if !ok {
        OverLimit(|P|, flash.erase);
        return;
      }
      JoinLast(P, full);
      stored := 0;
      assert Stream() == Join(P) + full;
    }

    /**
     mtd_erase_blocks (mtdutils.c:500-539): pads, then erases the blocks after the data, bad ones excepted; a negative
     number means all of them.  It fails only for want of blocks.
     */
    method EraseBlocks(blocks: int) returns (ok: bool)
      requires Valid()
      modifies this, flash, buffer
      ensures ok ==> Valid() && stored == 0
      ensures ok ==> Stream() == old(Stream()) + Zeros(if old(stored) == 0 then 0 else flash.erase - old(stored))
      ensures ok ==> var n := (if blocks < 0 then |flash.blocks| - at else blocks);
                     at + n <= |flash.blocks| &&
                         (forall k :: at <= k < at + n && !flash.bad[k] ==> flash.blocks[k] == Erased(flash.erase))
      ensures Start == old(Start)
      ensures !ok && blocks <= 0 ==>
                old(stored) > 0 && |old(Stream())| + flash.erase - old(stored) >= Limit(flash.bad, Start, flash.erase)
    {
      hide Readable, AllZero, NoneZero, Noted, Join, GoodBlocks, Limit;
      ok := Pad();
      if !ok { return; }
      ghost var S := Stream();
      var total := |flash.blocks| - at;
      var left := if blocks < 0 then total else blocks;
      if left > total { return false; }
      var pos := at;
      while left > 0
        invariant 0 <= left && pos + left <= |flash.blocks| && at <= pos && Valid() && stored == 0 &&
                  Start == old(Start)
        invariant pos + left == at + if blocks < 0 then total else blocks
        invariant forall k :: at <= k < pos && !flash.bad[k] ==> flash.blocks[k] == Erased(flash.erase)
        invariant Stream() == S && |flash.blocks| - at == total
        decreases left
      {
        if !flash.bad[pos] {
          ghost var B := flash.blocks;
          flash.blocks := flash.blocks[pos := Erased(flash.erase)];
          ReadableFrame(B, flash.blocks, flash.bad, Start, at);
        }
        pos := pos + 1;
        left := left - 1;
      }
    }

    /** mtd_write_close (mtdutils.c:541-551). */
    method Close() returns (ok: bool)
      requires Valid()
      modifies this, flash, buffer
      ensures ok ==> Valid() && stored == 0
      ensures ok ==> Stream() == old(Stream()) + Zeros(if old(stored) == 0 then 0 else flash.erase - old(stored))
      ensures Start == old(Start)
      ensures !ok ==>
                old(stored) > 0 && |old(Stream())| + flash.erase - old(stored) >= Limit(flash.bad, Start, flash.erase)
    {
      ok := EraseBlocks(0);
    }

    /** mtd_find_write_start (mtdutils.c:556-566): the first block at or after pos that was not noted as bad. */
    method FindWriteStart(pos: nat) returns (r: nat)
      requires Valid()
      ensures pos <= r && r !in badOffsets && forall k :: pos <= k < r ==> k in badOffsets
    {
      r := pos;
      var i := 0;
      while i < |badOffsets|
        invariant 0 <= i <= |badOffsets| && pos <= r && (forall k :: pos <= k < r ==> k in badOffsets)
        invariant forall k :: 0 <= k < i ==> badOffsets[k] < r
      {
        if badOffsets[i] == r {
          r := r + 1;
        } else if badOffsets[i] > r {
          return;
        }
        i := i + 1;
      }
    }
  }

  /** An erased block: all ones. */
  function Erased(n: nat): (b: Block)
    ensures |b| == n
  {
    seq(n, _ => 255)
  }

  lemma OneMoreGood(bad: seq<bool>, start: nat, pos: nat, noted: seq<nat>)
    requires start <= pos < |bad| && !bad[pos] && Noted(bad, noted, start, pos)
    ensures GoodBlocks(bad, start, pos + 1) == GoodBlocks(bad, start, pos) + 1 && Noted(bad, noted, start, pos + 1)
  {
  }

  lemma OverLimit(n: nat, e: nat)
    ensures n * e + e == (n + 1) * e
  {
  }

  lemma Extend(S: seq<Byte>, data: seq<Byte>, lo: nat, hi: nat)
    requires lo <= hi <= |data|
    ensures S + data[..lo] + data[lo..hi] == S + data[..hi]
  {
    assert data[..lo] + data[lo..hi] == data[..hi];
  }

  lemma WrittenReads(blocks: seq<Block>, bad: seq<bool>, start: nat, at: nat, pos: nat, data: Block)
    requires |blocks| == |bad| && start <= at <= pos < |blocks| && !bad[pos] && forall k :: at <= k < pos ==> bad[k]
    ensures !AllZero(data) ==>
              Readable(blocks[pos := data], bad, start, pos + 1) == Readable(blocks, bad, start, at) + [data]
  {
    var blocks' := blocks[pos := data];
    ReadableSkips(blocks, bad, start, at, pos);
    ReadableFrame(blocks, blocks', bad, start, pos);
  }

  // ---------------------------------------------------------------- reading

  class ReadContext {
    const flash: Flash
    const buffer: array<Byte>
    var at: nat
    var consumed: nat
    ghost var Start: nat
    ghost var Delivered: seq<Byte>

    /** What was handed out, with what is left in the buffer, is what the blocks passed so far hold. */
    ghost predicate Valid()
      reads this, flash, buffer
    {
      && flash.Valid() && buffer.Length == flash.erase && consumed <= buffer.Length && Start <= at <= |flash.blocks|
      && Delivered + buffer[consumed..] == Join(Readable(flash.blocks, flash.bad, Start, at))
    }

    /** All that can be read from Start on. */
    ghost function Everything(): (s: seq<Byte>)
      reads this, flash
      requires flash.Valid() && Start <= |flash.blocks|
    {
      Join(Readable(flash.blocks, flash.bad, Start, |flash.blocks|))
    }

    /** mtd_read_partition (mtdutils.c:257-280). */
    constructor (flash: Flash, at: nat)
      requires flash.Valid() && at <= |flash.blocks|
      ensures Valid() && this.flash == flash && fresh(buffer) && Start == at && Delivered == []
    {
      this.flash, this.at, consumed := flash, at, flash.erase;
      buffer := new Byte[flash.erase];
      Start, Delivered := at, [];
    }

    /** read_block (mtdutils.c:282-326). */
    method ReadBlock() returns (ok: bool, data: Block)
      requires Valid()
      modifies this`at
      ensures Start <= old(at) <= at <= |flash.blocks|
      ensures ok ==>
          && |data| == flash.erase
          && Readable(flash.blocks, flash.bad, Start, at) == Readable(flash.blocks, flash.bad, Start, old(at)) + [data]
      ensures !ok ==>
          && at == old(at)
          && Readable(flash.blocks, flash.bad, Start, |flash.blocks|) == Readable(flash.blocks, flash.bad, Start, at)
    {
      var pos := at;
      data := [];
      while pos < |flash.blocks|
        invariant at <= pos <= |flash.blocks|
        invariant forall k :: at <= k < pos ==> flash.bad[k] || AllZero(flash.blocks[k])
      {
        if !flash.bad[pos] && !AllZero(flash.blocks[pos]) {
          ReadableSkips(flash.blocks, flash.bad, Start, at, pos);
          at := pos + 1;
          return true, flash.blocks[pos];
        }
        pos := pos + 1;
      }
      ReadableSkips(flash.blocks, flash.bad, Start, at, pos);
      ok := false;
    }

    /** Copies out of the buffer (mtdutils.c:332-338). */
    method Drain(len: nat) returns (chunk: seq<Byte>)
      requires Valid() && len > 0 && consumed < flash.erase
      modifies this`consumed, this`Delivered
      ensures Valid() && 0 < |chunk| <= len && (|chunk| == len || consumed == flash.erase)
      ensures Delivered == old(Delivered) + chunk
    {
      hide Join, Readable;
      var avail := flash.erase - consumed;
      var copy := if len < avail then len else avail;
      chunk := buffer[consumed..consumed + copy];
      ghost var rest := buffer[consumed..];
      consumed := consumed + copy;
      Delivered := Delivered + chunk;
      assert rest == chunk + buffer[consumed..];
      assert Delivered + buffer[consumed..] == old(Delivered) + rest;
    }

    /** Reads a whole block straight to the caller (mtdutils.c:340-345). */
    method ReadWhole() returns (ok: bool, block: Block)
      requires Valid() && consumed == flash.erase
      modifies this`at, this`Delivered
      ensures Valid()
      ensures ok ==> |block| == flash.erase && Delivered == old(Delivered) + block
      ensures !ok ==> Delivered == old(Delivered) == Everything()
    {
      hide Join, Readable;
      ghost var R := Readable(flash.blocks, flash.bad, Start, at);
      assert buffer[consumed..] == [] && Delivered + [] == Delivered;
      ok, block := ReadBlock();
      if !ok { return; }
      JoinLast(R, block);
      Delivered := Delivered + block;
      assert buffer[consumed..] == [] && Delivered + [] == Delivered;
    }

    /** Reads the next block into the context's own buffer (mtdutils.c:351-355). */
    method Refill() returns (ok: bool)
      requires Valid() && consumed == flash.erase
      modifies this`at, this`consumed, buffer
      ensures Valid() && (ok ==> consumed == 0)
      ensures !ok ==> Delivered == Everything()
    {
      hide Join, Readable;
      ghost var R := Readable(flash.blocks, flash.bad, Start, at);
      assert buffer[consumed..] == [] && Delivered + [] == Delivered;
      var block;
      ok, block := ReadBlock();
      if !ok { return; }
      Blit(buffer, 0, block);
      consumed := 0;
      assert buffer[0..] == block;
      JoinLast(R, block);
    }

    /**
     mtd_read_data (mtdutils.c:328-359): whatever the split into calls, the next len bytes are handed out, if there
     are that many left.
     */
    method ReadData(len: nat) returns (ok: bool, data: seq<Byte>)
      requires Valid()
      modifies this`at, this`consumed, this`Delivered, buffer
      ensures Valid()
      ensures ok ==> |data| == len && Delivered == old(Delivered) + data
      ensures !ok ==> |old(Delivered)| + len > |Everything()|
    {
      hide Join, Readable;
      ghost var D0 := Delivered;
      data := [];
      assert D0 + [] == D0;
      while |data| < len
        invariant |data| <= len && Valid() && Delivered == D0 + data
        decreases len - |data|, consumed
      {
        if consumed < flash.erase {
          var chunk := Drain(len - |data|);
          assert D0 + data + chunk == D0 + (data + chunk);
          data := data + chunk;
        }
        while consumed == flash.erase && len - |data| >= flash.erase
          invariant |data| <= len && Valid() && Delivered == D0 + data
          invariant |data| < len ==> consumed == flash.erase
          decreases len - |data|
        {
          var block;
          ok, block := ReadWhole();
          if !ok { return; }
          assert D0 + data + block == D0 + (data + block);
          data := data + block;
        }
        if |data| >= len { return true, data; }
        if consumed == flash.erase {
          ok := Refill();
          if !ok { return; }
        }
      }
      ok := true;
    }
  }

  // ---------------------------------------------------------------- writing and reading back

  /** A stream filled up to whole blocks with zeros. */
  ghost function ToBlocks(s: seq<Byte>, e: nat): (r: seq<Byte>)
    requires e > 0
  {
    s + Zeros(if |s| % e == 0 then 0 else e - |s| % e)
  }

  ghost function Stretch(s: seq<Byte>, e: nat, k: nat): (b: Block)
    requires k * e + e <= |s|
  {
    s[k * e..k * e + e]
  }

  /** No stretch of s that fills a block is all zero. */
  ghost predicate NoZeroBlock(s: seq<Byte>, e: nat)
  {
    forall k: nat :: k * e + e <= |s| ==> !AllZero(Stretch(s, e, k))
  }

  /** The pieces of a stream are its block-sized stretches. */
  lemma PiecesNoneZero(bs: seq<Block>, e: nat)
    requires (forall i :: 0 <= i < |bs| ==> |bs[i]| == e) && NoZeroBlock(Join(bs), e)
    ensures NoneZero(bs)
  {
    hide AllZero;
    forall i | 0 <= i < |bs|
      ensures !AllZero(bs[i])
    {
      PieceAt(bs, e, i);
    }
  }

  lemma PieceAt(bs: seq<Block>, e: nat, i: nat)
    requires (forall k :: 0 <= k < |bs| ==> |bs[k]| == e) && i < |bs|
    ensures i * e + e <= |Join(bs)| && Stretch(Join(bs), e, i) == bs[i]
  {
    var head := bs[..i + 1];
    assert bs == head + bs[i + 1..];
    JoinAppend(head, bs[i + 1..]);
    assert head[..i] == bs[..i];
    JoinSize(bs[..i], e);
    assert Join(head) == Join(bs[..i]) + bs[i];
  }

  /** How much is pending follows from the stream's length. */
  lemma Pending(pieces: seq<Block>, rest: seq<Byte>, e: nat)
    requires |rest| < e && forall i :: 0 <= i < |pieces| ==> |pieces[i]| == e
    ensures |Join(pieces) + rest| % e == |rest|
  {
    JoinSize(pieces, e);
    Remainder(|pieces|, e, |rest|);
  }

  lemma {:induction false} Remainder(q: nat, e: nat, r: nat)
    requires r < e
    ensures (q * e + r) % e == r
  {
    if q > 0 {
      Remainder(q - 1, e, r);
      assert q * e + r == (q - 1) * e + r + e;
      PlusOne((q - 1) * e + r, e);
    }
  }

  lemma PlusOne(x: nat, e: nat)
    requires e > 0
    ensures (x + e) % e == x % e
  {
    assert x == e * (x / e) + x % e;
    assert x + e == e * (x / e + 1) + x % e;
    var q, r := (x + e) / e, (x + e) % e;
    assert e * (q - (x / e + 1)) == x % e - r;
    Power2.SmallMultiple(e, q - (x / e + 1));
  }

  /**
   Writes data in calls of any size and closes.  This succeeds exactly when the good blocks can hold the padded stream,
   and then the whole of it is on the device and readable.
   */
  method WriteAll(flash: Flash, writes: seq<seq<Byte>>) returns (ok: bool)
    requires flash.Valid()
    modifies flash
    ensures ok <==> |ToBlocks(Join(writes), flash.erase)| <= GoodBlocks(flash.bad, 0, |flash.bad|) * flash.erase
    ensures ok ==> flash.Valid()
    ensures ok && NoZeroBlock(ToBlocks(Join(writes), flash.erase), flash.erase) ==>
              ToBlocks(Join(writes), flash.erase) <= Join(Readable(flash.blocks, flash.bad, 0, |flash.blocks|))
  {
    hide Readable, AllZero, NoneZero, Noted, Join, NoZeroBlock, GoodBlocks;
    var ctx := new WriteContext(flash, 0);
    JoinNothing();
    assert writes[..0] == [] && ctx.Stream() == Join(writes[..0]);
    for i := 0 to |writes|
      invariant ctx.flash == flash && fresh(ctx) && fresh(ctx.buffer) && ctx.Valid() && ctx.Start == 0
      invariant ctx.Stream() == Join(writes[..i])
    {
      assert writes[..i + 1] == writes[..i] + [writes[i]];
      JoinLast(writes[..i], writes[i]);
      ok := ctx.WriteData(writes[i]);
      if !ok {
        JoinGrows(writes, i + 1);
        OverLimit(GoodBlocks(flash.bad, 0, |flash.bad|), flash.erase);
        return;
      }
    }
    assert writes[..|writes|] == writes;
    Pending(ctx.Pieces, ctx.buffer[..ctx.stored], flash.erase);
    OverLimit(GoodBlocks(flash.bad, 0, |flash.bad|), flash.erase);
    ok := ctx.Close();
    if !ok { return; }
    JoinSize(ctx.Pieces, flash.erase);
    GoodSkips(flash.bad, 0, ctx.at, |flash.bad|);
    MoreBytes(|ctx.Pieces|, GoodBlocks(flash.bad, 0, |flash.bad|), flash.erase);
    assert ctx.buffer[..0] == [] && Join(ctx.Pieces) + [] == Join(ctx.Pieces);
    if NoZeroBlock(ToBlocks(Join(writes), flash.erase), flash.erase) {
      PiecesNoneZero(ctx.Pieces, flash.erase);
      ReadablePrefix(flash.blocks, flash.bad, 0, ctx.at, |flash.blocks|);
      ghost var all := Readable(flash.blocks, flash.bad, 0, |flash.blocks|);
      assert all == ctx.Pieces + all[|ctx.Pieces|..];
      JoinAppend(ctx.Pieces, all[|ctx.Pieces|..]);
    }
  }

  lemma MoreBytes(m: nat, n: nat, e: nat)
    requires m <= n
    ensures m * e <= n * e
  {
  }

  lemma {:induction false} JoinGrows(bs: seq<seq<Byte>>, k: nat)
    requires k <= |bs|
    ensures |Join(bs[..k])| <= |Join(bs)|
    decreases |bs|
  {
    if k < |bs| {
      JoinGrows(bs[..|bs| - 1], k);
      assert bs[..|bs| - 1][..k] == bs[..k];
    } else {
      assert bs[..k] == bs;
    }
  }

  lemma JoinNothing()
    ensures Join([]) == []
  {
  }

  /** Reads in calls of any size from the start of the partition. */
  method ReadAll(flash: Flash, sizes: seq<nat>) returns (ok: bool, data: seq<Byte>)
    requires flash.Valid()
    ensures data <= Join(Readable(flash.blocks, flash.bad, 0, |flash.blocks|))
    ensures ok ==> |data| == Sum(sizes)
    ensures Sum(sizes) <= |Join(Readable(flash.blocks, flash.bad, 0, |flash.blocks|))| ==> ok
  {
    hide Readable, Join;
    var ctx := new ReadContext(flash, 0);
    data := [];
    assert sizes[..0] == [];
    DeliveredPrefix(ctx);
    for i := 0 to |sizes|
      invariant ctx.flash == flash && fresh(ctx) && fresh(ctx.buffer) && ctx.Valid() && ctx.Start == 0
      invariant data == ctx.Delivered && |data| == Sum(sizes[..i]) && data <= ctx.Everything()
    {
      assert sizes[..i + 1][..i] == sizes[..i];
      var chunk;
      ok, chunk := ctx.ReadData(sizes[i]);
      if !ok { SumPrefix(sizes, i + 1); return; }
      data := data + chunk;
      DeliveredPrefix(ctx);
    }
    assert sizes[..|sizes|] == sizes;
    ok := true;
  }

  ghost function Sum(ns: seq<nat>): (s: nat)
  {
    if ns == [] then 0 else Sum(ns[..|ns| - 1]) + ns[|ns| - 1]
  }

  lemma {:induction false} SumPrefix(ns: seq<nat>, k: nat)
    requires k <= |ns|
    ensures Sum(ns[..k]) <= Sum(ns)
    decreases |ns|
  {
    if k < |ns| {
      SumPrefix(ns[..|ns| - 1], k);
      assert ns[..|ns| - 1][..k] == ns[..k];
    } else {
      assert ns[..k] == ns;
    }
  }

  lemma DeliveredPrefix(ctx: ReadContext)
    requires ctx.Valid()
    ensures ctx.Delivered <= ctx.Everything()
  {
    var flash := ctx.flash;
    var some, all := Readable(flash.blocks, flash.bad, ctx.Start, ctx.at),
        Readable(flash.blocks, flash.bad, ctx.Start, |flash.blocks|);
    ReadablePrefix(flash.blocks, flash.bad, ctx.Start, ctx.at, |flash.blocks|);
    assert all == some + all[|some|..];
    JoinAppend(some, all[|some|..]);
  }

  /**
   For every map of bad blocks, every split of the data into writes and every split of the reading: what was written
   is read back, followed by the zeros that fill its last block, as long as no block-sized stretch of it is all zero.
   Writing succeeds exactly when there are enough good blocks.
   */
  method WriteThenRead(flash: Flash, writes: seq<seq<Byte>>, sizes: seq<nat>)
    returns (written: bool, ok: bool, data: seq<Byte>)
    requires flash.Valid()
    modifies flash
    ensures written <==> |ToBlocks(Join(writes), flash.erase)| <= GoodBlocks(flash.bad, 0, |flash.bad|) * flash.erase
    ensures var s := ToBlocks(Join(writes), flash.erase);
            written && NoZeroBlock(s, flash.erase) && Sum(sizes) <= |s| ==> ok && |data| == Sum(sizes) && data <= s
  {
    hide Readable, Join, NoZeroBlock, ToBlocks, Sum, GoodBlocks;
    ok, data := false, [];
    ghost var s := ToBlocks(Join(writes), flash.erase);
    written := WriteAll(flash, writes);
    if !written { return; }
    ok, data := ReadAll(flash, sizes);
    ghost var all := Join(Readable(flash.blocks, flash.bad, 0, |flash.blocks|));
    assert NoZeroBlock(s, flash.erase) ==> s <= all;
    assert data <= all;
  }

  lemma {:induction false} ReadableNoneZero(blocks: seq<Block>, bad: seq<bool>, lo: nat, hi: nat)
    requires |blocks| == |bad| && lo <= hi <= |blocks|
    ensures forall b :: b in Readable(blocks, bad, lo, hi) ==> !AllZero(b) && b in blocks
    decreases hi
  {
    if lo < hi { ReadableNoneZero(blocks, bad, lo, hi - 1); }
  }

  /** The condition of WriteThenRead is exact: nothing with an all-zero block in it is ever read back. */
  lemma OnlyNoZeroBlock(s: seq<Byte>, blocks: seq<Block>, bad: seq<bool>, e: nat)
    requires |blocks| == |bad| && (forall i :: 0 <= i < |blocks| ==> |blocks[i]| == e) && e > 0
    requires s <= Join(Readable(blocks, bad, 0, |blocks|))
    ensures NoZeroBlock(s, e)
  {
    hide AllZero, Readable;
    var bs := Readable(blocks, bad, 0, |blocks|);
    ReadableNoneZero(blocks, bad, 0, |blocks|);
    forall i | 0 <= i < |bs| ensures |bs[i]| == e { assert bs[i] in blocks; }
    JoinSize(bs, e);
    forall k: nat | k * e + e <= |s|
      ensures !AllZero(Stretch(s, e, k))
    {
      BlockBound(k, |bs|, e);
      PieceAt(bs, e, k);
      assert Stretch(s, e, k) == Stretch(Join(bs), e, k);
    }
  }

  lemma BlockBound(k: nat, n: nat, e: nat)
    requires e > 0 && k * e + e <= n * e
    ensures k < n
  {
    assert k >= n ==> k * e >= n * e;
  }
}
