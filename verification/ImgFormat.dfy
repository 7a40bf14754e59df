/** The layout of an image patch (imgdiff.c:932-1005), and that imgpatch.c reads back what was laid out. */
module ImgFormat {
  import opened Bytes
  import opened Codec
  import opened Wrappers
  import opened ImgPatch
  import BsPatch

  /** What the header says of one target chunk, with the bsdiff patch that goes after the header. */
  datatype Record =
    | RawRec(data: seq<Byte>)
    | NormalRec(start: nat, len: nat, patch: seq<Byte>)
    | DeflateRec(start: nat, len: nat, expanded: nat, target: nat, params: Params, patch: seq<Byte>)

  /** The bytes of the body that belong to a record. */
  function Body(r: Record): (b: seq<Byte>)
  {
    if r.RawRec? then [] else r.patch
  }

  /** A record as written, its patch being at offset off. */
  function Head(r: Record, off: int): (b: seq<Byte>)
  {
    match r
    case RawRec(data) => Write4(CHUNK_RAW) + Write4(|data|) + data
    case NormalRec(start, len, _) => Write4(CHUNK_NORMAL) + Write8(start) + Write8(len) + Write8(off)
    case DeflateRec(start, len, expanded, target, q, _) =>
      Write4(CHUNK_DEFLATE) + Write8(start) + Write8(len) + Write8(off) + Write8(expanded) + Write8(target) +
      Write4(q.level) + Write4(q.method_) + Write4(q.windowBits) + Write4(q.memLevel) + Write4(q.strategy)
  }

  function HeadSize(r: Record): (n: nat)
    ensures forall off :: |Head(r, off)| == n
  {
    if r.RawRec? then 8 + |r.data| else if r.NormalRec? then 28 else 64
  }

  function Heads(rs: seq<Record>, off: int): (b: seq<Byte>)
  {
    if rs == [] then [] else Head(rs[0], off) + Heads(rs[1..], off + |Body(rs[0])|)
  }

  function HeadsSize(rs: seq<Record>): (n: nat)
    ensures forall off :: |Heads(rs, off)| == n
  {
    if rs == [] then 0 else HeadSize(rs[0]) + HeadsSize(rs[1..])
  }

  function Bodies(rs: seq<Record>): (b: seq<Byte>)
  {
    if rs == [] then [] else Body(rs[0]) + Bodies(rs[1..])
  }

  /** The whole patch file. */
  function Layout(rs: seq<Record>): (b: seq<Byte>)
  {
    MAGIC + Write4(|rs|) + Heads(rs, 12 + HeadsSize(rs)) + Bodies(rs)
  }

  /** patch turns s into t wherever in a file it lies. */
  ghost predicate Rebuilds(s: seq<Byte>, patch: seq<Byte>, t: seq<Byte>, expand: BsPatch.Expand)
  {
    forall before, after ::
        BsPatch.ApplyPatch(s, before + patch + after, |before|, expand) == BsPatch.Done(t, [], [], [])
  }

  /** The record makes the applier emit exactly out. */
  ghost predicate Good(src: seq<Byte>, r: Record, out: seq<Byte>, z: Codecs)
  {
    match r
    case RawRec(data) => data == out && |data| < TWO31
    case NormalRec(start, len, patch) =>
      start + len <= |src| < TWO63 && Rebuilds(src[start..start + len], patch, out, z.expand)
    case DeflateRec(start, len, expanded, target, q, patch) =>
      && start + len <= |src| < TWO63 && target < TWO63 && Fits(q)
      && z.inflate(src[start..start + len]).Some? && |z.inflate(src[start..start + len]).value.0| == expanded < TWO63
      && exists t :: Rebuilds(z.inflate(src[start..start + len]).value.0, patch, t, z.expand) && z.deflate(q, t) == out
  }

  ghost predicate Fits(q: Params)
  {
    && -TWO31 <= q.level < TWO31 && -TWO31 <= q.method_ < TWO31 && -TWO31 <= q.windowBits < TWO31
    && -TWO31 <= q.memLevel < TWO31 && -TWO31 <= q.strategy < TWO31
  }

  // ---------------------------------------------------------------- the format, byte by byte

  lemma Small4(n: Byte)
    ensures Write4(n) == [n, 0, 0, 0]
  {
    assert Le(n, 4) == [n % 256] + Le(0, 3) && Le(0, 3) == [0] + Le(0, 2) && Le(0, 2) == [0] + Le(0, 1);
  }

  /** Two's complement in four bytes. */
  function Word4(v: int): (b: seq<Byte>)
    requires -TWO31 <= v < TWO31
  {
    Le(if v < 0 then v + 0x1_0000_0000 else v, 4)
  }

  lemma Plain4(v: int)
    requires -TWO31 <= v < TWO31
    ensures Write4(v) == Word4(v)
  {
    hide Le;
    assert v % (2 * TWO31) == if v < 0 then v + 0x1_0000_0000 else v;
  }

  lemma Plain8(n: nat)
    requires n < TWO63
    ensures Write8(n) == Le(n, 8)
  {
    hide Le;
    assert n % (2 * TWO63) == n;
  }

  /** A patch file: a magic word, the number of records, the records and the patches. */
  lemma LayoutMeans(rs: seq<Record>)
    requires |rs| < TWO31
    ensures |Layout(rs)| >= 12 && Layout(rs)[..8] == [0x49, 0x4d, 0x47, 0x44, 0x49, 0x46, 0x46, 0x32]
    ensures Layout(rs)[8..12] == Word4(|rs|) && Layout(rs)[12..] == Heads(rs, 12 + HeadsSize(rs)) + Bodies(rs)
  {
    MagicMeans();
    hide *;
    Plain4(|rs|);
    LayoutIs(rs);
    FourParts(MAGIC, Write4(|rs|), Heads(rs, 12 + HeadsSize(rs)), Bodies(rs));
  }

  lemma MagicMeans()
    ensures MAGIC == [0x49, 0x4d, 0x47, 0x44, 0x49, 0x46, 0x46, 0x32] && |MAGIC| == 8
  {
  }

  lemma LayoutIs(rs: seq<Record>)
    ensures Layout(rs) == MAGIC + Write4(|rs|) + Heads(rs, 12 + HeadsSize(rs)) + Bodies(rs)
  {
    hide MAGIC, Write4, Heads, Bodies, HeadsSize;
  }

  lemma FourParts(a: seq<Byte>, b: seq<Byte>, c: seq<Byte>, d: seq<Byte>)
    requires |a| == 8 && |b| == 4
    ensures var w := a + b + c + d; |w| >= 12 && w[..8] == a && w[8..12] == b && w[12..] == c + d
  {
  }

  lemma RawMeans(data: seq<Byte>, off: int)
    requires |data| < TWO31
    ensures Head(RawRec(data), off) == [3, 0, 0, 0] + Word4(|data|) + data
  {
    Small4(3);
    Plain4(|data|);
    hide Write4, Word4;
  }

  lemma NormalMeans(start: nat, len: nat, patch: seq<Byte>, off: nat)
    requires start < TWO63 && len < TWO63 && off < TWO63
    ensures Head(NormalRec(start, len, patch), off) == [0, 0, 0, 0] + Le(start, 8) + Le(len, 8) + Le(off, 8)
  {
    Small4(0);
    Plain8(start);
    Plain8(len);
    Plain8(off);
    hide Write4, Write8, Le;
  }

  lemma DeflateMeans(start: nat, len: nat, expanded: nat, target: nat, q: Params, patch: seq<Byte>, off: nat)
    requires start < TWO63 && len < TWO63 && off < TWO63 && expanded < TWO63 && target < TWO63 && Fits(q)
    ensures Head(DeflateRec(start, len, expanded, target, q, patch), off)
         == [2, 0, 0, 0] + Le(start, 8) + Le(len, 8) + Le(off, 8) + Le(expanded, 8) + Le(target, 8) +
            Word4(q.level) + Word4(q.method_) + Word4(q.windowBits) + Word4(q.memLevel) + Word4(q.strategy)
  {
    hide Write4, Write8, Le, Word4;
    Small4(2);
    Plain8(start);
    Plain8(len);
    Plain8(off);
    Plain8(expanded);
    Plain8(target);
    Plain4(q.level);
    Plain4(q.method_);
    Plain4(q.windowBits);
    Plain4(q.memLevel);
    Plain4(q.strategy);
  }

  /** A file that starts with the magic word and the number of records. */
  ghost function Opened(n: nat, rest: seq<Byte>): (b: seq<Byte>)
    requires n < TWO31
  {
    [0x49, 0x4d, 0x47, 0x44, 0x49, 0x46, 0x46, 0x32] + Word4(n) + rest
  }

  lemma OpenedParts(n: nat, rest: seq<Byte>)
    requires 0 < n < TWO31
    ensures var b := Opened(n, rest);
      && |b| == 12 + |rest| && b[..8] == MAGIC && Field4(b, 8) == n && b[12..] == rest
      && forall lo, hi :: 0 <= lo <= hi <= |rest| ==> b[12 + lo..12 + hi] == rest[lo..hi]
  {
    MagicMeans();
    LengthBytes(Word4(n), n);
    hide Read4, Le;
    var b, h := Opened(n, rest), [0x49, 0x4d, 0x47, 0x44, 0x49, 0x46, 0x46, 0x32] + Word4(n);
    assert b == h + rest && b[..8] == h[..8] && b[8..12] == h[8..12] == Word4(n);
  }

  /** Anything too short for its header or with another magic word is refused. */
  lemma FileRefused(src: seq<Byte>, patch: seq<Byte>, z: Codecs)
    requires |patch| < 12 || patch[..8] != [0x49, 0x4d, 0x47, 0x44, 0x49, 0x46, 0x46, 0x32]
    ensures ImageRun(src, patch, z) == Run([], Failed)
  {
    MagicMeans();
  }

  /** So is a first record of no known kind, or one that is cut short. */
  lemma RecordRefused(src: seq<Byte>, n: nat, rest: seq<Byte>, z: Codecs)
    requires 0 < n < TWO31
    requires
      || |rest| < 4
      || (rest[..4] != [0, 0, 0, 0] && rest[..4] != [2, 0, 0, 0] && rest[..4] != [3, 0, 0, 0])
      || (rest[..4] == [0, 0, 0, 0] && |rest| < 28)
      || (rest[..4] == [2, 0, 0, 0] && |rest| < 64)
      || (rest[..4] == [3, 0, 0, 0] && |rest| < 8)
    ensures ImageRun(src, Opened(n, rest), z) == Run([], Failed)
  {
    OpenedParts(n, rest);
    if |rest| >= 4 { KindBytes(rest[..4]); }
    hide Field4, Opened, Read4;
    FirstRefused(src, Opened(n, rest), n, rest, z);
  }

  lemma KindBytes(w: seq<Byte>)
    requires |w| == 4
    ensures Read4(w) == 0 <==> w == [0, 0, 0, 0]
    ensures Read4(w) == 2 <==> w == [2, 0, 0, 0]
    ensures Read4(w) == 3 <==> w == [3, 0, 0, 0]
  {
    LengthBytes(w, 0);
    LengthBytes(w, 2);
    LengthBytes(w, 3);
    Small4(0);
    Small4(2);
    Small4(3);
    hide Read4;
  }

  lemma FirstRefused(src: seq<Byte>, b: seq<Byte>, n: nat, rest: seq<Byte>, z: Codecs)
    requires 0 < n && |b| == 12 + |rest| && b[..8] == MAGIC && Field4(b, 8) == n
    requires |rest| >= 4 ==> b[12..16] == rest[..4]
    requires
      || |rest| < 4
      || (Read4(rest[..4]) != 0 && Read4(rest[..4]) != 2 && Read4(rest[..4]) != 3)
      || (Read4(rest[..4]) == 0 && |rest| < 28)
      || (Read4(rest[..4]) == 2 && |rest| < 64)
      || (Read4(rest[..4]) == 3 && |rest| < 8)
    ensures ImageRun(src, b, z) == Run([], Failed)
  {
    hide Read4;
    assert OneChunk(src, b, 12, z) == Stop(Failed);
    hide OneChunk;
  }

  /** So is a stored chunk that the file does not hold in full. */
  lemma RawRefused(src: seq<Byte>, n: nat, len: nat, data: seq<Byte>, z: Codecs)
    requires 0 < n < TWO31 && |data| < len < TWO31
    ensures ImageRun(src, Opened(n, [3, 0, 0, 0] + Word4(len) + data), z) == Run([], Failed)
  {
    var rest := [3, 0, 0, 0] + Word4(len) + data;
    OpenedParts(n, rest);
    assert rest[0..4] == [3, 0, 0, 0] && rest[4..8] == Word4(len);
    KindBytes([3, 0, 0, 0]);
    LengthBytes(Word4(len), len);
    var b := Opened(n, rest);
    assert b[12 + 0..12 + 4] == rest[0..4] && b[12 + 4..12 + 8] == rest[4..8];
    hide Read4, Le, Opened;
    assert Field4(b, 12) == 3 && Field4(b, 16) == len;
    assert OneChunk(src, b, 12, z) == Stop(Failed);
    hide OneChunk;
  }

  /** A normal chunk whose patch is corrupt is passed over, and the run goes on as if nothing were wrong. */
  lemma NormalIgnored(src: seq<Byte>, start: nat, len: nat, off: nat, more: seq<Byte>, z: Codecs)
    requires start + len <= |src| < TWO63 && off < TWO63
    requires var rest := [0, 0, 0, 0] + Le(start, 8) + Le(len, 8) + Le(off, 8) + more;
             BsPatch.ApplyPatch(src[start..start + len], Opened(1, rest), off, z.expand) == BsPatch.Corrupt
    ensures var rest := [0, 0, 0, 0] + Le(start, 8) + Le(len, 8) + Le(off, 8) + more;
            ImageRun(src, Opened(1, rest), z) == Run([], Complete)
  {
    var rest := [0, 0, 0, 0] + Le(start, 8) + Le(len, 8) + Le(off, 8) + more;
    var b := Opened(1, rest);
    OpenedParts(1, rest);
    NormalParts([0, 0, 0, 0], Le(start, 8), Le(len, 8), Le(off, 8), more);
    hide *;
    assert b[12 + 0..12 + 4] == rest[0..4] && b[12 + 4..12 + 12] == rest[4..12];
    assert b[12 + 12..12 + 20] == rest[12..20] && b[12 + 20..12 + 28] == rest[20..28];
    IgnoredChunk(src, b, start, len, off, z);
    OnlyChunk(src, b, z);
  }

  lemma NormalParts(a: seq<Byte>, b: seq<Byte>, c: seq<Byte>, d: seq<Byte>, more: seq<Byte>)
    requires |a| == 4 && |b| == |c| == |d| == 8
    ensures var w := a + b + c + d + more;
            |w| == 28 + |more| && w[0..4] == a && w[4..12] == b && w[12..20] == c && w[20..28] == d
  {
  }

  lemma IgnoredChunk(src: seq<Byte>, b: seq<Byte>, start: nat, len: nat, off: nat, z: Codecs)
    requires |b| >= 40 && start + len <= |src| < TWO63 && off < TWO63 && b[12..16] == [0, 0, 0, 0]
    requires b[16..24] == Le(start, 8) && b[24..32] == Le(len, 8) && b[32..40] == Le(off, 8)
    requires BsPatch.ApplyPatch(src[start..start + len], b, off, z.expand) == BsPatch.Corrupt
    ensures OneChunk(src, b, 12, z) == Next([], 40)
  {
    Plain8(start);
    Plain8(len);
    Plain8(off);
    KindBytes(b[12..16]);
    hide Write8, Le, Read4, Read8, BsPatch.ApplyPatch;
    Reads8(b, 16, start);
    Reads8(b, 24, len);
    Reads8(b, 32, off);
    FieldIs(b, 12);
    hide *;
    NormalSkips(src, b, start, len, off, z);
  }

  lemma NormalSkips(src: seq<Byte>, b: seq<Byte>, start: nat, len: nat, off: nat, z: Codecs)
    requires |b| >= 40 && start + len <= |src| && Field4(b, 12) == 0
    requires Field8(b, 16) == start && Field8(b, 24) == len && Field8(b, 32) == off
    requires BsPatch.ApplyPatch(src[start..start + len], b, off, z.expand) == BsPatch.Corrupt
    ensures OneChunk(src, b, 12, z) == Next([], 40)
  {
    hide Field4, Field8, BsPatch.ApplyPatch;
  }

  lemma OnlyChunk(src: seq<Byte>, b: seq<Byte>, z: Codecs)
    requires |b| >= 40 && b[..8] == MAGIC && Field4(b, 8) == 1 && OneChunk(src, b, 12, z) == Next([], 40)
    ensures ImageRun(src, b, z) == Run([], Complete)
  {
    hide OneChunk, Field4;
    assert Chunks(src, b, 40, 0, z) == Run([], Complete);
  }

  /** But a deflate chunk is refused whose source does not inflate, or not to the length recorded. */
  lemma ExpandedRefused(src: seq<Byte>, n: nat, start: nat, len: nat, off: seq<Byte>, expanded: nat, more: seq<Byte>,
      z: Codecs)
    requires 0 < n < TWO31 && start + len <= |src| < TWO63 && expanded < TWO63 && |off| == 8 && |more| >= 28
    requires var data := z.inflate(src[start..start + len]); data.None? || |data.value.0| != expanded
    ensures var rest := [2, 0, 0, 0] + Le(start, 8) + Le(len, 8) + off + Le(expanded, 8) + more;
            ImageRun(src, Opened(n, rest), z) == Run([], Failed)
  {
    var rest := [2, 0, 0, 0] + Le(start, 8) + Le(len, 8) + off + Le(expanded, 8) + more;
    var b := Opened(n, rest);
    OpenedParts(n, rest);
    FiveParts([2, 0, 0, 0], Le(start, 8), Le(len, 8), off, Le(expanded, 8), more);
    hide *;
    assert b[12 + 0..12 + 4] == rest[0..4] && b[12 + 4..12 + 12] == rest[4..12];
    assert b[12 + 12..12 + 20] == rest[12..20] && b[12 + 28..12 + 36] == rest[28..36];
    DeflateRefused(src, b, n, start, len, expanded, z);
  }

  lemma FiveParts(a: seq<Byte>, b: seq<Byte>, c: seq<Byte>, d: seq<Byte>, e: seq<Byte>, more: seq<Byte>)
    requires |a| == 4 && |b| == |c| == |d| == |e| == 8
    ensures var w := a + b + c + d + e + more;
            |w| == 36 + |more| && w[0..4] == a && w[4..12] == b && w[12..20] == c && w[28..36] == e
  {
  }

  lemma DeflateRefused(src: seq<Byte>, b: seq<Byte>, n: nat, start: nat, len: nat, expanded: nat, z: Codecs)
    requires 0 < n && |b| >= 76 && b[..8] == MAGIC && Field4(b, 8) == n && start + len <= |src| < TWO63
    requires b[12..16] == [2, 0, 0, 0] && b[16..24] == Le(start, 8) && b[24..32] == Le(len, 8)
    requires b[40..48] == Le(expanded, 8) && expanded < TWO63
    requires var data := z.inflate(src[start..start + len]); data.None? || |data.value.0| != expanded
    ensures ImageRun(src, b, z) == Run([], Failed)
  {
    Plain8(start);
    Plain8(len);
    Plain8(expanded);
    KindBytes(b[12..16]);
    hide Write8, Le, Read4, Read8;
    Reads8(b, 16, start);
    Reads8(b, 24, len);
    Reads8(b, 40, expanded);
    hide *;
    assert Field4(b, 12) == 2 by { FieldIs(b, 12); }
    ChunkRefused(src, b, start, len, expanded, z);
    StopsAtOnce(src, b, n, z);
  }

  lemma FieldIs(b: seq<Byte>, at: nat)
    requires at + 4 <= |b|
    ensures Field4(b, at) == Read4(b[at..at + 4])
  {
  }

  lemma ChunkRefused(src: seq<Byte>, b: seq<Byte>, start: nat, len: nat, expanded: nat, z: Codecs)
    requires |b| >= 76 && Field4(b, 12) == 2 && Field8(b, 16) == start && Field8(b, 24) == len
    requires Field8(b, 40) == expanded && start + len <= |src|
    requires var data := z.inflate(src[start..start + len]); data.None? || |data.value.0| != expanded
    ensures OneChunk(src, b, 12, z) == Stop(Failed)
  {
    hide Field4, Field8, BsPatch.ApplyPatch;
  }

  lemma StopsAtOnce(src: seq<Byte>, b: seq<Byte>, n: nat, z: Codecs)
    requires 0 < n && |b| >= 12 && b[..8] == MAGIC && Field4(b, 8) == n && OneChunk(src, b, 12, z) == Stop(Failed)
    ensures ImageRun(src, b, z) == Run([], Failed)
  {
    hide OneChunk, Field4;
  }

  // ---------------------------------------------------------------- reading a record back

  lemma Reads8(file: seq<Byte>, at: nat, v: int)
    requires at + 8 <= |file| && file[at..at + 8] == Write8(v) && -TWO63 <= v < TWO63
    ensures Field8(file, at) == v
  {
    Fixed8(v);
  }

  lemma Reads4(file: seq<Byte>, at: nat, v: int)
    requires at + 4 <= |file| && file[at..at + 4] == Write4(v) && -TWO31 <= v < TWO31
    ensures Field4(file, at) == v
  {
    Fixed4(v);
  }

  /** A slice of a part is a slice of the whole. */
  lemma Slice(pre: seq<Byte>, part: seq<Byte>, post: seq<Byte>, lo: nat, hi: nat)
    requires lo <= hi <= |part|
    ensures (pre + part + post)[|pre| + lo..|pre| + hi] == part[lo..hi]
  {
  }

  lemma RawRead(src: seq<Byte>, pre: seq<Byte>, r: Record, off: int, rest: seq<Byte>, out: seq<Byte>, z: Codecs)
    requires r.RawRec? && Good(src, r, out, z)
    ensures OneChunk(src, pre + Head(r, off) + rest, |pre|, z) == Next([Seg(out, true)], |pre| + HeadSize(r))
  {
    hide Write4, Rebuilds, NormalChunk, DeflateChunk;
    var h := Head(r, off);
    var file := pre + h + rest;
    assert h[0..4] == Write4(CHUNK_RAW) && h[4..8] == Write4(|r.data|) && h[8..8 + |r.data|] == r.data;
    Slice(pre, h, rest, 0, 4);
    Slice(pre, h, rest, 4, 8);
    Slice(pre, h, rest, 8, 8 + |r.data|);
    Reads4(file, |pre|, CHUNK_RAW);
    Reads4(file, |pre| + 4, |r.data|);
  }

  lemma NormalRead(src: seq<Byte>, pre: seq<Byte>, r: Record, off: int, rest: seq<Byte>, out: seq<Byte>, z: Codecs)
    requires r.NormalRec? && Good(src, r, out, z) && 0 <= off < TWO63
    requires var file := pre + Head(r, off) + rest;
             off + |r.patch| <= |file| && file == file[..off] + r.patch + file[off + |r.patch|..]
    ensures OneChunk(src, pre + Head(r, off) + rest, |pre|, z) == Next([Seg(out, false)], |pre| + HeadSize(r))
  {
    var h := Head(r, off);
    var file := pre + h + rest;
    NormalHead(r, off);
    hide Head, Field4, Field8, OneChunk, Rebuilds, BsPatch.ApplyPatch;
    Part4(pre, h, rest, 0, CHUNK_NORMAL);
    Part8(pre, h, rest, 4, r.start);
    Part8(pre, h, rest, 12, r.len);
    Part8(pre, h, rest, 20, off);
    assert |file| >= |pre| + 28;
    NormalFields(src, file, |pre|, r, off, out, z);
  }

  /** A normal record whose fields read as they should is applied as it should be. */
  lemma NormalFields(src: seq<Byte>, file: seq<Byte>, pos: nat, r: Record, off: nat, out: seq<Byte>, z: Codecs)
    requires r.NormalRec? && Good(src, r, out, z) && pos + 28 <= |file|
    requires Field4(file, pos) == CHUNK_NORMAL && Field8(file, pos + 4) == r.start && Field8(file, pos + 12) == r.len &&
             Field8(file, pos + 20) == off
    requires off + |r.patch| <= |file| && file == file[..off] + r.patch + file[off + |r.patch|..]
    ensures OneChunk(src, file, pos, z) == Next([Seg(out, false)], pos + HeadSize(r))
  {
    hide Field4, Field8, Rebuilds, BsPatch.ApplyPatch;
    RebuildsAt(src[r.start..r.start + r.len], r.patch, out, z.expand, file, off);
    IsNormal(src, file, pos, z);
  }

  lemma NormalHead(r: Record, off: int)
    requires r.NormalRec?
    ensures var h := Head(r, off);
            |h| == 28 && h[0..4] == Write4(CHUNK_NORMAL) && h[4..12] == Write8(r.start) && h[12..20] == Write8(r.len) &&
                h[20..28] == Write8(off)
  {
    hide Write4, Write8;
  }

  lemma RebuildsAt(s: seq<Byte>, patch: seq<Byte>, t: seq<Byte>, expand: BsPatch.Expand, file: seq<Byte>, off: nat)
    requires Rebuilds(s, patch, t, expand) && off + |patch| <= |file| &&
             file == file[..off] + patch + file[off + |patch|..]
    ensures BsPatch.ApplyPatch(s, file, off, expand) == BsPatch.Done(t, [], [], [])
  {
    var before, after := file[..off], file[off + |patch|..];
    assert BsPatch.ApplyPatch(s, before + patch + after, |before|, expand) == BsPatch.Done(t, [], [], []);
  }

  /** Where the fields of a deflate record are. */
  lemma DeflateHead(r: Record, off: int)
    requires r.DeflateRec?
    ensures var h, q := Head(r, off), r.params;
            && |h| == 64 && h[0..4] == Write4(CHUNK_DEFLATE)
            && h[4..12] == Write8(r.start) && h[12..20] == Write8(r.len) && h[20..28] == Write8(off) &&
                h[28..36] == Write8(r.expanded)
            && h[44..48] == Write4(q.level) && h[48..52] == Write4(q.method_) && h[52..56] == Write4(q.windowBits)
            && h[56..60] == Write4(q.memLevel) && h[60..64] == Write4(q.strategy)
  {
    hide Write4, Write8;
  }

  lemma DeflateFields(pre: seq<Byte>, r: Record, off: int, rest: seq<Byte>)
    requires r.DeflateRec? && Fits(r.params) && 0 <= off < TWO63 && r.start < TWO63 && r.len < TWO63 &&
             r.expanded < TWO63
    ensures var file, p, q := pre + Head(r, off) + rest, |pre|, r.params;
            && p + 64 <= |file| && Field4(file, p) == CHUNK_DEFLATE
            && Field8(file, p + 4) == r.start && Field8(file, p + 12) == r.len && Field8(file, p + 20) == off &&
                Field8(file, p + 28) == r.expanded
            && Params(Field4(file, p + 44), Field4(file, p + 48), Field4(file, p + 52), Field4(file, p + 56),
                Field4(file, p + 60)) == q
  {
    DeflateHead(r, off);
    hide Write4, Write8, Head, Field4, Field8;
    var h, q := Head(r, off), r.params;
    var file := pre + h + rest;
    Part4(pre, h, rest, 0, CHUNK_DEFLATE);
    Part8(pre, h, rest, 4, r.start);
    Part8(pre, h, rest, 12, r.len);
    Part8(pre, h, rest, 20, off);
    Part8(pre, h, rest, 28, r.expanded);
    Part4(pre, h, rest, 44, q.level);
    Part4(pre, h, rest, 48, q.method_);
    Part4(pre, h, rest, 52, q.windowBits);
    Part4(pre, h, rest, 56, q.memLevel);
    Part4(pre, h, rest, 60, q.strategy);
  }

  lemma Part4(pre: seq<Byte>, h: seq<Byte>, rest: seq<Byte>, at: nat, v: int)
    requires at + 4 <= |h| && h[at..at + 4] == Write4(v) && -TWO31 <= v < TWO31
    ensures Field4(pre + h + rest, |pre| + at) == v
  {
    Slice(pre, h, rest, at, at + 4);
    Reads4(pre + h + rest, |pre| + at, v);
  }

  lemma Part8(pre: seq<Byte>, h: seq<Byte>, rest: seq<Byte>, at: nat, v: int)
    requires at + 8 <= |h| && h[at..at + 8] == Write8(v) && -TWO63 <= v < TWO63
    ensures Field8(pre + h + rest, |pre| + at) == v
  {
    Slice(pre, h, rest, at, at + 8);
    Reads8(pre + h + rest, |pre| + at, v);
  }

  lemma DeflateRead(src: seq<Byte>, pre: seq<Byte>, r: Record, off: int, rest: seq<Byte>, out: seq<Byte>, z: Codecs)
    requires r.DeflateRec? && Good(src, r, out, z) && 0 <= off < TWO63
    requires var file := pre + Head(r, off) + rest;
             off + |r.patch| <= |file| && file == file[..off] + r.patch + file[off + |r.patch|..]
    ensures OneChunk(src, pre + Head(r, off) + rest, |pre|, z) == Next([Seg(out, true)], |pre| + HeadSize(r))
  {
    hide Head, Field4, Field8, RawChunk, NormalChunk, OneChunk, Rebuilds, BsPatch.ApplyPatch;
    DeflateFields(pre, r, off, rest);
    var file := pre + Head(r, off) + rest;
    var source := z.inflate(src[r.start..r.start + r.len]).value.0;
    var t :| Rebuilds(source, r.patch, t, z.expand) && z.deflate(r.params, t) == out;
    RebuildsAt(source, r.patch, t, z.expand, file, off);
    IsDeflate(src, file, |pre|, z);
  }

  lemma IsDeflate(src: seq<Byte>, file: seq<Byte>, pos: nat, z: Codecs)
    requires pos + 4 <= |file| && Field4(file, pos) == CHUNK_DEFLATE
    ensures OneChunk(src, file, pos, z) == DeflateChunk(src, file, pos + 4, z)
  {
  }

  lemma IsNormal(src: seq<Byte>, file: seq<Byte>, pos: nat, z: Codecs)
    requires pos + 4 <= |file| && Field4(file, pos) == CHUNK_NORMAL
    ensures OneChunk(src, file, pos, z) == NormalChunk(src, file, pos + 4, z)
  {
  }

  /** The stretch a record gives rise to. */
  function SegOf(r: Record, out: seq<Byte>): (s: Seg)
  {
    Seg(out, !r.NormalRec?)
  }

  lemma RecordRead(src: seq<Byte>, pre: seq<Byte>, r: Record, off: int, rest: seq<Byte>, out: seq<Byte>, z: Codecs)
    requires Good(src, r, out, z) && 0 <= off < TWO63
    requires var file := pre + Head(r, off) + rest;
             off + |Body(r)| <= |file| && file == file[..off] + Body(r) + file[off + |Body(r)|..]
    ensures OneChunk(src, pre + Head(r, off) + rest, |pre|, z) == Next([SegOf(r, out)], |pre| + HeadSize(r))
  {
    hide OneChunk, Good, Head;
    match r
    case RawRec(_) => RawRead(src, pre, r, off, rest, out, z);
    case NormalRec(_, _, _) => NormalRead(src, pre, r, off, rest, out, z);
    case DeflateRec(_, _, _, _, _, _) => DeflateRead(src, pre, r, off, rest, out, z);
  }

  ghost function SegsOf(rs: seq<Record>, outs: seq<seq<Byte>>): (s: seq<Seg>)
    requires |rs| == |outs|
  {
    if rs == [] then [] else [SegOf(rs[0], outs[0])] + SegsOf(rs[1..], outs[1..])
  }

  /**
   Reading back the records rs, which follow pre, with other patches mid between them and their own:
   each recorded offset is where that record's patch is.
   */
  lemma {:induction false} RecordsRead(src: seq<Byte>, pre: seq<Byte>, rs: seq<Record>, mid: seq<Byte>,
      outs: seq<seq<Byte>>, z: Codecs)
    requires |rs| == |outs| && forall i :: 0 <= i < |rs| ==> Good(src, rs[i], outs[i], z)
    requires |pre| + HeadsSize(rs) + |mid| + |Bodies(rs)| < TWO63
    ensures var off := |pre| + HeadsSize(rs) + |mid|;
            Chunks(src, pre + Heads(rs, off) + mid + Bodies(rs), |pre|, |rs|, z) == Run(SegsOf(rs, outs), Complete)
    decreases |rs|
  {
    hide Good, Head, Body, OneChunk, Heads, Bodies;
    if rs != [] {
      var r, rs' := rs[0], rs[1..];
      var off := |pre| + HeadsSize(rs) + |mid|;
      var file := pre + Heads(rs, off) + mid + Bodies(rs);
      var tail := Heads(rs', off + |Body(r)|) + mid + Bodies(rs);
      FirstRecord(pre, rs, mid, off);
      RecordRead(src, pre, r, off, tail, outs[0], z);
      BodiesSplit(rs);
      RecordsRead(src, pre + Head(r, off), rs', mid + Body(r), outs[1..], z);
    } else {
      NoRecords(src, pre, mid, z);
    }
  }

  lemma BodiesSplit(rs: seq<Record>)
    requires rs != []
    ensures |Bodies(rs)| == |Body(rs[0])| + |Bodies(rs[1..])|
  {
  }

  lemma NoRecords(src: seq<Byte>, pre: seq<Byte>, mid: seq<Byte>, z: Codecs)
    ensures Chunks(src, pre + Heads([], |pre| + HeadsSize([]) + |mid|) + mid + Bodies([]), |pre|, 0, z) ==
              Run([], Complete)
  {
  }

  /** The same file seen from its first record, from that record's patch, and from the second record. */
  lemma FirstRecord(pre: seq<Byte>, rs: seq<Record>, mid: seq<Byte>, off: int)
    requires rs != [] && off == |pre| + HeadsSize(rs) + |mid|
    ensures var file, r, rs' := pre + Heads(rs, off) + mid + Bodies(rs), rs[0], rs[1..];
            && file == pre + Head(r, off) + (Heads(rs', off + |Body(r)|) + mid + Bodies(rs))
            && off + |Body(r)| <= |file| && file == file[..off] + Body(r) + file[off + |Body(r)|..]
            && file == (pre + Head(r, off)) + Heads(rs', off + |Body(r)|) + (mid + Body(r)) + Bodies(rs')
  {
    hide *;
    var r, rs' := rs[0], rs[1..];
    Unfold(rs, off);
    Regroup(pre, Head(r, off), Heads(rs', off + |Body(r)|), mid, Body(r), Bodies(rs'));
  }

  lemma Unfold(rs: seq<Record>, off: int)
    requires rs != []
    ensures Heads(rs, off) == Head(rs[0], off) + Heads(rs[1..], off + |Body(rs[0])|) &&
            |Heads(rs, off)| == HeadsSize(rs)
    ensures Bodies(rs) == Body(rs[0]) + Bodies(rs[1..])
  {
    hide Head, Body;
  }

  lemma Regroup(pre: seq<Byte>, h: seq<Byte>, hs: seq<Byte>, mid: seq<Byte>, b: seq<Byte>, bs: seq<Byte>)
    ensures var file, off := pre + (h + hs) + mid + (b + bs), |pre| + |h + hs| + |mid|;
            && file == pre + h + (hs + mid + (b + bs))
            && file[..off] == pre + (h + hs) + mid && file[off + |b|..] == bs
            && file == file[..off] + b + file[off + |b|..]
            && file == (pre + h) + hs + (mid + b) + bs
  {
    var file, off := pre + (h + hs) + mid + (b + bs), |pre| + |h + hs| + |mid|;
    assert file == (pre + (h + hs) + mid) + b + bs;
    assert file[..off] == pre + (h + hs) + mid;
    assert file[off + |b|..] == bs;
  }

  lemma SegsBytes(rs: seq<Record>, outs: seq<seq<Byte>>)
    requires |rs| == |outs|
    ensures Concat(SegsOf(rs, outs)) == Join(outs)
  {
    SegsOfAt(rs, outs);
    assert Stretches(SegsOf(rs, outs)) == outs;
  }

  lemma {:induction false} SegsOfAt(rs: seq<Record>, outs: seq<seq<Byte>>)
    requires |rs| == |outs|
    ensures |SegsOf(rs, outs)| == |outs| && forall i :: 0 <= i < |outs| ==> SegsOf(rs, outs)[i].bytes == outs[i]
  {
    if rs != [] { SegsOfAt(rs[1..], outs[1..]); }
  }

  /** A laid-out patch of good records makes the applier emit the chunks, one after the other, and finish. */
  lemma LayoutRead(src: seq<Byte>, rs: seq<Record>, outs: seq<seq<Byte>>, z: Codecs)
    requires |rs| == |outs| < TWO31 && |Layout(rs)| < TWO63
    requires forall i :: 0 <= i < |rs| ==> Good(src, rs[i], outs[i], z)
    ensures ImageRun(src, Layout(rs), z) == Run(SegsOf(rs, outs), Complete)
    ensures Concat(SegsOf(rs, outs)) == Join(outs)
  {
    hide Good, Heads, Bodies, Chunks, SegsOf, Concat;
    SegsBytes(rs, outs);
    var pre := MAGIC + Write4(|rs|);
    var off := 12 + HeadsSize(rs);
    var file := Layout(rs);
    assert file == pre + Heads(rs, off) + [] + Bodies(rs);
    RecordsRead(src, pre, rs, [], outs, z);
    assert file[8..12] == Write4(|rs|) && file[..8] == MAGIC;
    Reads4(file, 8, |rs|);
    if |rs| == 0 { NoChunks(src, file, 12, z); }
  }

  lemma NoChunks(src: seq<Byte>, file: seq<Byte>, pos: nat, z: Codecs)
    ensures Chunks(src, file, pos, 0, z) == Run([], Complete)
  {
  }

  // ---------------------------------------------------------------- writing the file

  /** The header's size, added up chunk by chunk (imgdiff.c:936-950). */
  method TotalHeaderSize(rs: seq<Record>) returns (total: nat)
    ensures total == 12 + HeadsSize(rs)
  {
    total := 12;
    var i := 0;
    while i < |rs|
      invariant 0 <= i <= |rs|
      invariant total + HeadsSize(rs[i..]) == 12 + HeadsSize(rs)
    {
      total := total + 4;
      match rs[i] {
        case NormalRec(_, _, _) => total := total + 8 * 3;
        case DeflateRec(_, _, _, _, _, _) => total := total + 8 * 5 + 4 * 5;
        case RawRec(data) => total := total + 4 + |data|;
      }
      assert rs[i..][1..] == rs[i + 1..];
      i := i + 1;
    }
  }

  /** Writes headers and then patches, with a running offset (imgdiff.c:952-1007). */
  method WriteImgDiff(rs: seq<Record>) returns (f: seq<Byte>)
    ensures f == Layout(rs)
  {
    hide Head, HeadsSize, Body;
    var offset := TotalHeaderSize(rs);
    ghost var base := offset;
    f := MAGIC + Write4(|rs|);
    ghost var intro := f;
    var i := 0;
    while i < |rs|
      invariant 0 <= i <= |rs|
      invariant f + Heads(rs[i..], offset) == intro + Heads(rs, base)
    {
      assert rs[i..][1..] == rs[i + 1..] && rs[i..][0] == rs[i];
      f := f + Head(rs[i], offset);
      offset := offset + |Body(rs[i])|;
      i := i + 1;
    }
    assert f + Heads([], offset) == f;
    i := 0;
    ghost var head := f;
    while i < |rs|
      invariant 0 <= i <= |rs|
      invariant f + Bodies(rs[i..]) == head + Bodies(rs)
    {
      assert rs[i..][1..] == rs[i + 1..] && rs[i..][0] == rs[i];
      f := f + Body(rs[i]);
      i := i + 1;
    }
    assert f + Bodies([]) == f;
  }
}
