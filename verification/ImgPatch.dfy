/**
 Applying an image patch (imgpatch.c).  zlib and bzip2 are parameters.  The result is the list of
 stretches handed to the output sink, in order.
 */
module ImgPatch {
  import opened Bytes
  import opened Codec
  import opened Wrappers
  import BsPatch

  const CHUNK_NORMAL := 0
  const CHUNK_DEFLATE := 2
  const CHUNK_RAW := 3

  const MAGIC: seq<Byte> := [0x49, 0x4d, 0x47, 0x44, 0x49, 0x46, 0x46, 0x32] // "IMGDIFF2"

  /** The arguments of deflateInit2. */
  datatype Params = Params(level: int, method_: int, windowBits: int, memLevel: int, strategy: int)

  /** inflate gives the raw stream's data and the number of bytes it occupies, or nothing if it never ends. */
  datatype Codecs = Codecs(
    expand: BsPatch.Expand,
    inflate: seq<Byte> -> Option<(seq<Byte>, nat)>,
    deflate: (Params, seq<Byte>) -> seq<Byte>)

  /** A stretch for the sink; an unchecked one is written without looking at the result (imgpatch.c:80). */
  datatype Seg = Seg(bytes: seq<Byte>, isChecked: bool)

  datatype Status = Complete | Failed | Undefined

  datatype Run = Run(segs: seq<Seg>, status: Status)

  /** What one chunk record does: the stretches it emits, and where the next record starts. */
  datatype Effect = Next(segs: seq<Seg>, pos: int) | Stop(status: Status)

  function Field8(patch: seq<Byte>, at: nat): (v: int)
    requires at + 8 <= |patch|
  {
    Read8(patch[at..at + 8])
  }

  function Field4(patch: seq<Byte>, at: nat): (v: int)
    requires at + 4 <= |patch|
  {
    Read4(patch[at..at + 4])
  }

  /** imgpatch.c:68-81 */
  function NormalChunk(src: seq<Byte>, patch: seq<Byte>, pos: nat, z: Codecs): (r: Effect)
  {
    if pos + 24 > |patch| then Stop(Failed)
    else
      var start, len, off := Field8(patch, pos), Field8(patch, pos + 8), Field8(patch, pos + 16);
      if start < 0 || len < 0 || start + len > |src| then Stop(Undefined)
      else match BsPatch.ApplyPatch(src[start..start + len], patch, off, z.expand)
        case Done(data, _, _, _) => Next([Seg(data, false)], pos + 24)
        case Corrupt => Next([], pos + 24)
        case Undefined => Stop(Undefined)
  }

  /** imgpatch.c:82-102 */
  function RawChunk(patch: seq<Byte>, pos: nat): (r: Effect)
  {
    if pos + 4 > |patch| then Stop(Failed)
    else
      var len := Field4(patch, pos);
      if len < 0 then Stop(Undefined)
      else if pos + 4 + len > |patch| then Stop(Failed)
      else Next([Seg(patch[pos + 4..pos + 4 + len], true)], pos + 4 + len)
  }

  /** imgpatch.c:103-211 */
  function DeflateChunk(src: seq<Byte>, patch: seq<Byte>, pos: nat, z: Codecs): (r: Effect)
  {
    if pos + 60 > |patch| then Stop(Failed)
    else
      var start, len, off, expanded := Field8(patch, pos), Field8(patch, pos + 8), Field8(patch, pos + 16),
          Field8(patch, pos + 24);
      var params := Params(Field4(patch, pos + 40), Field4(patch, pos + 44), Field4(patch, pos + 48),
          Field4(patch, pos + 52), Field4(patch, pos + 56));
      if start < 0 || len < 0 || start + len > |src| || expanded < 0 then Stop(Undefined)
      else match z.inflate(src[start..start + len])
        case None => Stop(Failed)
        case Some((source, _)) =>
          if |source| != expanded then Stop(Failed)
          else match BsPatch.ApplyPatch(source, patch, off, z.expand)
            case Done(data, _, _, _) => Next([Seg(z.deflate(params, data), true)], pos + 60)
            case Corrupt => Stop(Failed)
            case Undefined => Stop(Undefined)
  }

  function OneChunk(src: seq<Byte>, patch: seq<Byte>, pos: nat, z: Codecs): (r: Effect)
    ensures r.Next? ==> r.pos >= pos
  {
    if pos + 4 > |patch| then Stop(Failed)
    else
      var kind := Field4(patch, pos);
      if kind == CHUNK_NORMAL then NormalChunk(src, patch, pos + 4, z)
      else if kind == CHUNK_RAW then RawChunk(patch, pos + 4)
      else if kind == CHUNK_DEFLATE then DeflateChunk(src, patch, pos + 4, z)
      else Stop(Failed)
  }

  /** The records of n chunks, from pos on. */
  function Chunks(src: seq<Byte>, patch: seq<Byte>, pos: nat, n: nat, z: Codecs): (r: Run)
    decreases n
  {
    if n == 0 then Run([], Complete)
    else match OneChunk(src, patch, pos, z)
      case Stop(status) => Run([], status)
      case Next(segs, pos') =>
        var rest := Chunks(src, patch, pos', n - 1, z);
        Run(segs + rest.segs, rest.status)
  }

  function ImageRun(src: seq<Byte>, patch: seq<Byte>, z: Codecs): (r: Run)
  {
    if |patch| < 12 || patch[..8] != MAGIC then Run([], Failed)
    else
      var n := Field4(patch, 8);
      if n <= 0 then Run([], Complete) else Chunks(src, patch, 12, n, z)
  }

  function Stretches(segs: seq<Seg>): (bs: seq<seq<Byte>>)
    ensures |bs| == |segs| && forall i :: 0 <= i < |segs| ==> bs[i] == segs[i].bytes
  {
    seq(|segs|, i requires 0 <= i < |segs| => segs[i].bytes)
  }

  /** All that is handed to the sink. */
  function Concat(segs: seq<Seg>): (out: seq<Byte>)
  {
    Join(Stretches(segs))
  }

  /** ApplyImagePatch (imgpatch.c:38-219), a sink taking whatever it is given. */
  method ApplyImagePatch(src: seq<Byte>, patch: seq<Byte>, z: Codecs) returns (segs: seq<Seg>, status: Status)
    ensures Run(segs, status) == ImageRun(src, patch, z)
  {
    hide OneChunk, Read4, Concat;
    segs := [];
    if |patch| < 12 || patch[..8] != MAGIC { return segs, Failed; }
    var n, pos, i := Field4(patch, 8), 12, 0;
    if n <= 0 { return segs, Complete; }
    while i < n
      invariant 0 <= i <= n && 12 <= pos
      invariant ImageRun(src, patch, z) ==
                Run(segs + Chunks(src, patch, pos, n - i, z).segs, Chunks(src, patch, pos, n - i, z).status)
    {
      var effect := OneChunk(src, patch, pos, z);
      match effect {
        case Stop(s) =>
          return segs, s;
        case Next(more, pos') =>
          ghost var rest := Chunks(src, patch, pos', n - i - 1, z);
          assert segs + (more + rest.segs) == segs + more + rest.segs;
          segs, pos := segs + more, pos';
      }
      i := i + 1;
    }
    status := Complete;
  }
}
