/**
 The update path from end to end: a patch made by bsdiff or imgdiff for two files is one that applypatch installs, and
 what it installs in place of the first has the digest of the second.
 */
module OtaUpdate {
  import opened Bytes
  import opened Codec
  import opened Wrappers
  import opened Sha1Text
  import opened FileSystem
  import FreeCache
  import opened ImgPatch
  import BsPatch
  import BsDiff
  import ImgFormat
  import ImgDiff
  import ImgRead
  import ImgUpdate
  import opened ApplyPatch

  lemma OneSeg(t: seq<Byte>)
    ensures Concat([Seg(t, true)]) == t
  {
    assert Stretches([Seg(t, true)]) == [] + [t];
    JoinLast([], t);
    assert Join([]) == [];
  }

  /** A bsdiff patch that makes t out of s is one for applypatch. */
  lemma BsdiffMakes(s: seq<Byte>, t: seq<Byte>, patch: seq<Byte>, sha: Sha, z: Codecs)
    requires BsPatch.ApplyPatch(s, patch, 0, z.expand) == BsPatch.Done(t, [], [], [])
    ensures Makes(s, Blob(patch), sha, sha(t), z)
  {
    OneSeg(t);
    hide Concat, BsPatch.Apply, OfftIn;
    assert patch[..8] == patch[0..8];
  }

  /** So is an image patch that rebuilds t from s. */
  lemma ImageMakes(s: seq<Byte>, t: seq<Byte>, patch: seq<Byte>, sha: Sha, z: Codecs)
    requires ImgDiff.RebuildsImage(s, patch, t, z)
    ensures Makes(s, Blob(patch), sha, sha(t), z)
  {
    assert BsPatch.MAGIC[0] == 0x42 && ImgPatch.MAGIC[0] == 0x49;
    hide Concat, Chunks, Read4;
  }

  /** What applypatch is told: one patch, for a source of this digest, and the digest and size it should give. */
  function JobFor(source: string, target: string, s: seq<Byte>, t: seq<Byte>, patch: seq<Byte>, sha: Sha): (job: Job)
  {
    Job(source, target, ToText(sha(t)), |t|, [ToText(sha(s))], [Blob(patch)])
  }

  /** Digests have twenty bytes, and nothing else has that of s. */
  ghost predicate Distinct(s: seq<Byte>, sha: Sha)
  {
    (forall b :: |sha(b)| == 20) && forall b :: sha(b) == sha(s) ==> b == s
  }

  lemma RightJob(source: string, target: string, s: seq<Byte>, t: seq<Byte>, patch: seq<Byte>, sha: Sha, z: Codecs)
    requires Distinct(s, sha) && Makes(s, Blob(patch), sha, sha(t), z)
    ensures Right(JobFor(source, target, s, t, patch, sha), sha, z)
  {
    hide Makes, Parse, ToText;
    ParseText(sha(t));
    ParseText(sha(s));
    var job := JobFor(source, target, s, t, patch, sha);
    forall i, src | Selects(job, i, sha(src))
      ensures Makes(src, job.patches[i], sha, sha(t), z)
    {
      assert i == 0 && sha(src) == sha(s);
    }
  }

  lemma SafeJob(files: Files, source: string, target: string, s: seq<Byte>, t: seq<Byte>, patch: seq<Byte>, sha: Sha)
    requires source in files && files[source] == s && Distinct(s, sha)
    ensures Safe(files, JobFor(source, target, s, t, patch, sha), sha)
  {
    hide Parse, ToText;
    ParseText(sha(s));
    assert [ToText(sha(s))][0] == ToText(sha(s));
  }

  lemma DoneMeans(files: Files, source: string, target: string, s: seq<Byte>, t: seq<Byte>, patch: seq<Byte>, sha: Sha)
    requires TargetDone(files, JobFor(source, target, s, t, patch, sha), sha) && Distinct(s, sha)
    ensures target in files && sha(files[target]) == sha(t)
  {
    hide Parse, ToText;
    ParseText(sha(t));
  }

  /** The device on which a patch is to be installed: the source is there, nothing fails, and there is room. */
  ghost predicate ReadyFor(disk: Disk, job: Job, s: seq<Byte>, sha: Sha, kernel: Kernel)
    reads disk
  {
    && disk.Valid() && disk.legible && disk.steady && disk.obliging && JobOk(job) && KernelOk(kernel)
    && job.source in disk.files && disk.files[job.source] == s && Roomy(kernel, disk.files, job, sha)
  }

  /** Which patch it is does not matter for that. */
  lemma ReadyForAny(disk: Disk, source: string, target: string, s: seq<Byte>, t: seq<Byte>, patch: seq<Byte>, sha: Sha,
      kernel: Kernel)
    requires ReadyFor(disk, JobFor(source, target, s, t, [], sha), s, sha, kernel)
    ensures ReadyFor(disk, JobFor(source, target, s, t, patch, sha), s, sha, kernel)
  {
    hide EnoughSpace, CacheRoom, Accepted, KernelOk, FreeCache.InExpendableDir;
  }

  /** Installs a patch that makes t out of s. */
  method Deliver(disk: Disk, source: string, target: string, s: seq<Byte>, t: seq<Byte>, patch: seq<Byte>, sha: Sha,
      z: Codecs, kernel: Kernel) returns (code: int)
    requires ReadyFor(disk, JobFor(source, target, s, t, patch, sha), s, sha, kernel) && Distinct(s, sha)
    requires Makes(s, Blob(patch), sha, sha(t), z)
    modifies disk
    ensures code == 0 && target in disk.files && sha(disk.files[target]) == sha(t)
  {
    var job := JobFor(source, target, s, t, patch, sha);
    RightJob(source, target, s, t, patch, sha, z);
    SafeJob(disk.files, source, target, s, t, patch, sha);
    hide Makes, Right, Roomy, Safe, TargetDone, JobOk, KernelOk, Distinct, ApplyPatch.Replaced, Sound, BehavedHere,
        JobFor, NoImages;
    code := ApplyPatch.ApplyPatch(disk, job, sha, z, kernel);
    DoneMeans(disk.files, source, target, s, t, patch, sha);
  }

  /** bsdiff here, applypatch there. */
  method UpdateFile(disk: Disk, source: string, target: string, s: seq<Byte>, t: seq<Byte>, compress: BsDiff.Compress,
      sha: Sha, z: Codecs, kernel: Kernel) returns (patch: seq<Byte>, code: int)
    requires |s| < TWO63 && |t| < TWO63 && BsDiff.Inverse2(compress, z.expand) && Distinct(s, sha)
    requires ReadyFor(disk, JobFor(source, target, s, t, [], sha), s, sha, kernel)
    modifies disk
    ensures |patch| < TWO63 ==> code == 0 && target in disk.files && sha(disk.files[target]) == sha(t)
  {
    hide *;
    var _, p := BsDiff.BsDiff(s, [], t, compress, z.expand);
    patch, code := p, 1;
    if |patch| < TWO63 {
      assert [] + patch + [] == patch;
      BsdiffMakes(s, t, patch, sha, z);
      ReadyForAny(disk, source, target, s, t, patch, sha, kernel);
      code := Deliver(disk, source, target, s, t, patch, sha, z, kernel);
    }
  }

  /** imgdiff here, applypatch there, for images of the same shape that are read to their ends. */
  method UpdateImage(disk: Disk, source: string, target: string, s: seq<Byte>, t: seq<Byte>, compress: BsDiff.Compress,
      sha: Sha, z: Codecs, kernel: Kernel) returns (patch: Option<seq<Byte>>, code: int)
    requires |s| + 4 < TWO63 && |t| < TWO31 && BsDiff.Inverse2(compress, z.expand) && Distinct(s, sha)
    requires ImgRead.Streaming(z) && ImgRead.EndingFrom(s, 0, z) == ImgRead.Covered == ImgRead.EndingFrom(t, 0, z)
    requires ReadyFor(disk, JobFor(source, target, s, t, [], sha), s, sha, kernel)
    modifies disk
    ensures patch.Some? <==> ImgUpdate.SameShape(s, t, z)
    ensures patch.Some? && |patch.value| < TWO63 ==>
              code == 0 && target in disk.files && sha(disk.files[target]) == sha(t)
  {
    TakenWhole(s, t, z);
    hide *;
    ghost var rs;
    patch, rs := ImgUpdate.DiffImages(s, t, compress, z);
    code := 1;
    if patch.Some? && |patch.value| < TWO63 {
      Rebuilt(s, t, patch.value, rs, z);
      ImageMakes(s, t, patch.value, sha, z);
      ReadyForAny(disk, source, target, s, t, patch.value, sha, kernel);
      code := Deliver(disk, source, target, s, t, patch.value, sha, z, kernel);
    }
  }

  lemma TakenWhole(s: seq<Byte>, t: seq<Byte>, z: Codecs)
    requires ImgRead.EndingFrom(s, 0, z) == ImgRead.Covered == ImgRead.EndingFrom(t, 0, z)
    ensures ImgUpdate.Taken(s, z) == s && ImgUpdate.Taken(t, z) == t
  {
  }

  lemma Rebuilt(s: seq<Byte>, t: seq<Byte>, patch: seq<Byte>, rs: seq<ImgFormat.Record>, z: Codecs)
    requires patch == ImgFormat.Layout(rs) && |patch| < TWO63 && |t| < TWO31
    requires ImgUpdate.Storable(patch, t) ==> ImgUpdate.Outcomes(s, t, s, t, rs, z)
    ensures ImgDiff.RebuildsImage(s, patch, t, z)
  {
    hide ImgDiff.RebuildsImage, ImgFormat.Layout;
  }
}
