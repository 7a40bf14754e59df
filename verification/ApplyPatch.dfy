/**
 Crash-safe installation of a patch over a regular file (applypatch, applypatch.c:525-816).

 The promise: however often the program is stopped and started again, at every moment either the target is
 already what it should be, or the source, or the copy of it in the cache, is still one the patches apply to.
 */
module ApplyPatch {
  import opened Bytes
  import opened Wrappers
  import opened Sha1Text
  import opened FileSystem
  import opened FreeCache
  import opened ImgPatch
  import BsPatch

  datatype PatchValue = Blob(data: seq<Byte>) | NotBlob

  /** The arguments of applypatch, "-" already replaced by the source's name. */
  datatype Job = Job(source: string, target: string, targetSha1: string, targetSize: nat, patchSha1: seq<string>,
      patches: seq<PatchValue>)

  type Sha = seq<Byte> -> seq<Byte>

  /**
   What the kernel contributes: free space on the target's file system and on the cache, directory listings, open
   files.
   */
  datatype Kernel = Kernel(room: Files -> nat, space: Files -> nat, listing: Listing, isOpen: set<string>)

  ghost predicate KernelOk(k: Kernel)
  {
    Plausible(k.listing)
  }

  function OutName(target: string): (r: string)
  {
    target + ".patch"
  }

  /** The name of a flash partition rather than a file (applypatch.c:47, 621 and 664). */
  predicate IsMtd(name: string)
  {
    "MTD:" <= name
  }

  /** Regular files, outside the directories that may be emptied, the source not being the output's own name. */
  ghost predicate JobOk(job: Job)
  {
    && !IsMtd(job.source) && !IsMtd(job.target)
    && !InExpendableDir(job.source) && !InExpendableDir(job.target) && job.source != OutName(job.target)
    && |job.patches| == |job.patchSha1|
  }

  ghost predicate TargetDone(files: Files, job: Job, sha: Sha)
  {
    job.target in files && Parse(job.targetSha1) == Some(sha(files[job.target]))
  }

  /** path holds something one of the patches applies to. */
  ghost predicate Usable(files: Files, path: string, job: Job, sha: Sha)
  {
    path in files && Accepted(sha(files[path]), job.patchSha1)
  }

  ghost predicate Safe(files: Files, job: Job, sha: Sha)
  {
    TargetDone(files, job, sha) || Usable(files, job.source, job, sha) || Usable(files, CACHE_TEMP_SOURCE, job, sha)
  }

  /** The data being patched is still on disk, at the source or in the cache. */
  ghost predicate Secured(files: Files, job: Job, data: seq<Byte>)
  {
    (job.source in files && files[job.source] == data) ||
        (CACHE_TEMP_SOURCE in files && files[CACHE_TEMP_SOURCE] == data)
  }

  lemma Names(job: Job)
    requires JobOk(job)
    ensures InExpendableDir(CACHE_TEMP_SOURCE)
    ensures job.source != CACHE_TEMP_SOURCE && job.target != CACHE_TEMP_SOURCE
    ensures OutName(job.target) != CACHE_TEMP_SOURCE && OutName(job.target) != job.target &&
            OutName(job.target) != job.source
  {
    TempInCache();
    var o := OutName(job.target);
    assert o[|o| - 1] == 'h' && CACHE_TEMP_SOURCE[|CACHE_TEMP_SOURCE| - 1] == 'e';
    hide InDir;
  }

  lemma SecuredSafe(files: Files, job: Job, data: seq<Byte>, sha: Sha)
    requires Secured(files, job, data) && Accepted(sha(data), job.patchSha1)
    ensures Safe(files, job, sha)
  {
  }

  // ---------------------------------------------------------------- running the patch

  /** The kind of a patch is told from its first bytes (applypatch.c:742-753). */
  function PatchRun(src: seq<Byte>, patch: seq<Byte>, z: Codecs): (r: Option<Run>)
  {
    if |patch| >= 8 && patch[..8] == BsPatch.MAGIC then
      match BsPatch.ApplyPatch(src, patch, 0, z.expand)
      case Done(data, _, _, _) => Some(Run([Seg(data, true)], Complete))
      case Corrupt => Some(Run([], Failed))
      case Undefined => Some(Run([], Undefined))
    else if |patch| >= 8 && patch[..8] == ImgPatch.MAGIC then Some(ImageRun(src, patch, z))
    else None
  }

  /** On every input whose digest selects it, every patch keeps the C code within its buffers. */
  ghost predicate Behaved(job: Job, sha: Sha, z: Codecs)
  {
    forall i, src :: Selects(job, i, sha(src)) && job.patches[i].Blob? ==> !OutOfBounds(src, job.patches[i].data, z)
  }

  /** On the source and the copy now on disk they do so. */
  ghost predicate BehavedHere(files: Files, job: Job, sha: Sha, z: Codecs)
  {
    forall i, src :: Secured(files, job, src) && Selects(job, i, sha(src)) && job.patches[i].Blob? ==>
      !OutOfBounds(src, job.patches[i].data, z)
  }

  /** No patch is an image patch. */
  ghost predicate NoImages(job: Job)
  {
    forall p :: p in job.patches && p.Blob? ==> !IsImage(p.data)
  }

  predicate IsImage(patch: seq<Byte>)
  {
    |patch| >= 8 && patch[..8] == ImgPatch.MAGIC
  }

  /** The patch makes out of src something with this digest. */
  ghost predicate Makes(src: seq<Byte>, patch: PatchValue, sha: Sha, sha1: seq<Byte>, z: Codecs)
  {
    && patch.Blob? && PatchRun(src, patch.data, z).Some?
    && var run := PatchRun(src, patch.data, z).value; run.status == Complete && sha(Concat(run.segs)) == sha1
  }

  /** Every patch makes the target out of every input whose digest selects it. */
  ghost predicate Right(job: Job, sha: Sha, z: Codecs)
  {
    && Parse(job.targetSha1).Some?
    && forall i, src :: Selects(job, i, sha(src)) ==> Makes(src, job.patches[i], sha, Parse(job.targetSha1).value, z)
  }

  /** The patch drives the C code out of its buffers. */
  ghost predicate OutOfBounds(src: seq<Byte>, patch: seq<Byte>, z: Codecs)
  {
    PatchRun(src, patch, z).Some? && PatchRun(src, patch, z).value.status == Undefined
  }

  /**
   The digest gives lost writes away when src is patched: whichever unchecked stretches of the output are cut short, if
   what is then hashed has the target's digest, so has the file.
   */
  ghost predicate DiscerningOn(src: seq<Byte>, job: Job, sha: Sha, z: Codecs)
  {
    forall i, file, hashed :: Selects(job, i, sha(src)) && Partly(src, job.patches[i], file, hashed, z) ==>
      Trusty(file, hashed, job, sha)
  }

  /** It does so for the source and the copy now on disk. */
  ghost predicate DiscerningHere(files: Files, job: Job, sha: Sha, z: Codecs)
  {
    forall src :: Secured(files, job, src) ==> DiscerningOn(src, job, sha, z)
  }

  /** It does so for whatever the patches accept. */
  ghost predicate Discerning(job: Job, sha: Sha, z: Codecs)
  {
    forall src :: DiscerningOn(src, job, sha, z)
  }

  /** What a run from these files needs for its promise, depending on whether it loses a write. */
  ghost predicate Sound(files: Files, job: Job, sha: Sha, z: Codecs, lost: bool)
  {
    BehavedHere(files, job, sha, z) && (lost ==> DiscerningHere(files, job, sha, z))
  }

  ghost predicate Trusty(file: seq<Byte>, hashed: seq<Byte>, job: Job, sha: Sha)
  {
    Parse(job.targetSha1) == Some(sha(hashed)) ==> Parse(job.targetSha1) == Some(sha(file))
  }

  /** What a successful run of the patch may leave in the file, and what it then has hashed. */
  ghost predicate Partly(src: seq<Byte>, patch: PatchValue, file: seq<Byte>, hashed: seq<Byte>, z: Codecs)
  {
    patch.Blob? && PatchRun(src, patch.data, z).Some? && Left(PatchRun(src, patch.data, z).value.segs, file, hashed)
  }

  // ---------------------------------------------------------------- the sink

  /** What reaches the file when the i-th stretch is written up to dones[i]. */
  ghost function Filed(segs: seq<Seg>, dones: seq<nat>): (b: seq<Byte>)
    requires Writes(segs, dones)
  {
    if dones == [] then [] else Filed(segs, dones[..|dones| - 1]) + segs[|dones| - 1].bytes[..dones[|dones| - 1]]
  }

  /** What is hashed: the stretches written in full. */
  ghost function Hashed(segs: seq<Seg>, dones: seq<nat>): (b: seq<Byte>)
    requires Writes(segs, dones)
  {
    if dones == [] then []
    else
      var n := |dones| - 1;
      Hashed(segs, dones[..n]) + if dones[n] == |segs[n].bytes| then segs[n].bytes else []
  }

  ghost predicate Writes(segs: seq<Seg>, dones: seq<nat>)
  {
    |dones| <= |segs| && forall i :: 0 <= i < |dones| ==> dones[i] <= |segs[i].bytes|
  }

  /** Every stretch whose writing is checked was written in full. */
  ghost predicate Noticed(segs: seq<Seg>, dones: seq<nat>)
  {
    forall i :: 0 <= i < |dones| && i < |segs| && segs[i].isChecked ==> dones[i] == |segs[i].bytes|
  }

  /** Writing the stretches, some unchecked ones perhaps not to their end, leaves this file and has hashed that. */
  ghost predicate Left(segs: seq<Seg>, file: seq<Byte>, hashed: seq<Byte>)
  {
    exists dones :: |dones| == |segs| && Writes(segs, dones) && Noticed(segs, dones) && file == Filed(segs, dones) &&
        hashed == Hashed(segs, dones)
  }

  /** Some stretch was not written in full. */
  ghost predicate Lossy(segs: seq<Seg>, dones: seq<nat>)
  {
    exists i :: 0 <= i < |dones| && i < |segs| && dones[i] < |segs[i].bytes|
  }

  /** Without loss the file, the hashed bytes and the output of the patch are the same; with it, less is hashed. */
  lemma {:induction false} SinkExact(segs: seq<Seg>, dones: seq<nat>)
    requires Writes(segs, dones)
    ensures !Lossy(segs, dones) ==> Filed(segs, dones) == Hashed(segs, dones) == Concat(segs[..|dones|])
    ensures |Hashed(segs, dones)| <= |Concat(segs[..|dones|])|
    ensures Lossy(segs, dones) ==> |Hashed(segs, dones)| < |Concat(segs[..|dones|])|
    decreases |dones|
  {
    if dones == [] {
      assert segs[..0] == [];
    } else {
      var n := |dones| - 1;
      var init, done, b := dones[..n], dones[n], segs[n].bytes;
      assert dones == init + [done];
      hide Filed, Hashed, Lossy, Concat;
      SinkExact(segs, init);
      ConcatNext(segs, n);
      SinkNext(segs, init, done);
      if done == |b| { assert b[..done] == b; }
    }
  }

  /**
   A lost write can pass for success: one of two bytes reaches the file, none is hashed, and the empty string has the
   digest asked for.
   */
  lemma LossUnnoticed(d: seq<Byte>, d': seq<Byte>)
    requires d != d'
    ensures var segs, sha := [Seg([1, 2], false)], (b: seq<Byte>) => if b == [] then d else d';
            sha(Hashed(segs, [1])) == d && sha(Filed(segs, [1])) != d && sha(Concat(segs)) != d
  {
    var segs := [Seg([1, 2], false)];
    assert [1][..0] == [] && Filed(segs, []) == [] && Hashed(segs, []) == [];
    assert segs[..1] == segs && segs[..0] == [];
    ConcatNext(segs, 0);
    assert Filed(segs, [1]) == [1, 2][..1];
  }

  /**
   Writes the stretches of a run to the output file, hashing them as it goes (bspatch.c:112-118 and imgpatch.c).  A
   short write of an unchecked stretch goes unnoticed, but its bytes are not hashed either.
   */
  method WriteRun(disk: Disk, out: string, run: Run) returns (ok: bool, hashed: seq<Byte>)
    requires disk.Valid() && out in disk.files && disk.files[out] == []
    modifies disk`files, disk`history, disk`lostWrites
    ensures disk.Valid() && old(disk.history) <= disk.history && out in disk.files &&
            disk.lostWrites >= old(disk.lostWrites)
    ensures Since(disk.history, |old(disk.history)|, st => OnlyAt(old(disk.files), st, out)) &&
            OnlyAt(old(disk.files), disk.files, out)
    ensures ok ==> run.status == Complete
    ensures ok ==> Left(run.segs, disk.files[out], hashed)
    ensures ok && disk.lostWrites == old(disk.lostWrites) ==> disk.files[out] == hashed == Concat(run.segs)
    ensures ok && disk.lostWrites > old(disk.lostWrites) ==> |hashed| < |Concat(run.segs)|
    ensures disk.steady || (forall s :: s in run.segs ==> s.isChecked) ==> disk.lostWrites == old(disk.lostWrites)
    ensures disk.steady && run.status == Complete ==> ok
  {
    ghost var dones;
    hide Sunk;
    ok, hashed, dones := WriteSegs(disk, out, run.segs);
    if ok { SunkAll(run.segs, dones, disk.files[out], hashed, disk.lostWrites > old(disk.lostWrites)); }
    ok := ok && run.status == Complete;
  }

  /** After writing dones the file and the hash are as they should be, and lost tells whether anything is missing. */
  ghost predicate Sunk(segs: seq<Seg>, dones: seq<nat>, file: seq<Byte>, hashed: seq<Byte>, lost: bool)
  {
    && Writes(segs, dones) && Noticed(segs, dones) && (lost <==> Lossy(segs, dones))
    && file == Filed(segs, dones) && hashed == Hashed(segs, dones)
  }

  lemma SunkAll(segs: seq<Seg>, dones: seq<nat>, file: seq<Byte>, hashed: seq<Byte>, lost: bool)
    requires Sunk(segs, dones, file, hashed, lost) && |dones| == |segs|
    ensures if lost then |hashed| < |Concat(segs)| else file == hashed == Concat(segs)
    ensures Left(segs, file, hashed)
  {
    SinkExact(segs, dones);
    assert segs[..|dones|] == segs;
  }

  method WriteSegs(disk: Disk, out: string, segs: seq<Seg>) returns (ok: bool, hashed: seq<Byte>, ghost dones: seq<nat>)
    requires disk.Valid() && out in disk.files && disk.files[out] == []
    modifies disk`files, disk`history, disk`lostWrites
    ensures disk.Valid() && old(disk.history) <= disk.history && out in disk.files &&
            disk.lostWrites >= old(disk.lostWrites)
    ensures Since(disk.history, |old(disk.history)|, st => OnlyAt(old(disk.files), st, out)) &&
            OnlyAt(old(disk.files), disk.files, out)
    ensures ok ==>
              |dones| == |segs| && Sunk(segs, dones, disk.files[out], hashed, disk.lostWrites > old(disk.lostWrites))
    ensures disk.steady || (forall s :: s in segs ==> s.isChecked) ==> disk.lostWrites == old(disk.lostWrites)
    ensures disk.steady ==> ok
  {
    hashed, dones := [], [];
    ghost var base, n, h := disk.files, disk.lostWrites, |disk.history|;
    SunkNothing(segs);
    assert OnlyAt(base, base, out);
    hide Sunk, OnlyAt;
    var i := 0;
    while i < |segs|
      invariant 0 <= i <= |segs| && disk.Valid() && old(disk.history) <= disk.history && out in disk.files
      invariant Since(disk.history, h, st => OnlyAt(base, st, out)) && OnlyAt(base, disk.files, out)
      invariant |dones| == i && Sunk(segs, dones, disk.files[out], hashed, disk.lostWrites > n)
      invariant disk.lostWrites >= n &&
                (disk.steady || (forall s :: s in segs ==> s.isChecked) ==> disk.lostWrites == n)
    {
      ok, hashed, dones := WriteSeg(disk, out, segs, i, hashed, dones, base, n, h);
      if !ok { return; }
      i := i + 1;
    }
    ok := true;
  }

  /** One stretch. */
  method WriteSeg(disk: Disk, out: string, segs: seq<Seg>, i: nat, hashed: seq<Byte>, ghost dones: seq<nat>,
      ghost base: Files, ghost n: nat, ghost h: nat)
    returns (ok: bool, hashed': seq<Byte>, ghost dones': seq<nat>)
    requires disk.Valid() && out in disk.files && |dones| == i < |segs| && disk.lostWrites >= n
    requires Since(disk.history, h, st => OnlyAt(base, st, out)) && OnlyAt(base, disk.files, out)
    requires Sunk(segs, dones, disk.files[out], hashed, disk.lostWrites > n)
    modifies disk`files, disk`history, disk`lostWrites
    ensures disk.Valid() && old(disk.history) <= disk.history && out in disk.files &&
            disk.lostWrites >= old(disk.lostWrites)
    ensures Since(disk.history, h, st => OnlyAt(base, st, out)) && OnlyAt(base, disk.files, out)
    ensures ok ==> |dones'| == i + 1 && Sunk(segs, dones', disk.files[out], hashed', disk.lostWrites > n)
    ensures disk.steady || segs[i].isChecked ==> disk.lostWrites == old(disk.lostWrites)
    ensures disk.steady ==> ok
  {
    hide Sunk;
    var seg := segs[i];
    var done := disk.Write(out, seg.bytes);
    assert forall st :: OnlyAt(old(disk.files), st, out) ==> OnlyAt(base, st, out);
    dones', hashed', ok := dones + [done], hashed, true;
    if done < |seg.bytes| && seg.isChecked {
      return false, hashed', dones';
    }
    SunkNext(segs, dones, old(disk.files[out]), hashed, disk.lostWrites > n, done);
    if done == |seg.bytes| {
      hashed' := hashed + seg.bytes;
    } else {
      disk.lostWrites := disk.lostWrites + 1;
    }
  }

  lemma SunkNothing(segs: seq<Seg>)
    ensures Sunk(segs, [], [], [], false)
  {
  }

  lemma SunkNext(segs: seq<Seg>, dones: seq<nat>, file: seq<Byte>, hashed: seq<Byte>, lost: bool, done: nat)
    requires Sunk(segs, dones, file, hashed, lost) && |dones| < |segs| && done <= |segs[|dones|].bytes|
    requires segs[|dones|].isChecked ==> done == |segs[|dones|].bytes|
    ensures var b := segs[|dones|].bytes;
            Sunk(segs, dones + [done], file + b[..done], if done == |b| then hashed + b else hashed, lost || done < |b|)
  {
    SinkNext(segs, dones, done);
  }

  lemma SinkNext(segs: seq<Seg>, dones: seq<nat>, done: nat)
    requires Writes(segs, dones) && |dones| < |segs| && done <= |segs[|dones|].bytes|
    ensures var b, all := segs[|dones|].bytes, dones + [done];
      && Writes(segs, all) && Filed(segs, all) == Filed(segs, dones) + b[..done]
      && Hashed(segs, all) == Hashed(segs, dones) + (if done == |b| then b else [])
      && (Lossy(segs, all) <==> Lossy(segs, dones) || done < |b|)
  {
    assert (dones + [done])[..|dones|] == dones;
    LossyNext(segs, dones, done);
    hide Lossy;
  }

  lemma LossyNext(segs: seq<Seg>, dones: seq<nat>, done: nat)
    requires |dones| < |segs|
    ensures Lossy(segs, dones + [done]) <==> Lossy(segs, dones) || done < |segs[|dones|].bytes|
  {
    var n, all := |dones|, dones + [done];
    if i :| 0 <= i < |dones| && i < |segs| && dones[i] < |segs[i].bytes| { assert all[i] == dones[i]; }
    assert all[n] == done;
  }

  lemma ConcatNext(segs: seq<Seg>, i: nat)
    requires i < |segs|
    ensures Concat(segs[..i + 1]) == Concat(segs[..i]) + segs[i].bytes
  {
    assert Stretches(segs[..i + 1]) == Stretches(segs[..i]) + [segs[i].bytes];
    JoinLast(Stretches(segs[..i]), segs[i].bytes);
  }

  // ---------------------------------------------------------------- steps that keep the data secured

  /** Changing only a file that is neither the source nor the copy. */
  lemma SecuredElsewhere(base: Files, st: Files, job: Job, data: seq<Byte>, path: string)
    requires Secured(base, job, data) && OnlyAt(base, st, path) && path != job.source && path != CACHE_TEMP_SOURCE
    ensures Secured(st, job, data)
  {
  }

  lemma SecuredPruned(base: Files, st: Files, job: Job, data: seq<Byte>)
    requires JobOk(job) && Secured(base, job, data) && Pruned(base, st)
    ensures Secured(st, job, data)
    ensures job.source in base ==> job.source in st && st[job.source] == base[job.source]
  {
    Names(job);
  }

  /**
   The branch taken for want of room on the target's file system (applypatch.c:659-686): the source is first
   copied to the cache in full, and only then deleted.
   */
  method BackUpSource(disk: Disk, job: Job, data: seq<Byte>, kernel: Kernel) returns (ok: bool)
    requires disk.Valid() && JobOk(job) && KernelOk(kernel) && job.source in disk.files &&
             disk.files[job.source] == data
    modifies disk`files, disk`history
    ensures disk.Valid() && old(disk.history) <= disk.history
    ensures Since(disk.history, |old(disk.history)|, st => Secured(st, job, data)) && Secured(disk.files, job, data)
    ensures disk.steady && disk.obliging && CacheRoom(kernel, old(disk.files), |data|) ==> ok
    ensures ok && disk.obliging ==>
              job.source !in disk.files && Elsewhere(old(disk.files), disk.files, job, kernel, true)
  {
    hide JobOk, KernelOk, Secured, CacheRoom, Thinned, Elsewhere;
    var tried;
    ok, tried := MakeRoom(disk, job, data, kernel);
    ghost var thin := disk.files;
    if !ok { return; }
    ok := SaveCopy(disk, job, data);
    if !ok { return; }
    DropSource(disk, job, data);
    MovedElsewhere(old(disk.files), thin, disk.files, job, data, kernel);
  }

  /** The cache can take this much, as it is or once everything deletable is gone. */
  ghost predicate CacheRoom(k: Kernel, files: Files, needed: nat)
  {
    k.space(files) >= needed || k.space(Emptied(files, k.listing, k.isOpen)) >= needed
  }

  ghost predicate Same(base: Files, st: Files, p: string)
  {
    (p in st <==> p in base) && (p in base && p in st ==> st[p] == base[p])
  }

  /** The output and, if the source was moved, the source, the copy and what was deletable. */
  ghost predicate Affected(base: Files, job: Job, k: Kernel, moved: bool, p: string)
  {
    || p == OutName(job.target)
    || (moved && (p == job.source || p == CACHE_TEMP_SOURCE || Deletable(base, k.listing, k.isOpen, p)))
  }

  /** Nothing else differs. */
  ghost predicate Elsewhere(base: Files, st: Files, job: Job, k: Kernel, moved: bool)
  {
    forall p :: Affected(base, job, k, moved, p) || Same(base, st, p)
  }

  lemma MovedElsewhere(base: Files, thin: Files, st: Files, job: Job, data: seq<Byte>, k: Kernel)
    requires Thinned(base, thin, k.listing, k.isOpen)
    ensures st == thin[CACHE_TEMP_SOURCE := data] - {job.source} ==> Elsewhere(base, st, job, k, true)
  {
    hide Deletable;
  }

  method MakeRoom(disk: Disk, job: Job, data: seq<Byte>, kernel: Kernel) returns (ok: bool, tried: seq<string>)
    requires disk.Valid() && JobOk(job) && KernelOk(kernel) && job.source in disk.files &&
             disk.files[job.source] == data
    modifies disk`files, disk`history
    ensures disk.Valid() && old(disk.history) <= disk.history && job.source in disk.files &&
            disk.files[job.source] == data
    ensures Since(disk.history, |old(disk.history)|, st => Secured(st, job, data)) && Secured(disk.files, job, data)
    ensures Thinned(old(disk.files), disk.files, kernel.listing, kernel.isOpen)
    ensures disk.obliging && CacheRoom(kernel, old(disk.files), |data|) ==> ok
  {
    hide Thinned, Emptied;
    ghost var base := disk.files;
    ok, tried := MakeFreeSpaceOnCache(disk, |data|, kernel.space, kernel.listing, kernel.isOpen);
    forall st | Pruned(base, st)
      ensures Secured(st, job, data) && job.source in st && st[job.source] == data
    {
      SecuredPruned(base, st, job, data);
    }
    NoRoom(kernel, base, disk.files, |data|, ok, disk.obliging);
    hide *;
  }

  lemma NoRoom(k: Kernel, base: Files, st: Files, needed: nat, ok: bool, obliging: bool)
    requires ok <==> k.space(st) >= needed
    requires !ok ==> k.space(base) < needed
    requires !ok && obliging ==> st == Emptied(base, k.listing, k.isOpen)
    ensures obliging && CacheRoom(k, base, needed) ==> ok
  {
    hide Emptied;
  }

  method SaveCopy(disk: Disk, job: Job, data: seq<Byte>) returns (ok: bool)
    requires disk.Valid() && JobOk(job) && job.source in disk.files && disk.files[job.source] == data
    modifies disk`files, disk`history
    ensures disk.Valid() && old(disk.history) <= disk.history
    ensures Since(disk.history, |old(disk.history)|, st => Secured(st, job, data)) && Secured(disk.files, job, data)
    ensures ok ==> disk.files == old(disk.files)[CACHE_TEMP_SOURCE := data]
    ensures disk.steady && disk.obliging ==> ok
  {
    Names(job);
    ok := disk.Save(CACHE_TEMP_SOURCE, data);
    assert forall st :: OnlyAt(old(disk.files), st, CACHE_TEMP_SOURCE) ==> Secured(st, job, data);
  }

  method DropSource(disk: Disk, job: Job, ghost data: seq<Byte>)
    requires disk.Valid() && JobOk(job) && CACHE_TEMP_SOURCE in disk.files && disk.files[CACHE_TEMP_SOURCE] == data
    modifies disk`files, disk`history
    ensures disk.Valid() && old(disk.history) <= disk.history
    ensures Since(disk.history, |old(disk.history)|, st => Secured(st, job, data)) && Secured(disk.files, job, data)
    ensures disk.obliging ==> disk.files == old(disk.files) - {job.source}
  {
    Names(job);
    disk.Unlink(job.source);
  }

  /**
   Opens the output file and runs the patch into it (applypatch.c:719-758).  A patch that drives the C code out of its
   buffers may do anything to the disk: wild.
   */
  method Attempt(disk: Disk, job: Job, data: seq<Byte>, patch: seq<Byte>, z: Codecs)
    returns (started: bool, ok: bool, hashed: seq<Byte>, wild: bool)
    requires disk.Valid() && JobOk(job) && Secured(disk.files, job, data)
    modifies disk`files, disk`history, disk`lostWrites
    ensures disk.Valid() && old(disk.history) <= disk.history && disk.lostWrites >= old(disk.lostWrites)
    ensures wild ==> OutOfBounds(data, patch, z)
    ensures !wild ==>
              Since(disk.history, |old(disk.history)|, st => Secured(st, job, data)) && Secured(disk.files, job, data)
    ensures !wild ==> disk.files == old(disk.files) || OnlyAt(old(disk.files), disk.files, OutName(job.target))
    ensures !wild && started && ok ==> Written(disk.files, job, data, Blob(patch), hashed, z)
    ensures !wild && started && ok && disk.lostWrites == old(disk.lostWrites) ==> OutHolds(disk.files, job, hashed)
    ensures !wild && (disk.steady || !IsImage(patch)) ==> disk.lostWrites == old(disk.lostWrites)
    ensures disk.obliging && Fails(data, patch, z) ==> !wild && started && !ok
    ensures disk.steady && disk.obliging ==>
              forall sha, t :: Makes(data, Blob(patch), sha, t, z) ==> !wild && started && ok && sha(hashed) == t
  {
    hide ImageRun, BsPatch.ApplyPatch;
    Names(job);
    var out := OutName(job.target);
    ghost var base := disk.files;
    started, ok, hashed, wild := false, false, [], false;
    var opened_ := disk.Open(out);
    if !opened_ { return; }
    assert OnlyAt(base, disk.files, out);
    forall st | OnlyAt(base, st, out) ensures Secured(st, job, data) { SecuredElsewhere(base, st, job, data, out); }
    var run := PatchRun(data, patch, z);
    if run.None? { return; }
    started := true;
    if run.value.status == Undefined {
      var anything: Files := *;
      disk.Set(anything);
      ok := *;
      return started, ok, hashed, true;
    }
    ghost var open := disk.files;
    ok, hashed := WriteRun(disk, out, run.value);
    assert forall st :: OnlyAt(open, st, out) ==> OnlyAt(base, st, out);
  }

  /** The output file holds what a successful run of the patch may leave, with this hashed. */
  ghost predicate Written(files: Files, job: Job, src: seq<Byte>, patch: PatchValue, hashed: seq<Byte>, z: Codecs)
  {
    OutName(job.target) in files && Partly(src, patch, files[OutName(job.target)], hashed, z)
  }

  /** The output file holds these bytes. */
  ghost predicate OutHolds(files: Files, job: Job, b: seq<Byte>)
  {
    OutName(job.target) in files && files[OutName(job.target)] == b
  }

  /** The output file has the target's digest if what was hashed has it. */
  ghost predicate OutTrusty(files: Files, job: Job, hashed: seq<Byte>, sha: Sha)
  {
    OutName(job.target) in files && Trusty(files[OutName(job.target)], hashed, job, sha)
  }

  /** Removes the output of a failed attempt (applypatch.c:767-769). */
  method UnlinkOutput(disk: Disk, job: Job, ghost data: seq<Byte>)
    requires disk.Valid() && JobOk(job) && Secured(disk.files, job, data)
    modifies disk`files, disk`history
    ensures disk.Valid() && old(disk.history) <= disk.history
    ensures Since(disk.history, |old(disk.history)|, st => Secured(st, job, data)) && Secured(disk.files, job, data)
    ensures job.source in old(disk.files) ==>
              job.source in disk.files && disk.files[job.source] == old(disk.files[job.source])
    ensures disk.obliging ==> disk.files == old(disk.files) - {OutName(job.target)}
  {
    Names(job);
    disk.Unlink(OutName(job.target));
  }

  // ---------------------------------------------------------------- the program

  /** What to patch: data that is on disk and accepted, from the source itself or from the cache copy. */
  datatype Choice = FromSource(data: seq<Byte>, patch: PatchValue) | FromCopy(data: seq<Byte>, patch: PatchValue)

  ghost predicate ChoiceOk(c: Choice, files: Files, job: Job, sha: Sha)
  {
    && Secured(files, job, c.data)
    && (c.FromSource? ==> job.source in files && files[job.source] == c.data)
    && exists i :: Selects(job, i, sha(c.data)) && job.patches[i] == c.patch
  }

  /** The i-th patch is for inputs of this digest. */
  ghost predicate Selects(job: Job, i: int, sha1: seq<Byte>)
  {
    0 <= i < |job.patches| && i < |job.patchSha1| && Parse(job.patchSha1[i]) == Some(sha1)
  }

  lemma ChoiceAccepted(c: Choice, files: Files, job: Job, sha: Sha)
    requires ChoiceOk(c, files, job, sha)
    ensures Accepted(sha(c.data), job.patchSha1) && c.patch in job.patches
  {
    var i :| Selects(job, i, sha(c.data)) && job.patches[i] == c.patch;
    assert Parse(job.patchSha1[i]) == Some(sha(c.data));
  }

  /**
   Finds the data to patch (applypatch.c:551-600); done means the target is already what it should be.  If no read
   failed, a finished target is noticed, and giving up means that there is nothing good left.
   */
  method Choose(disk: Disk, job: Job, tsha: seq<Byte>, sha: Sha) returns (done: bool, c: Option<Choice>)
    requires disk.Valid() && JobOk(job) && Parse(job.targetSha1) == Some(tsha)
    modifies disk`readFaults
    ensures done ==> TargetDone(disk.files, job, sha)
    ensures !done && c.Some? ==> ChoiceOk(c.value, disk.files, job, sha)
    ensures disk.readFaults == old(disk.readFaults) ==> (done <==> TargetDone(disk.files, job, sha))
    ensures disk.readFaults == old(disk.readFaults) && !done ==> (c.Some? <==> Safe(disk.files, job, sha))
    ensures disk.readFaults == old(disk.readFaults) && !done && c.Some? ==>
              (c.value.FromSource? <==> Usable(disk.files, job.source, job, sha))
    ensures disk.readFaults >= old(disk.readFaults) && (disk.legible ==> disk.readFaults == old(disk.readFaults))
  {
    hide Accepted, Parse;
    done, c := false, None;
    var data := disk.Load(job.target);
    if data.Some? && sha(data.value) == tsha { return true, None; }
    if data.None? || job.target != job.source {
      data := disk.Load(job.source);
    }
    if data.Some? {
      var use := FindMatchingPatch(sha(data.value), job.patchSha1);
      if use >= 0 {
        assert Selects(job, use, sha(data.value));
        return false, Some(FromSource(data.value, job.patches[use]));
      }
    }
    data := disk.Load(CACHE_TEMP_SOURCE);
    if data.Some? {
      var use := FindMatchingPatch(sha(data.value), job.patchSha1);
      if use >= 0 {
        assert Selects(job, use, sha(data.value));
        return false, Some(FromCopy(data.value, job.patches[use]));
      }
    }
  }

  /** The free space test (applypatch.c:646-653). */
  predicate EnoughSpace(free: nat, targetSize: nat)
  {
    free > 256 * 1024 && free > targetSize * 3 / 2
  }

  /** That is: more than 256 kilobytes, and more than half as much again as the target takes. */
  lemma SpaceMeans(free: nat, targetSize: nat)
    ensures EnoughSpace(free, targetSize) <==> free > 0x4_0000 && 2 * free > 3 * targetSize
  {
  }

  /** The source has to be moved out of the way first. */
  ghost predicate Moves(k: Kernel, files: Files, job: Job, c: Choice)
  {
    c.FromSource? && !EnoughSpace(k.room(files), job.targetSize)
  }

  /**
   No write and no other call fails, the patch is right, and if the source has to be moved there is a place for it.
   */
  ghost predicate Smooth(disk: Disk, k: Kernel, files: Files, job: Job, c: Choice, sha: Sha, z: Codecs)
  {
    && disk.steady && disk.obliging && (Moves(k, files, job, c) ==> CacheRoom(k, files, |c.data|))
    && exists t :: Makes(c.data, c.patch, sha, t, z)
  }

  /** No call fails but the patch itself does, and there is a place for the source whenever it is to be moved. */
  ghost predicate Futile(disk: Disk, k: Kernel, files: Files, job: Job, c: Choice, z: Codecs)
  {
    && disk.steady && disk.obliging && c.FromSource? && c.patch.Blob? && Fails(c.data, c.patch.data, z)
    && CacheRoom(k, files, |c.data|) && CacheRoom(k, files - {OutName(job.target)}, |c.data|)
  }

  ghost predicate Fails(src: seq<Byte>, patch: seq<Byte>, z: Codecs)
  {
    PatchRun(src, patch, z).Some? && PatchRun(src, patch, z).value.status == Failed
  }

  /** What is on disk after the retry loop: nothing else has changed, and a source that was moved is gone. */
  ghost predicate Tried(base: Files, st: Files, job: Job, k: Kernel, moved: bool)
  {
    Elsewhere(base, st, job, k, moved) && (moved ==> job.source !in st)
  }

  /** Before an attempt: without room on the target's file system the source is moved to the cache. */
  method Prepare(disk: Disk, job: Job, c: Choice, kernel: Kernel, retry: nat)
    returns (go: bool, copied: bool, retry': nat)
    requires disk.Valid() && JobOk(job) && KernelOk(kernel) && Secured(disk.files, job, c.data) && retry <= 1
    requires c.FromSource? ==> job.source in disk.files && disk.files[job.source] == c.data
    modifies disk`files, disk`history
    ensures disk.Valid() && old(disk.history) <= disk.history && retry' <= retry
    ensures Since(disk.history, |old(disk.history)|, st => Secured(st, job, c.data)) && Secured(disk.files, job, c.data)
    ensures retry' > 0 ==> disk.files == old(disk.files) && retry' == retry
    ensures disk.steady && disk.obliging && retry == 1 &&
            (Moves(kernel, old(disk.files), job, c) ==> CacheRoom(kernel, old(disk.files), |c.data|)) ==>
              go && copied == Moves(kernel, old(disk.files), job, c) &&
                  Tried(old(disk.files), disk.files, job, kernel, copied)
    ensures go ==> (copied <==> c.FromSource? && retry' == 0)
    ensures disk.steady && disk.obliging && CacheRoom(kernel, old(disk.files), |c.data|) ==> go
  {
    hide JobOk, KernelOk, CacheRoom, Elsewhere;
    SameElsewhere(disk.files, job, kernel);
    var enough := false;
    go, copied, retry' := true, false, retry;
    if retry > 0 {
      enough := EnoughSpace(kernel.room(disk.files), job.targetSize);
    }
    if !enough { retry' := 0; }
    if !enough && c.FromSource? {
      hide EnoughSpace;
      var backedUp := BackUpSource(disk, job, c.data, kernel);
      if !backedUp { return false, copied, retry'; }
      copied := true;
    }
  }

  lemma SameElsewhere(files: Files, job: Job, k: Kernel)
    ensures Elsewhere(files, files, job, k, false)
  {
  }

  lemma OutputElsewhere(base: Files, st: Files, st': Files, job: Job, k: Kernel, moved: bool)
    requires JobOk(job) && Tried(base, st, job, k, moved) && (st' == st || OnlyAt(st, st', OutName(job.target)))
    ensures Tried(base, st', job, k, moved)
  {
    Names(job);
    hide Deletable, JobOk;
    forall p
      ensures Affected(base, job, k, moved, p) || Same(base, st', p)
    {
      assert Affected(base, job, k, moved, p) || Same(base, st, p);
    }
  }

  /**
   The retry loop (applypatch.c:602-774).  With room to spare it tries once and leaves the source alone; without,
   or when that failed, it backs the source up, deletes it and tries a last time.  If nothing fails, a right patch is
   applied either way, provided the cache can take a source that has to be moved.  A patch that itself fails is given up
   only after it has been tried with the source out of the way.
   */
  method TryPatch(disk: Disk, job: Job, c: Choice, z: Codecs, kernel: Kernel, ghost sha: Sha)
    returns (ok: bool, hashed: seq<Byte>, madeCopy: bool, wild: bool)
    requires disk.Valid() && JobOk(job) && KernelOk(kernel) && ChoiceOk(c, disk.files, job, sha)
    modifies disk`files, disk`history, disk`lostWrites
    ensures disk.Valid() && old(disk.history) <= disk.history && disk.lostWrites >= old(disk.lostWrites)
    ensures wild ==> c.patch.Blob? && OutOfBounds(c.data, c.patch.data, z)
    ensures !wild ==>
              && Since(disk.history, |old(disk.history)|, st => Secured(st, job, c.data))
              && Secured(disk.files, job, c.data)
    ensures !wild && ok ==> c.patch.Blob?
    ensures !wild && ok ==> Written(disk.files, job, c.data, c.patch, hashed, z)
    ensures !wild && ok && disk.lostWrites == old(disk.lostWrites) ==> OutHolds(disk.files, job, hashed)
    ensures !wild && (disk.steady || NoImages(job)) ==> disk.lostWrites == old(disk.lostWrites)
    ensures Smooth(disk, kernel, old(disk.files), job, c, sha, z) ==>
              && !wild && ok && (forall t :: Makes(c.data, c.patch, sha, t, z) ==> sha(hashed) == t)
              && madeCopy == Moves(kernel, old(disk.files), job, c)
              && Tried(old(disk.files), disk.files, job, kernel, madeCopy)
    ensures Futile(disk, kernel, old(disk.files), job, c, z) ==> !wild && !ok && madeCopy
  {
    ChoiceAccepted(c, disk.files, job, sha);
    ghost var smooth := Smooth(disk, kernel, disk.files, job, c, sha, z);
    ghost var futile := Futile(disk, kernel, disk.files, job, c, z);
    FutileMeans(disk, kernel, disk.files, job, c, z);
    hide *;
    var retry, over := 1, false;
    ok, hashed, madeCopy, wild := false, [], false, false;
    while !over
      invariant disk.Valid() && old(disk.history) <= disk.history && 0 <= retry <= 1
      invariant disk.lostWrites >= old(disk.lostWrites) && JobOk(job)
      invariant !wild ==>
                  Since(disk.history, |old(disk.history)|, st => Secured(st, job, c.data)) &&
                  Secured(disk.files, job, c.data)
      invariant !over ==> !wild && (c.FromSource? ==> job.source in disk.files && disk.files[job.source] == c.data)
      invariant !wild && (disk.steady || NoImages(job)) ==> disk.lostWrites == old(disk.lostWrites)
      invariant wild ==> over && c.patch.Blob? && OutOfBounds(c.data, c.patch.data, z)
      invariant over && !wild && ok ==>
                  && c.patch.Blob? && Written(disk.files, job, c.data, c.patch, hashed, z)
                  && (disk.lostWrites == old(disk.lostWrites) ==> OutHolds(disk.files, job, hashed))
      invariant smooth && !over ==> retry == 1 && disk.files == old(disk.files)
      invariant smooth && over ==>
                  && !wild && ok && (forall t :: Makes(c.data, c.patch, sha, t, z) ==> sha(hashed) == t)
                  && madeCopy == Moves(kernel, old(disk.files), job, c)
                  && Tried(old(disk.files), disk.files, job, kernel, madeCopy)
      invariant futile ==> !wild && !ok && (over ==> madeCopy)
      invariant futile && !over ==> disk.files == if retry == 1 then old(disk.files)
                                                  else old(disk.files) - {OutName(job.target)}
      decreases retry, !over
    {
      over, ok, hashed, madeCopy, wild, retry := OneTry(disk, job, c, z, kernel, retry, sha);
    }
  }

  /** One round of the retry loop; it is not over exactly if an attempt with room to spare has failed. */
  method OneTry(disk: Disk, job: Job, c: Choice, z: Codecs, kernel: Kernel, retry: nat, ghost sha: Sha)
    returns (over: bool, ok: bool, hashed: seq<Byte>, copied: bool, wild: bool, retry': nat)
    requires disk.Valid() && JobOk(job) && KernelOk(kernel) && Secured(disk.files, job, c.data) && retry <= 1
    requires c.FromSource? ==> job.source in disk.files && disk.files[job.source] == c.data
    requires c.patch in job.patches
    modifies disk`files, disk`history, disk`lostWrites
    ensures disk.Valid() && old(disk.history) <= disk.history && disk.lostWrites >= old(disk.lostWrites)
    ensures wild ==> over && c.patch.Blob? && OutOfBounds(c.data, c.patch.data, z)
    ensures !wild ==>
              Since(disk.history, |old(disk.history)|, st => Secured(st, job, c.data)) &&
              Secured(disk.files, job, c.data)
    ensures !over ==> retry == 1 && retry' == 0 && !ok
    ensures !over && c.FromSource? ==> job.source in disk.files && disk.files[job.source] == c.data
    ensures over ==> retry' <= retry
    ensures over && !wild && ok ==>
              && c.patch.Blob? && Written(disk.files, job, c.data, c.patch, hashed, z)
              && (disk.lostWrites == old(disk.lostWrites) ==> OutHolds(disk.files, job, hashed))
    ensures !wild && (disk.steady || NoImages(job)) ==> disk.lostWrites == old(disk.lostWrites)
    ensures retry == 1 && Smooth(disk, kernel, old(disk.files), job, c, sha, z) ==>
              && over && !wild && ok && (forall t :: Makes(c.data, c.patch, sha, t, z) ==> sha(hashed) == t)
              && copied == Moves(kernel, old(disk.files), job, c)
              && Tried(old(disk.files), disk.files, job, kernel, copied)
    ensures disk.steady && disk.obliging && c.FromSource? && c.patch.Blob? && Fails(c.data, c.patch.data, z) &&
            CacheRoom(kernel, old(disk.files), |c.data|) ==>
              !wild && !ok && if over then copied else disk.files == old(disk.files) - {OutName(job.target)}
  {
    ghost var smooth := Smooth(disk, kernel, disk.files, job, c, sha, z);
    SmoothMeans(disk, kernel, disk.files, job, c, sha, z);
    if c.patch.Blob? { PlainPatch(job, c.patch); }
    hide *;
    over, ok, hashed, wild := true, false, [], false;
    var go;
    go, copied, retry' := Prepare(disk, job, c, kernel, retry);
    if !go { return; }
    if c.patch.NotBlob? { return; }
    ghost var before := disk.files;
    var started, done;
    started, done, hashed, wild := Attempt(disk, job, c.data, c.patch.data, z);
    if wild {
      ok := done;
      return;
    }
    if !started { return; }
    if done {
      if smooth && retry == 1 { OutputElsewhere(old(disk.files), before, disk.files, job, kernel, copied); }
      ok := true;
      return;
    }
    if retry' == 0 { return; }
    ghost var after := disk.files;
    UnlinkOutput(disk, job, c.data);
    OutputGone(before, after, job);
    over, retry' := false, retry' - 1;
  }

  lemma PlainPatch(job: Job, p: PatchValue)
    requires p in job.patches && p.Blob?
    ensures NoImages(job) ==> !IsImage(p.data)
  {
  }

  lemma FutileMeans(disk: Disk, k: Kernel, files: Files, job: Job, c: Choice, z: Codecs)
    ensures Futile(disk, k, files, job, c, z) ==>
              && disk.steady && disk.obliging && c.FromSource? && c.patch.Blob? && Fails(c.data, c.patch.data, z)
              && CacheRoom(k, files, |c.data|) && CacheRoom(k, files - {OutName(job.target)}, |c.data|)
  {
    hide Fails, CacheRoom;
  }

  lemma OutputGone(before: Files, after: Files, job: Job)
    ensures after == before || OnlyAt(before, after, OutName(job.target)) ==>
              after - {OutName(job.target)} == before - {OutName(job.target)}
  {
  }

  lemma SmoothMeans(disk: Disk, k: Kernel, files: Files, job: Job, c: Choice, sha: Sha, z: Codecs)
    ensures Smooth(disk, k, files, job, c, sha, z) ==>
              && disk.steady && disk.obliging && (Moves(k, files, job, c) ==> CacheRoom(k, files, |c.data|))
              && c.patch.Blob? && exists t :: Makes(c.data, c.patch, sha, t, z)
  {
    hide Moves, CacheRoom, PatchRun;
  }

  /** Puts the output in the target's place and drops the copy (applypatch.c:776-815). */
  method Install(disk: Disk, job: Job, tsha: seq<Byte>, hashed: seq<Byte>, madeCopy: bool, sha: Sha,
      ghost data: seq<Byte>)
    returns (code: int)
    requires disk.Valid() && JobOk(job) && Parse(job.targetSha1) == Some(tsha)
    requires Secured(disk.files, job, data) && Accepted(sha(data), job.patchSha1)
    modifies disk`files, disk`history
    ensures disk.Valid() && old(disk.history) <= disk.history
    ensures code != 0 ==> disk.history == old(disk.history) && disk.files == old(disk.files)
    ensures disk.obliging && old(OutHolds(disk.files, job, hashed)) && sha(hashed) == tsha ==> code == 0
    ensures code == 0 ==> sha(hashed) == tsha
    ensures code == 0 && disk.obliging ==> Placed(old(disk.files), disk.files, job, madeCopy)
    ensures old(OutTrusty(disk.files, job, hashed, sha)) ==>
              Since(disk.history, |old(disk.history)|, st => Safe(st, job, sha)) &&
                  (code == 0 ==> TargetDone(disk.files, job, sha))
  {
    hide Accepted, Parse;
    Names(job);
    if sha(hashed) != tsha { return 1; }
    var ok := disk.Chown();
    if !ok { return 1; }
    ok := disk.Rename(OutName(job.target), job.target);
    if !ok { return 1; }
    if madeCopy { disk.Unlink(CACHE_TEMP_SOURCE); }
    return 0;
  }

  /** The output is where the target was, and a copy made on the way is gone. */
  ghost predicate Placed(base: Files, st: Files, job: Job, madeCopy: bool)
  {
    var out := OutName(job.target);
    && out in base
    && var placed := (base - {out})[job.target := base[out]];
       st == if madeCopy then placed - {CACHE_TEMP_SOURCE} else placed
  }

  lemma SinceSecured(h: seq<Files>, n: nat, job: Job, data: seq<Byte>, sha: Sha)
    requires Since(h, n, st => Secured(st, job, data)) && Accepted(sha(data), job.patchSha1)
    ensures Since(h, n, st => Safe(st, job, sha))
  {
    forall i | n <= i < |h|
      ensures Safe(h[i], job, sha)
    {
      SecuredSafe(h[i], job, data, sha);
    }
  }

  /**
   applypatch, for patches that keep the C code within its buffers on the files there are.  A run that does not return 0
   has put the disk in safe states only.  So has one that returns 0, and the target then has the requested digest, if no
   unchecked write of an image patch was lost (imgpatch.c:80) or if the digest gives such losses away on the files there
   are.  A target that has it already is left alone.  On a disk whose writes and reads work nothing is lost and nothing
   goes unread; and with right patches, room on the target's file system and no failing call, a safe start ends in the
   target.
   */
  method ApplyPatch(disk: Disk, job: Job, sha: Sha, z: Codecs, kernel: Kernel) returns (code: int)
    requires disk.Valid() && JobOk(job) && KernelOk(kernel)
    modifies disk
    ensures disk.Valid() && old(disk.history) <= disk.history
    ensures BehavedHere(old(disk.files), job, sha, z) && code != 0 ==>
              Since(disk.history, |old(disk.history)|, st => Safe(st, job, sha))
    ensures Sound(old(disk.files), job, sha, z, disk.lostWrites > old(disk.lostWrites)) ==>
              && Since(disk.history, |old(disk.history)|, st => Safe(st, job, sha))
              && (code == 0 ==> TargetDone(disk.files, job, sha))
    ensures old(TargetDone(disk.files, job, sha)) && disk.readFaults == old(disk.readFaults) ==>
              code == 0 && disk.files == old(disk.files) && disk.history == old(disk.history)
    ensures disk.lostWrites >= old(disk.lostWrites) && disk.readFaults >= old(disk.readFaults)
    ensures BehavedHere(old(disk.files), job, sha, z) && (disk.steady || NoImages(job)) ==>
              disk.lostWrites == old(disk.lostWrites)
    ensures disk.legible ==> disk.readFaults == old(disk.readFaults)
    ensures old(Safe(disk.files, job, sha)) && disk.legible && Ideal(disk, job, sha, z, kernel, old(disk.files)) ==>
              && code == 0 && TargetDone(disk.files, job, sha)
              && (old(TargetDone(disk.files, job, sha)) ||
                  Replaced(old(disk.files), disk.files, job, kernel, MustMove(kernel, old(disk.files), job, sha)))
  {
    hide Accepted, Parse, Safe, TargetDone, ChoiceOk, BehavedHere, DiscerningHere, NoImages, JobOk, KernelOk, Ideal,
        Replaced, Usable, EnoughSpace;
    var tsha := ParseSha1(job.targetSha1);
    if tsha.None? {
      UnfinishedWithout(disk, job, sha, z, kernel, disk.files);
      return 1;
    }
    var done, c := Choose(disk, job, tsha.value, sha);
    if done { return 0; }
    if c.None? { return 1; }
    code := PatchAndInstall(disk, job, c.value, tsha.value, sha, z, kernel);
  }

  /** There is room for the target beside its source; or no usable source to move away; or a place to move it to. */
  ghost predicate Roomy(k: Kernel, files: Files, job: Job, sha: Sha)
  {
    || EnoughSpace(k.room(files), job.targetSize)
    || !Usable(files, job.source, job, sha)
    || CacheRoom(k, files, |files[job.source]|)
  }

  /** Right patches, room, and a disk on which no write and no other call fails. */
  ghost predicate Ideal(disk: Disk, job: Job, sha: Sha, z: Codecs, kernel: Kernel, files: Files)
  {
    Right(job, sha, z) && disk.steady && disk.obliging && Roomy(kernel, files, job, sha)
  }

  /**
   The target is new and the output gone; a source that had to be moved for want of room is gone, and so is the copy
   made of it; nothing else has changed but that deletable files may have made way for that copy.
   */
  ghost predicate Replaced(base: Files, st: Files, job: Job, k: Kernel, moved: bool)
  {
    && job.target in st && OutName(job.target) !in st
    && (moved ==> CACHE_TEMP_SOURCE !in st && (job.source != job.target ==> job.source !in st))
    && forall p :: p == job.target || Affected(base, job, k, moved, p) || Same(base, st, p)
  }

  lemma ReplacedIs(base: Files, mid: Files, st: Files, job: Job, k: Kernel, moved: bool)
    requires JobOk(job) && Tried(base, mid, job, k, moved) && Placed(mid, st, job, moved)
    ensures Replaced(base, st, job, k, moved)
  {
    Names(job);
    hide Deletable, JobOk;
    forall p
      ensures p == job.target || Affected(base, job, k, moved, p) || Same(base, st, p)
    {
      assert Affected(base, job, k, moved, p) || Same(base, mid, p);
    }
  }

  /** The source has to be moved, in terms of what is on disk. */
  ghost predicate MustMove(k: Kernel, files: Files, job: Job, sha: Sha)
  {
    Usable(files, job.source, job, sha) && !EnoughSpace(k.room(files), job.targetSize)
  }

  lemma UnfinishedWithout(disk: Disk, job: Job, sha: Sha, z: Codecs, kernel: Kernel, files: Files)
    requires Parse(job.targetSha1) == None
    ensures !TargetDone(files, job, sha) && !Ideal(disk, job, sha, z, kernel, files)
  {
  }

  /** applypatch from the retry loop on (applypatch.c:602-815). */
  method PatchAndInstall(disk: Disk, job: Job, c: Choice, tsha: seq<Byte>, sha: Sha, z: Codecs, kernel: Kernel)
    returns (code: int)
    requires disk.Valid() && JobOk(job) && KernelOk(kernel) && ChoiceOk(c, disk.files, job, sha) &&
             Parse(job.targetSha1) == Some(tsha)
    modifies disk`files, disk`history, disk`lostWrites
    ensures disk.Valid() && old(disk.history) <= disk.history && disk.lostWrites >= old(disk.lostWrites)
    ensures BehavedHere(old(disk.files), job, sha, z) && code != 0 ==>
              Since(disk.history, |old(disk.history)|, st => Safe(st, job, sha))
    ensures Sound(old(disk.files), job, sha, z, disk.lostWrites > old(disk.lostWrites)) ==>
              && Since(disk.history, |old(disk.history)|, st => Safe(st, job, sha))
              && (code == 0 ==> TargetDone(disk.files, job, sha))
    ensures BehavedHere(old(disk.files), job, sha, z) && (disk.steady || NoImages(job)) ==>
              disk.lostWrites == old(disk.lostWrites)
    ensures Ideal(disk, job, sha, z, kernel, old(disk.files)) ==>
              && code == 0 && TargetDone(disk.files, job, sha)
              && Replaced(old(disk.files), disk.files, job, kernel, Moves(kernel, old(disk.files), job, c))
  {
    hide Accepted, Parse, JobOk, KernelOk, ChoiceOk, Secured, Safe, TargetDone, BehavedHere, DiscerningHere, NoImages,
        Right, Roomy, OutTrusty, OutHolds, Tried, Moves, Placed, Replaced;
    var ok, hashed, madeCopy, wild := WriteOutput(disk, job, c, tsha, sha, z, kernel);
    ghost var mid := disk.files;
    if wild {
      code := if ok then 0 else 1;
      return;
    }
    if !ok { return 1; }
    code := Install(disk, job, tsha, hashed, madeCopy, sha, c.data);
    if code == 0 && disk.obliging && Tried(old(disk.files), mid, job, kernel, madeCopy) {
      ReplacedIs(old(disk.files), mid, disk.files, job, kernel, madeCopy);
    }
  }

  /** The retry loop, and what it means for the promise: until the output is put in place nothing good is lost. */
  method WriteOutput(disk: Disk, job: Job, c: Choice, tsha: seq<Byte>, sha: Sha, z: Codecs, kernel: Kernel)
    returns (ok: bool, hashed: seq<Byte>, madeCopy: bool, wild: bool)
    requires disk.Valid() && JobOk(job) && KernelOk(kernel) && ChoiceOk(c, disk.files, job, sha) &&
             Parse(job.targetSha1) == Some(tsha)
    modifies disk`files, disk`history, disk`lostWrites
    ensures disk.Valid() && old(disk.history) <= disk.history && disk.lostWrites >= old(disk.lostWrites)
    ensures BehavedHere(old(disk.files), job, sha, z) ==> !wild
    ensures !wild ==> Secured(disk.files, job, c.data) && Accepted(sha(c.data), job.patchSha1)
    ensures !wild ==> Since(disk.history, |old(disk.history)|, st => Safe(st, job, sha))
    ensures !wild && ok && (disk.lostWrites == old(disk.lostWrites) || DiscerningHere(old(disk.files), job, sha, z)) ==>
              OutTrusty(disk.files, job, hashed, sha)
    ensures !wild && (disk.steady || NoImages(job)) ==> disk.lostWrites == old(disk.lostWrites)
    ensures Ideal(disk, job, sha, z, kernel, old(disk.files)) ==>
              && !wild && ok && sha(hashed) == tsha && OutHolds(disk.files, job, hashed)
              && disk.lostWrites == old(disk.lostWrites) && madeCopy == Moves(kernel, old(disk.files), job, c)
              && Tried(old(disk.files), disk.files, job, kernel, madeCopy)
  {
    ghost var h, n, ideal := |disk.history|, disk.lostWrites, Ideal(disk, job, sha, z, kernel, disk.files);
    hide *;
    ChoiceAccepted(c, disk.files, job, sha);
    if ideal { IdealMakes(disk, c, disk.files, job, sha, z, kernel); }
    if BehavedHere(disk.files, job, sha, z) && c.patch.Blob? { NotWild(c, disk.files, job, sha, z); }
    ok, hashed, madeCopy, wild := TryPatch(disk, job, c, z, kernel, sha);
    if wild { return; }
    SinceSecured(disk.history, h, job, c.data, sha);
    if ok && (DiscerningHere(old(disk.files), job, sha, z) || disk.lostWrites == n) {
      OutputTrusty(c, old(disk.files), disk.files, job, hashed, sha, z, disk.lostWrites == n);
    }
  }

  lemma IdealMakes(disk: Disk, c: Choice, files: Files, job: Job, sha: Sha, z: Codecs, kernel: Kernel)
    requires Ideal(disk, job, sha, z, kernel, files) && ChoiceOk(c, files, job, sha)
    ensures disk.steady && disk.obliging && Smooth(disk, kernel, files, job, c, sha, z)
    ensures Parse(job.targetSha1).Some? && Makes(c.data, c.patch, sha, Parse(job.targetSha1).value, z)
  {
    RightMakes(c, files, job, sha, z);
    ChoiceAccepted(c, files, job, sha);
    hide Makes, Right, CacheRoom, EnoughSpace, Selects, Accepted;
  }

  lemma RightMakes(c: Choice, files: Files, job: Job, sha: Sha, z: Codecs)
    requires Right(job, sha, z) && ChoiceOk(c, files, job, sha)
    ensures Parse(job.targetSha1).Some? && Makes(c.data, c.patch, sha, Parse(job.targetSha1).value, z) &&
            Behaved(job, sha, z)
  {
    RightBehaved(job, sha, z);
    hide Makes, Selects;
    var i :| Selects(job, i, sha(c.data)) && job.patches[i] == c.patch;
  }

  lemma NotWild(c: Choice, files: Files, job: Job, sha: Sha, z: Codecs)
    requires BehavedHere(files, job, sha, z) && ChoiceOk(c, files, job, sha) && c.patch.Blob?
    ensures !OutOfBounds(c.data, c.patch.data, z)
  {
    hide OutOfBounds;
    var i :| Selects(job, i, sha(c.data)) && job.patches[i] == c.patch;
  }

  lemma OutputTrusty(c: Choice, files: Files, now: Files, job: Job, hashed: seq<Byte>, sha: Sha, z: Codecs, whole: bool)
    requires ChoiceOk(c, files, job, sha) && Written(now, job, c.data, c.patch, hashed, z)
    requires if whole then OutHolds(now, job, hashed) else DiscerningHere(files, job, sha, z)
    ensures OutTrusty(now, job, hashed, sha)
  {
    hide Partly, Selects, Parse;
    assert Secured(files, job, c.data);
    assert !whole ==> DiscerningOn(c.data, job, sha, z);
    hide Secured;
  }

  /** What one start came to: its code, the writes it lost, and which of the states seen are its own and later ones. */
  datatype Report = Report(first: nat, code: int, lost: nat)

  /** By then some run has returned 0 although it had lost a write. */
  ghost predicate Tainted(reports: seq<Report>, i: int)
  {
    exists k :: 0 <= k < |reports| && reports[k].first <= i && reports[k].code == 0 && reports[k].lost > 0
  }

  /** Every state is safe that no run before or in it has tainted; or all are, if the digest gives lost writes away. */
  ghost predicate SafeSoFar(seen: seq<Files>, reports: seq<Report>, job: Job, sha: Sha, z: Codecs)
  {
    forall i :: 0 <= i < |seen| && (Discerning(job, sha, z) || !Tainted(reports, i)) ==> Safe(seen[i], job, sha)
  }

  lemma Everywhere(files: Files, job: Job, sha: Sha, z: Codecs)
    ensures Discerning(job, sha, z) ==> DiscerningHere(files, job, sha, z)
    ensures Behaved(job, sha, z) ==> BehavedHere(files, job, sha, z)
  {
    hide DiscerningOn, Secured, Selects, OutOfBounds;
  }

  lemma OneMoreRun(seen: seq<Files>, at: nat, history: seq<Files>, reports: seq<Report>, report: Report, job: Job,
      sha: Sha, z: Codecs)
    requires SafeSoFar(seen, reports, job, sha, z) && at < |seen| && |history| > 0 && history[0] == seen[at]
    requires forall k :: 0 <= k < |reports| ==> reports[k].first < |seen|
    requires report.first == |seen|
    requires report.code != 0 || report.lost == 0 || Discerning(job, sha, z) ==>
              Since(history, 1, st => Safe(st, job, sha))
    ensures SafeSoFar(seen + history, reports + [report], job, sha, z)
  {
    var all := reports + [report];
    forall i | 0 <= i < |seen + history| && (Discerning(job, sha, z) || !Tainted(all, i))
      ensures Safe((seen + history)[i], job, sha)
    {
      hide Safe, Discerning;
      assert all[|reports|] == report && forall k :: 0 <= k < |reports| ==> all[k] == reports[k];
      if i < |seen| {
        assert Tainted(reports, i) ==> Tainted(all, i);
      } else {
        assert Tainted(reports, at) ==> Tainted(all, i);
      }
    }
  }

  /**
   Any number of starts, each cut short at any point of its effects or let finish: every state the disk is ever in
   is safe, up to the first run, if any, that returns 0 after losing an unchecked write; and beyond it too if the digest
   gives lost writes away.  Nothing is lost on a steady disk, or by bsdiff patches.
   */
  method RunsWithCrashes(files: Files, job: Job, sha: Sha, z: Codecs, kernels: seq<Kernel>, legible: bool, steady: bool,
      obliging: bool)
    returns (seen: seq<Files>, now: Files, reports: seq<Report>)
    requires Safe(files, job, sha) && JobOk(job) && forall k :: 0 <= k < |kernels| ==> KernelOk(kernels[k])
    ensures |seen| > |kernels| == |reports| && seen[0] == files && now in seen
    ensures Behaved(job, sha, z) ==> SafeSoFar(seen, reports, job, sha, z)
    ensures Behaved(job, sha, z) && (steady || NoImages(job)) ==>
              forall k :: 0 <= k < |reports| ==> reports[k].lost == 0
  {
    hide Safe, JobOk, KernelOk, Behaved, BehavedHere, Discerning, DiscerningHere, NoImages, Tainted;
    seen, now, reports := [files], files, [];
    ghost var at := 0;
    for k := 0 to |kernels|
      invariant |seen| > k == |reports| && seen[0] == files && 0 <= at < |seen| && now == seen[at]
      invariant Behaved(job, sha, z) ==> SafeSoFar(seen, reports, job, sha, z)
      invariant Behaved(job, sha, z) && (steady || NoImages(job)) ==>
                forall k :: 0 <= k < |reports| ==> reports[k].lost == 0
      invariant forall k :: 0 <= k < |reports| ==> reports[k].first < |seen|
    {
      var disk := new Disk(now, legible, steady, obliging);
      var code := ApplyPatch(disk, job, sha, z, kernels[k]);
      var report := Report(|seen|, code, disk.lostWrites);
      Everywhere(now, job, sha, z);
      if Behaved(job, sha, z) { OneMoreRun(seen, at, disk.history, reports, report, job, sha, z); }
      var stop :| 0 <= stop < |disk.history|;
      at := |seen| + stop;
      seen, now, reports := seen + disk.history, disk.history[stop], reports + [report];
    }
  }

  /**
   However often it is stopped on the way, one run with right patches, room and no failing call ends in the target.
   */
  method CrashesThenDone(files: Files, job: Job, sha: Sha, z: Codecs, kernels: seq<Kernel>, last: Kernel)
    returns (seen: seq<Files>, end: Files)
    requires Safe(files, job, sha) && JobOk(job) && KernelOk(last) &&
             forall k :: 0 <= k < |kernels| ==> KernelOk(kernels[k])
    requires Right(job, sha, z) && forall st :: Roomy(last, st, job, sha)
    ensures |seen| > |kernels| && Since(seen, 0, st => Safe(st, job, sha)) && TargetDone(end, job, sha)
  {
    RightBehaved(job, sha, z);
    hide Safe, JobOk, KernelOk, Behaved, BehavedHere, Discerning, DiscerningHere, NoImages, TargetDone, Right,
        EnoughSpace;
    var now, reports;
    seen, now, reports := RunsWithCrashes(files, job, sha, z, kernels, true, true, true);
    assert forall i :: !Tainted(reports, i);
    assert exists i :: 0 <= i < |seen| && seen[i] == now;
    var disk := new Disk(now, true, true, true);
    var _ := ApplyPatch(disk, job, sha, z, last);
    end := disk.files;
  }

  lemma RightBehaved(job: Job, sha: Sha, z: Codecs)
    requires Right(job, sha, z)
    ensures Behaved(job, sha, z)
  {
    forall i, src | Selects(job, i, sha(src)) && job.patches[i].Blob?
      ensures !OutOfBounds(src, job.patches[i].data, z)
    {
      assert Makes(src, job.patches[i], sha, Parse(job.targetSha1).value, z);
    }
  }

  /** Opening the output would destroy the last good copy, were the source to have the output's name: hence JobOk. */
  lemma OutputClobbersSource(files: Files, job: Job, sha: Sha)
    requires job.source == OutName(job.target) && !TargetDone(files, job, sha) &&
             !Usable(files, CACHE_TEMP_SOURCE, job, sha)
    requires !InExpendableDir(job.source) && !Accepted(sha([]), job.patchSha1)
    ensures !Safe(files[OutName(job.target) := []], job, sha)
  {
    hide Accepted;
    TempInCache();
    hide InDir;
  }
}
