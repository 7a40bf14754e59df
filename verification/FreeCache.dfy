/** Making room on /cache (freecache.c). */
module FreeCache {
  import opened Wrappers
  import opened FileSystem

  const CACHE_TEMP_SOURCE := "/cache/saved.file"

  /** The directories unopened files may be deleted from (freecache.c:85). */
  const DIRS: seq<string> := ["/cache", "/cache/recovery/otatest"]

  /** path names an entry of the directory itself, not of a subdirectory. */
  predicate InDir(path: string, dir: string)
  {
    |path| > |dir| && path[..|dir|] == dir && path[|dir|] == '/' && '/' !in path[|dir| + 1..]
  }

  predicate InExpendableDir(path: string)
  {
    InDir(path, DIRS[0]) || InDir(path, DIRS[1])
  }

  /** What may be deleted: anything there but the saved source of an interrupted installation. */
  predicate Expendable(path: string)
  {
    InExpendableDir(path) && path != CACHE_TEMP_SOURCE
  }

  /** st is base less some expendable files. */
  ghost predicate Pruned(base: Files, st: Files)
  {
    && (forall p :: p in st ==> p in base && st[p] == base[p])
    && (forall p :: p in base && !Expendable(p) ==> p in st)
  }

  lemma JoinInDir(dir: string, name: string)
    requires '/' !in name
    ensures InDir(dir + "/" + name, dir)
  {
    var path := dir + "/" + name;
    assert path[..|dir|] == dir && path[|dir| + 1..] == name;
  }

  lemma TempInCache()
    ensures InExpendableDir(CACHE_TEMP_SOURCE)
  {
    var p := CACHE_TEMP_SOURCE;
    assert p[..6] == "/cache" && p[6] == '/' && p[7..] == "saved.file";
  }

  /** What readdir gives for each directory, if it opens. */
  type Listing = seq<Option<seq<string>>>

  predicate Plausible(listing: Listing)
  {
    |listing| == |DIRS| && forall i, n :: 0 <= i < |listing| && listing[i].Some? && n in listing[i].value ==> '/' !in n
  }

  /** path is an entry of the k-th directory, which could be listed. */
  ghost predicate Entry(listing: Listing, k: nat, path: string)
  {
    k < |listing| && k < |DIRS| && listing[k].Some? && exists n :: n in listing[k].value && path == DIRS[k] + "/" + n
  }

  /** path is an entry of one of the first k directories. */
  ghost predicate Listed(listing: Listing, k: nat, path: string)
  {
    k > 0 && (Listed(listing, k - 1, path) || Entry(listing, k - 1, path))
  }

  /** A listed regular file that nobody has open and that is not the saved source. */
  ghost predicate Deletable(files: Files, listing: Listing, isOpen: set<string>, path: string)
  {
    Listed(listing, |DIRS|, path) && path in files && path != CACHE_TEMP_SOURCE && path !in isOpen
  }

  /** The files once everything deletable is gone. */
  ghost function Emptied(files: Files, listing: Listing, isOpen: set<string>): (st: Files)
  {
    map p | p in files && !Deletable(files, listing, isOpen, p) :: files[p]
  }

  /** Nothing has changed but that some deletable files are gone. */
  ghost predicate Thinned(base: Files, st: Files, listing: Listing, isOpen: set<string>)
  {
    && (forall p :: p in st ==> p in base && st[p] == base[p])
    && (forall p :: p in base && !Deletable(base, listing, isOpen, p) ==> p in st)
  }

  /**
   FindExpendableFiles (freecache.c:74-126): exactly the deletable files.  isOpen is what /proc says of open files.
   */
  method FindExpendableFiles(disk: Disk, listing: Listing, isOpen: set<string>) returns (names: seq<Option<string>>)
    requires Plausible(listing)
    ensures forall p :: Some(p) in names <==> Deletable(disk.files, listing, isOpen, p)
    ensures forall p :: Some(p) in names ==> Expendable(p)
  {
    var found: seq<string> := [];
    var i := 0;
    while i < |DIRS|
      invariant 0 <= i <= |DIRS|
      invariant forall p :: p in found <==> Listed(listing, i, p) && p in disk.files && p != CACHE_TEMP_SOURCE
      invariant forall p :: p in found ==> Expendable(p)
    {
      if listing[i].Some? {
        found := ListDir(disk, DIRS[i], listing[i].value, found);
      }
      i := i + 1;
    }
    names := EliminateOpenFiles(found, isOpen);
  }

  /** One directory (freecache.c:96-114). */
  method ListDir(disk: Disk, dir: string, entries: seq<string>, found: seq<string>) returns (found': seq<string>)
    requires dir in DIRS && forall n :: n in entries ==> '/' !in n
    ensures forall p :: p in found' <==>
              p in found ||
              (p in disk.files && p != CACHE_TEMP_SOURCE && exists n :: n in entries && p == dir + "/" + n)
    ensures forall p :: p in found' ==> p in found || Expendable(p)
  {
    found' := found;
    var j := 0;
    while j < |entries|
      invariant 0 <= j <= |entries|
      invariant forall p :: p in found' <==>
                  p in found ||
                  (p in disk.files && p != CACHE_TEMP_SOURCE && exists n :: n in entries[..j] && p == dir + "/" + n)
      invariant forall p :: p in found' ==> p in found || Expendable(p)
    {
      var path := dir + "/" + entries[j];
      JoinInDir(dir, entries[j]);
      assert entries[..j + 1] == entries[..j] + [entries[j]];
      if path != CACHE_TEMP_SOURCE && path in disk.files {
        found' := found' + [path];
      }
      j := j + 1;
    }
    assert entries[..j] == entries;
  }

  /** EliminateOpenFiles (freecache.c:14-72): entries that some process has open are nulled. */
  method EliminateOpenFiles(files: seq<string>, isOpen: set<string>) returns (names: seq<Option<string>>)
    ensures |names| == |files|
    ensures forall i :: 0 <= i < |files| ==> names[i] == if files[i] in isOpen then None else Some(files[i])
    ensures forall p :: Some(p) in names <==> p in files && p !in isOpen
  {
    names := [];
    for i := 0 to |files|
      invariant |names| == i
      invariant forall k :: 0 <= k < i ==> names[k] == if files[k] in isOpen then None else Some(files[k])
    {
      names := names + [if files[i] in isOpen then None else Some(files[i])];
    }
    forall p | p in files && p !in isOpen
      ensures Some(p) in names
    {
      var i :| 0 <= i < |files| && files[i] == p;
      assert names[i] == Some(p);
    }
  }

  /**
   MakeFreeSpaceOnCache (freecache.c:128-172): deletes expendable files one at a time, only while there is
   too little room, and reports whether there is enough at the end; it gives up only after trying every file it
   could delete.  space gives the free space for a state, tried the files unlink was called on.
   */
  method MakeFreeSpaceOnCache(disk: Disk, needed: nat, space: Files -> nat, listing: Listing, isOpen: set<string>)
    returns (ok: bool, tried: seq<string>)
    requires disk.Valid() && Plausible(listing)
    modifies disk`files, disk`history
    ensures disk.Valid() && old(disk.history) <= disk.history
    ensures ok <==> space(disk.files) >= needed
    ensures Since(disk.history, |old(disk.history)|, st => Pruned(old(disk.files), st)) &&
            Pruned(old(disk.files), disk.files)
    ensures forall i :: |old(disk.history)| - 1 <= i < |disk.history| - 1 ==> space(disk.history[i]) < needed
    ensures forall p :: p in tried ==> Deletable(old(disk.files), listing, isOpen, p)
    ensures forall p :: p in old(disk.files) && p !in disk.files ==> p in tried
    ensures !ok ==> forall p :: Deletable(old(disk.files), listing, isOpen, p) ==> p in tried
    ensures disk.obliging ==> forall p :: p in tried ==> p !in disk.files
    ensures Thinned(old(disk.files), disk.files, listing, isOpen)
    ensures !ok ==> space(old(disk.files)) < needed
    ensures !ok && disk.obliging ==> disk.files == Emptied(old(disk.files), listing, isOpen)
  {
    tried := [];
    ghost var base := disk.files;
    NothingTried(base, disk.obliging);
    if space(disk.files) >= needed { return true, tried; }
    var names := FindExpendableFiles(disk, listing, isOpen);
    hide Deletable, Expendable, Pruned, Progress;
    ok, tried := DeleteUntil(disk, needed, space, names, base);
    Tried(base, disk.files, tried, disk.obliging);
    ThinnedIs(base, disk.files, tried, listing, isOpen);
  }

  /** What is gone was tried, and what was tried was deletable; once all that is has been tried and is gone, no more. */
  lemma ThinnedIs(base: Files, st: Files, tried: seq<string>, listing: Listing, isOpen: set<string>)
    requires Pruned(base, st) && forall p :: p in base && p !in st ==> p in tried
    requires forall p :: p in tried ==> Deletable(base, listing, isOpen, p)
    ensures Thinned(base, st, listing, isOpen)
    ensures (forall p :: Deletable(base, listing, isOpen, p) ==> p in tried) &&
            (forall p :: p in tried ==> p !in st) ==>
              st == Emptied(base, listing, isOpen)
  {
    hide Deletable, Expendable;
  }

  /** The deleting loop (freecache.c:155-171). */
  method DeleteUntil(disk: Disk, needed: nat, space: Files -> nat, names: seq<Option<string>>, ghost base: Files)
    returns (ok: bool, tried: seq<string>)
    requires disk.Valid() && base == disk.files && space(base) < needed &&
             forall p :: Some(p) in names ==> Expendable(p)
    modifies disk`files, disk`history
    ensures disk.Valid() && old(disk.history) <= disk.history && (ok <==> space(disk.files) >= needed)
    ensures Since(disk.history, |old(disk.history)|, st => Pruned(base, st)) &&
            Progress(base, disk.files, tried, disk.obliging)
    ensures forall k :: |old(disk.history)| - 1 <= k < |disk.history| - 1 ==> space(disk.history[k]) < needed
    ensures (forall p :: p in tried ==> Some(p) in names) && (!ok ==> forall p :: Some(p) in names ==> p in tried)
  {
    NothingTried(base, disk.obliging);
    hide Expendable, Pruned, Progress, Meanwhile, Tally, Since;
    tried := [];
    ghost var h := disk.history;
    MeanwhileNothing(h, base, space, needed);
    NoTally(names);
    var i := 0;
    while i < |names| && space(disk.files) < needed
      invariant 0 <= i <= |names| && disk.Valid() && Meanwhile(h, disk.history, base, space, needed)
      invariant Progress(base, disk.files, tried, disk.obliging) && Tally(tried, names, i)
    {
      TallyNext(tried, names, i);
      if names[i].Some? {
        DeleteOne(disk, names[i].value, base, tried, h, space, needed);
        tried := tried + [names[i].value];
      }
      i := i + 1;
    }
    MeanwhileMeans(h, disk.history, base, space, needed);
    TallyMeans(tried, names, i);
    ok := space(disk.files) >= needed;
  }

  /** The files tried are those among the first i names. */
  ghost predicate Tally(tried: seq<string>, names: seq<Option<string>>, i: nat)
  {
    i <= |names| && forall p :: p in tried <==> Some(p) in names[..i]
  }

  lemma NoTally(names: seq<Option<string>>)
    ensures Tally([], names, 0)
  {
  }

  lemma TallyNext(tried: seq<string>, names: seq<Option<string>>, i: nat)
    requires Tally(tried, names, i) && i < |names|
    ensures names[i].Some? ==> Tally(tried + [names[i].value], names, i + 1) && Some(names[i].value) in names
    ensures names[i].None? ==> Tally(tried, names, i + 1)
  {
    SomeNext(names, i);
  }

  lemma TallyMeans(tried: seq<string>, names: seq<Option<string>>, i: nat)
    requires Tally(tried, names, i)
    ensures forall p :: p in tried ==> Some(p) in names
    ensures i == |names| ==> forall p :: Some(p) in names ==> p in tried
  {
    assert i == |names| ==> names[..i] == names;
  }

  /** now continues h with states that lack only expendable files, and every state it went on from was short of room. */
  ghost predicate Meanwhile(h: seq<Files>, now: seq<Files>, base: Files, space: Files -> nat, needed: nat)
  {
    && 0 < |h| && h <= now && Since(now, |h|, st => Pruned(base, st))
    && forall k :: |h| - 1 <= k < |now| - 1 ==> space(now[k]) < needed
  }

  lemma MeanwhileNothing(h: seq<Files>, base: Files, space: Files -> nat, needed: nat)
    requires h != []
    ensures Meanwhile(h, h, base, space, needed)
  {
  }

  lemma MeanwhileNext(h: seq<Files>, now: seq<Files>, next: seq<Files>, base: Files, space: Files -> nat, needed: nat)
    requires Meanwhile(h, now, base, space, needed) && space(now[|now| - 1]) < needed
    requires next == now || (|next| == |now| + 1 && now <= next && Pruned(base, next[|now|]))
    ensures Meanwhile(h, next, base, space, needed)
  {
  }

  lemma MeanwhileMeans(h: seq<Files>, now: seq<Files>, base: Files, space: Files -> nat, needed: nat)
    requires Meanwhile(h, now, base, space, needed)
    ensures h <= now && Since(now, |h|, st => Pruned(base, st))
    ensures forall k :: |h| - 1 <= k < |now| - 1 ==> space(now[k]) < needed
  {
  }

  lemma SomeNext(names: seq<Option<string>>, i: nat)
    requires i < |names|
    ensures forall p :: Some(p) in names[..i + 1] <==> Some(p) in names[..i] || names[i] == Some(p)
    ensures names[i] in names && forall p :: Some(p) in names[..i] ==> Some(p) in names
  {
    assert names[..i + 1] == names[..i] + [names[i]];
  }

  method DeleteOne(disk: Disk, path: string, ghost base: Files, ghost tried: seq<string>, ghost h: seq<Files>,
      ghost space: Files -> nat, ghost needed: nat)
    requires disk.Valid() && Progress(base, disk.files, tried, disk.obliging) && Expendable(path)
    requires Meanwhile(h, disk.history, base, space, needed) && space(disk.files) < needed
    modifies disk`files, disk`history
    ensures disk.Valid() && Progress(base, disk.files, tried + [path], disk.obliging) &&
            Meanwhile(h, disk.history, base, space, needed)
  {
    hide Expendable, Pruned, Progress, Meanwhile;
    disk.Unlink(path);
    OneTried(base, old(disk.files), disk.files, tried, path, disk.obliging);
    MeanwhileNext(h, old(disk.history), disk.history, base, space, needed);
  }

  /** Only expendable files are gone, all of them tried; and if unlink works, everything tried is gone. */
  ghost predicate Progress(base: Files, st: Files, tried: seq<string>, obliging: bool)
  {
    && Pruned(base, st)
    && (forall p :: p in base && p !in st ==> p in tried)
    && (obliging ==> forall p :: p in tried ==> p !in st)
  }

  lemma NothingTried(base: Files, obliging: bool)
    ensures Progress(base, base, [], obliging) && Pruned(base, base)
  {
  }

  lemma OneTried(base: Files, st: Files, st': Files, tried: seq<string>, path: string, obliging: bool)
    requires Progress(base, st, tried, obliging) && Expendable(path)
    requires (st' == st && !obliging) || st' == st - {path}
    ensures Progress(base, st', tried + [path], obliging) && Pruned(base, st')
  {
  }

  lemma Tried(base: Files, st: Files, tried: seq<string>, obliging: bool)
    requires Progress(base, st, tried, obliging)
    ensures Pruned(base, st) && (forall p :: p in base && p !in st ==> p in tried)
    ensures obliging ==> forall p :: p in tried ==> p !in st
  {
  }
}
