/** Which entries mzExtractRecursive extracts, and where to (Zip.c:852-1022). */
module ZipExtract {
  import opened Bytes
  import opened ZipNames

  const SLASH: Byte := 47

  /** The directory with one slash at its end; the empty directory stays empty (Zip.c:953-967). */
  function ZipPath(zipDir: Name): (r: Name)
  {
    if zipDir != [] && zipDir[|zipDir| - 1] != SLASH then zipDir + [SLASH] else zipDir
  }

  /** What every target path starts with. */
  function Base(targetDir: Name): (r: Name)
  {
    if targetDir == [] || targetDir[|targetDir| - 1] != SLASH then targetDir + [SLASH] else targetDir
  }

  /** r is the shortest name that starts with dir and ends in a slash. */
  ghost predicate SlashEnded(dir: Name, r: Name)
  {
    dir <= r && r != [] && r[|r| - 1] == 0x2f &&
    forall q: Name :: dir <= q && q != [] && q[|q| - 1] == 0x2f ==> |r| <= |q|
  }

  lemma DirectoriesEnd(dir: Name)
    ensures SlashEnded(dir, Base(dir)) && ZipPath([]) == [] && (dir != [] ==> SlashEnded(dir, ZipPath(dir)))
  {
    forall q: Name | dir <= q && q != [] && q[|q| - 1] == 0x2f
      ensures |Base(dir)| <= |q|
    {
      if |q| == |dir| { assert q == dir; }
    }
  }

  /** What extracting one entry uses: its number and its target path. */
  datatype Step = Step(index: nat, path: Name)

  /** The steps, from entry i on, for the entries below the directory zpath. */
  function Plan(es: seq<ZipEntry>, zpath: Name, base: Name, i: nat): (r: seq<Step>)
    requires i <= |es|
    decreases |es| - i
  {
    if i == |es| then []
    else if zpath <= es[i].name then [Step(i, base + es[i].name[|zpath|..])] + Plan(es, zpath, base, i + 1)
    else Plan(es, zpath, base, i + 1)
  }

  /** Every step of the plan is for an entry below the directory, with its path, and steps follow array order. */
  lemma {:induction false} PlanSound(es: seq<ZipEntry>, zpath: Name, base: Name, i: nat)
    requires i <= |es|
    ensures forall k :: 0 <= k < |Plan(es, zpath, base, i)| ==>
              var s := Plan(es, zpath, base, i)[k];
              i <= s.index < |es| && zpath <= es[s.index].name && s.path == base + es[s.index].name[|zpath|..]
    ensures forall k, l :: 0 <= k < l < |Plan(es, zpath, base, i)| ==>
              Plan(es, zpath, base, i)[k].index < Plan(es, zpath, base, i)[l].index
    decreases |es| - i
  {
    if i < |es| {
      PlanSound(es, zpath, base, i + 1);
      PlanNext(es, zpath, base, i);
      hide Plan;
    }
  }

  /** Every entry below the directory has a step. */
  lemma {:induction false} PlanComplete(es: seq<ZipEntry>, zpath: Name, base: Name, i: nat, n: nat)
    requires i <= n < |es| && zpath <= es[n].name
    ensures exists k :: 0 <= k < |Plan(es, zpath, base, i)| && Plan(es, zpath, base, i)[k].index == n
    decreases |es| - i
  {
    var r := Plan(es, zpath, base, i);
    if n == i {
      assert r[0].index == n;
    } else {
      PlanComplete(es, zpath, base, i + 1, n);
      var q := Plan(es, zpath, base, i + 1);
      var k :| 0 <= k < |q| && q[k].index == n;
      assert r[k + |r| - |q|] == q[k];
    }
  }

  /** A name between two names that start with p starts with p. */
  lemma {:induction false} PrefixConvex(p: Name, a: Name, b: Name, c: Name)
    requires Before(a, b) && Before(b, c) && p <= a && p <= c
    ensures p <= b
  {
    if p != [] {
      assert p[0] == a[0] == c[0] == b[0];
      PrefixConvex(p[1..], a[1..], b[1..], c[1..]);
      assert b == [b[0]] + b[1..] && p == [p[0]] + p[1..];
    }
  }

  /** In a sorted array nothing after a mismatch that follows a match can match. */
  lemma {:induction false} NoneAfter(es: seq<ZipEntry>, zpath: Name, base: Name, seen: nat, i: nat, n: nat)
    requires Sorted(es) && seen < i <= n <= |es| && i < |es| && zpath <= es[seen].name && !(zpath <= es[i].name)
    ensures Plan(es, zpath, base, n) == []
    decreases |es| - n
  {
    if n < |es| {
      NoneAfter(es, zpath, base, seen, i, n + 1);
      if zpath <= es[n].name { PrefixConvex(zpath, es[seen].name, es[i].name, es[n].name); }
    }
  }

  /** strncmp over the whole of a directory that holds no NUL is a prefix test. */
  lemma {:induction false} StrncmpIsPrefix(name: Name, zpath: Name)
    requires |zpath| <= |name| && forall i :: 0 <= i < |zpath| ==> zpath[i] != 0
    ensures Strncmp(name, zpath, |zpath|) == 0 <==> zpath <= name
  {
    if zpath != [] {
      StrncmpIsPrefix(name[1..], zpath[1..]);
      assert name == [name[0]] + name[1..] && zpath == [zpath[0]] + zpath[1..];
    }
  }

  /** MzPathHelper (Zip.c:852-859): a growing buffer whose first part is written once. */
  class PathHelper {
    const targetDir: Name
    const zipDirLen: nat
    var buf: array?<Byte>
    var targetDirLen: nat

    ghost predicate Valid()
      reads this, buf
    {
      if buf == null then targetDirLen == |targetDir|
      else targetDirLen == |Base(targetDir)| <= buf.Length && buf[..targetDirLen] == Base(targetDir)
    }

    /** Zip.c:971-977 */
    constructor (targetDir: Name, zipDirLen: nat)
      ensures Valid() && buf == null && this.targetDir == targetDir && this.zipDirLen == zipDirLen
    {
      this.targetDir, this.zipDirLen := targetDir, zipDirLen;
      buf, targetDirLen := null, |targetDir|;
    }

    /** The realloc (Zip.c:872-884): at least needLen bytes, the old ones kept. */
    method Grow(needLen: nat)
      requires Valid() && needLen > 0
      modifies this`buf
      ensures buf != null && buf.Length >= needLen && (buf == old(buf) || fresh(buf)) &&
              targetDirLen == old(targetDirLen)
      ensures old(buf) != null ==> Valid()
    {
      var bufLen := if buf == null then 0 else buf.Length;
      if needLen > bufLen {
        var newBuf := new Byte[needLen * 2];
        if buf != null {
          forall i | 0 <= i < buf.Length {
            newBuf[i] := buf[i];
          }
          assert newBuf[..targetDirLen] == buf[..targetDirLen];
        }
        buf := newBuf;
      }
    }

    /** memcpy into the buffer. */
    method Put(at: nat, bytes: Name)
      requires buf != null && at + |bytes| <= buf.Length
      modifies buf
      ensures buf[..at + |bytes|] == old(buf[..at]) + bytes
    {
      forall i | at <= i < at + |bytes| {
        buf[i] := bytes[i - at];
      }
    }

    /** The first call writes the directory and its slash (Zip.c:888-896). */
    method WriteBase()
      requires buf != null && targetDirLen == |targetDir| && targetDirLen + 1 <= buf.Length
      modifies this`targetDirLen, buf
      ensures Valid() && targetDirLen <= old(targetDirLen) + 1
    {
      Put(0, targetDir);
      var p := targetDirLen;
      assert buf[..p] == targetDir;
      if p == 0 || buf[p - 1] != SLASH {
        targetDirLen := targetDirLen + 1;
        Put(p, [SLASH]);
      }
    }

    /** targetEntryPath (Zip.c:865-908): the path is built in place, within the buffer, and ends in a NUL. */
    method TargetEntryPath(name: Name) returns (path: Name)
      requires Valid() && zipDirLen <= |name|
      modifies this, buf
      ensures Valid() && buf != null && (buf == old(buf) || fresh(buf))
      ensures path == Base(targetDir) + name[zipDirLen..] && path + [0] <= buf[..]
    {
      var firstTime := buf == null;
      Grow(targetDirLen + 1 + |name| - zipDirLen + 1);
      if firstTime {
        WriteBase();
      }
      hide Base;
      Put(targetDirLen, name[zipDirLen..]);
      var end := targetDirLen + |name| - zipDirLen;
      path := buf[..end];
      buf[end] := 0;
      assert buf[..targetDirLen] == path[..targetDirLen];
    }
  }

  /**
   The selection loop of mzExtractRecursive (Zip.c:930-1022) over a sorted archive: it stops at the first mismatch
   after a match, and yet when no step fails it has gone through exactly the entries below the directory, in
   order, each with its target path.  works says whether extracting an entry succeeds.
   */
  method ExtractRecursive(entries: array<ZipEntry>, zipDir: Name, targetDir: Name, works: nat -> bool)
    returns (completed: bool, steps: seq<Step>)
    requires Sorted(entries[..]) && forall i :: 0 <= i < |zipDir| ==> zipDir[i] != 0
    ensures (zipDir != [] && zipDir[0] == SLASH) || targetDir == [] || targetDir[0] != SLASH <==>
              !completed && steps == []
    ensures completed ==> steps == Plan(entries[..], ZipPath(zipDir), Base(targetDir), 0)
    ensures completed ==> forall k :: 0 <= k < |steps| ==> works(steps[k].index)
    ensures !completed && steps != [] ==>
              steps <= Plan(entries[..], ZipPath(zipDir), Base(targetDir), 0)
    ensures !completed && steps != [] ==> forall k :: 0 <= k < |steps| ==> (works(steps[k].index) <==> k < |steps| - 1)
  {
    completed, steps := false, [];
    if zipDir != [] && zipDir[0] == SLASH { return; }
    if targetDir == [] || targetDir[0] != SLASH { return; }
    var zpath := zipDir;
    if |zipDir| > 0 && zipDir[|zipDir| - 1] != SLASH {
      zpath := zipDir + [SLASH];
    }
    hide Sorted, Plan, Base;
    completed, steps := Walk(entries, zpath, targetDir, works);
  }

  /** The loop itself (Zip.c:984-1034). */
  method Walk(entries: array<ZipEntry>, zpath: Name, targetDir: Name, works: nat -> bool)
    returns (completed: bool, steps: seq<Step>)
    requires Sorted(entries[..]) && forall i :: 0 <= i < |zpath| ==> zpath[i] != 0
    ensures var goal := Plan(entries[..], zpath, Base(targetDir), 0);
            steps <= goal && (completed ==> steps == goal)
    ensures completed ==> forall k :: 0 <= k < |steps| ==> works(steps[k].index)
    ensures !completed ==> steps != [] && forall k :: 0 <= k < |steps| ==> (works(steps[k].index) <==> k < |steps| - 1)
  {
    hide Sorted, Plan, Base, StartsWith, PathHelper.Valid;
    var helper := new PathHelper(targetDir, |zpath|);
    var seenMatch := false;
    completed, steps := true, [];
    var i := 0;
    ghost var es, base, seen := entries[..], Base(targetDir), 0;
    ghost var goal := Plan(es, zpath, base, 0);
    while i < entries.Length
      invariant i <= entries.Length && helper.Valid() && helper.targetDir == targetDir && helper.zipDirLen == |zpath|
      invariant fresh(helper) && (helper.buf == null || fresh(helper.buf))
      invariant steps + Plan(es, zpath, base, i) == goal
      invariant seenMatch ==> seen < i && zpath <= es[seen].name
      invariant completed && forall k :: 0 <= k < |steps| ==> works(steps[k].index)
    {
      PlanNext(es, zpath, base, i);
      if !StartsWith(entries[i].name, zpath) {
        if seenMatch {
          NoneAfter(es, zpath, base, seen, i, i);
          return;
        }
        i := i + 1;
        continue;
      }
      seenMatch, seen := true, i;
      var path := helper.TargetEntryPath(entries[i].name);
      OneStep(steps, Step(i, path), Plan(es, zpath, base, i + 1));
      steps := steps + [Step(i, path)];
      i := i + 1;
      if !works(i - 1) {
        return false, steps;
      }
    }
    PlanEnd(es, zpath, base);
  }

  lemma OneStep(a: seq<Step>, s: Step, b: seq<Step>)
    ensures a + ([s] + b) == (a + [s]) + b
  {
  }

  /** The two tests an entry's name has to pass (Zip.c:989 and 1009). */
  predicate StartsWith(name: Name, zpath: Name)
    requires forall i :: 0 <= i < |zpath| ==> zpath[i] != 0
    ensures StartsWith(name, zpath) <==> zpath <= name
  {
    if |name| < |zpath| then false
    else
      StrncmpIsPrefix(name, zpath);
      Strncmp(name, zpath, |zpath|) == 0
  }

  lemma PlanNext(es: seq<ZipEntry>, zpath: Name, base: Name, i: nat)
    requires i < |es|
    ensures Plan(es, zpath, base, i) == if zpath <= es[i].name
              then [Step(i, base + es[i].name[|zpath|..])] + Plan(es, zpath, base, i + 1)
              else Plan(es, zpath, base, i + 1)
  {
  }

  lemma PlanEnd(es: seq<ZipEntry>, zpath: Name, base: Name)
    ensures Plan(es, zpath, base, |es|) == []
  {
  }
}
