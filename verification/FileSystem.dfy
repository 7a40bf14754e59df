/**
 A file system whose every effect is recorded: history lists each state the files have been in, so that a
 crash at any point leaves one of them.  System calls may fail; a write may stop anywhere.  On a legible disk no
 existing file fails to read, on a steady disk no write stops short, on an obliging disk no other call fails;
 readFaults counts the reads that failed and lostWrites the writes that stopped short without their caller looking.
 */
module FileSystem {
  import opened Bytes
  import opened Wrappers

  type Files = map<string, seq<Byte>>

  /** st is base except for what path holds, which it does hold. */
  ghost predicate OnlyAt(base: Files, st: Files, path: string)
  {
    path in st && st == base[path := st[path]]
  }

  /** Every state recorded after the first n satisfies p. */
  ghost predicate Since(history: seq<Files>, n: nat, p: Files -> bool)
  {
    forall i :: n <= i < |history| ==> p(history[i])
  }

  class Disk {
    const legible: bool
    const steady: bool
    const obliging: bool
    var files: Files
    var history: seq<Files>
    var readFaults: nat
    var lostWrites: nat

    ghost predicate Valid()
      reads this
    {
      history != [] && history[|history| - 1] == files
    }

    constructor (files: Files, legible: bool, steady: bool, obliging: bool)
      ensures Valid() && this.files == files && history == [files] && readFaults == lostWrites == 0
      ensures this.legible == legible && this.steady == steady && this.obliging == obliging
    {
      this.files, this.legible, this.steady, this.obliging := files, legible, steady, obliging;
      history, readFaults, lostWrites := [files], 0, 0;
    }

    /** One atomic effect. */
    method Set(f: Files)
      modifies this`files, this`history
      ensures Valid() && files == f && history == old(history) + [f]
    {
      files := f;
      history := history + [f];
    }

    /** LoadFileContents on a regular file (applypatch.c:42-79). */
    method Load(path: string) returns (r: Option<seq<Byte>>)
      requires Valid()
      modifies this`readFaults
      ensures r.Some? ==> path in files && r.value == files[path]
      ensures readFaults == old(readFaults) + if path in files && r.None? then 1 else 0
      ensures legible ==> readFaults == old(readFaults)
    {
      if path !in files { return None; }
      var fails: bool := *;
      if !legible && fails {
        readFaults := readFaults + 1;
        return None;
      }
      return Some(files[path]);
    }

    /** open with O_CREAT and O_TRUNC. */
    method Open(path: string) returns (ok: bool)
      requires Valid()
      modifies this`files, this`history
      ensures Valid() && old(history) <= history
      ensures if ok then files == old(files)[path := []] && history == old(history) + [files]
              else files == old(files) && history == old(history)
      ensures obliging ==> ok
    {
      var fails: bool := *;
      if !obliging && fails { return false; }
      Set(files[path := []]);
      return true;
    }

    /** FileSink (applypatch.c:446-459): writes at the end of an open file until done or an error. */
    method Write(path: string, data: seq<Byte>) returns (done: nat)
      requires Valid() && path in files
      modifies this`files, this`history
      ensures Valid() && old(history) <= history && done <= |data|
      ensures files == old(files)[path := old(files)[path] + data[..done]]
      ensures Since(history, |old(history)|, st => OnlyAt(old(files), st, path))
      ensures steady ==> done == |data|
    {
      done := 0;
      assert files[path] + data[..0] == files[path];
      while done < |data|
        invariant Valid() && old(history) <= history && done <= |data|
        invariant files == old(files)[path := old(files)[path] + data[..done]]
        invariant Since(history, |old(history)|, st => OnlyAt(old(files), st, path))
      {
        var fails: bool := *;
        if !steady && fails { return; }
        var wrote :| 0 < wrote <= |data| - done;
        done := done + wrote;
        Set(files[path := files[path] + data[done - wrote..done]]);
        assert data[..done] == data[..done - wrote] + data[done - wrote..done];
        assert old(files)[path] + data[..done] == old(files)[path] + data[..done - wrote] + data[done - wrote..done];
      }
    }

    /** SaveFileContents (applypatch.c:264-293). */
    method Save(path: string, data: seq<Byte>) returns (ok: bool)
      requires Valid()
      modifies this`files, this`history
      ensures Valid() && old(history) <= history
      ensures ok ==> files == old(files)[path := data]
      ensures steady && obliging ==> ok
      ensures Since(history, |old(history)|, st => OnlyAt(old(files), st, path))
    {
      ok := Open(path);
      if !ok { return; }
      ghost var base := files;
      var done := Write(path, data);
      assert forall st :: OnlyAt(base, st, path) ==> OnlyAt(old(files), st, path);
      if done != |data| { return false; }
      assert data[..done] == data && [] + data == data;
      ok := Chown();
    }

    /** chmod and chown; modes and owners are not modelled. */
    method Chown() returns (ok: bool)
      ensures obliging ==> ok
    {
      var fails: bool := *;
      ok := obliging || !fails;
    }

    /** unlink, its result ignored. */
    method Unlink(path: string)
      requires Valid()
      modifies this`files, this`history
      ensures Valid() && (files == old(files) || files == old(files) - {path})
      ensures history == old(history) || history == old(history) + [files]
      ensures files == old(files) ==> history == old(history) || files == old(files) - {path}
      ensures obliging ==> files == old(files) - {path}
    {
      var fails: bool := *;
      if obliging || !fails { Set(files - {path}); }
    }

    /** rename: atomic. */
    method Rename(from: string, to: string) returns (ok: bool)
      requires Valid()
      modifies this`files, this`history
      ensures Valid()
      ensures if ok then from in old(files) && files == (old(files) - {from})[to := old(files)[from]] &&
              history == old(history) + [files]
              else files == old(files) && history == old(history)
      ensures obliging && from in old(files) ==> ok
    {
      if from !in files { return false; }
      var fails: bool := *;
      if !obliging && fails { return false; }
      Set((files - {from})[to := files[from]]);
      return true;
    }
  }
}
