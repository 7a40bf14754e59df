/** minzip's archive (Zip.c): the central directory read into a sorted entry array with a hash index over it. */
module ZipArchive {
  import opened Bytes
  import opened Wrappers
  import opened Codec
  import opened Eocd
  import opened ZipNames
  import opened HashTable
  import opened Power2

  const LOCSIG := 0x04034b50
  const CENSIG := 0x02014b50
  const ENDSIG := 0x06054b50
  const LOCHDR := 30
  const CENHDR := 46
  const CENVEM_UNIX := 3

  function Get2LE(b: seq<Byte>, p: nat): (n: nat)
    requires p + 2 <= |b|
  {
    LeValue(b[p..p + 2])
  }

  function Get4LE(b: seq<Byte>, p: nat): (n: nat)
    requires p + 4 <= |b|
  {
    LeValue(b[p..p + 4])
  }

  /** The marker bytes are the ones whose 32-bit value is ENDSIG (Zip.c:215). */
  lemma MarkerIsSignature(b: seq<Byte>, i: nat)
    requires i + 4 <= |b|
    ensures Marker(b, i) <==> Get4LE(b, i) == ENDSIG
  {
    var w, m := b[i..i + 4], [0x50, 0x4b, 0x05, 0x06];
    assert LeValue(m[3..]) == 6 && LeValue(m[2..]) == 5 + 256 * LeValue(m[2..][1..]);
    assert LeValue(m[1..]) == 0x4b + 256 * LeValue(m[1..][1..]);
    assert m[2..][1..] == m[3..] && m[1..][1..] == m[2..];
    assert LeValue(m) == ENDSIG;
    if LeValue(w) == ENDSIG { LeInjective(w, m); }
    assert w == [b[i], b[i + 1], b[i + 2], b[i + 3]];
  }

  // ---------------------------------------------------------------- the central directory

  /** The record at ptr and its length, if it passes every test of parseZipArchive (Zip.c:255-391). */
  function ReadRecord(b: seq<Byte>, ptr: nat): (r: Option<(ZipEntry, nat)>)
    ensures r.Some? ==> ValidFilename(r.value.0.name) && r.value.0.offset + r.value.0.compLen <= |b|
    ensures r.Some? ==>
              && ptr + CENHDR + |r.value.0.name| <= |b|
              && r.value.0.name == b[ptr + CENHDR..ptr + CENHDR + |r.value.0.name|]
  {
    if ptr + CENHDR > |b| || Get4LE(b, ptr) != CENSIG then None
    else
      var localHdr := Get4LE(b, ptr + 42);
      var nameLen := Get2LE(b, ptr + 28);
      var extraLen := Get2LE(b, ptr + 30);
      var commentLen := Get2LE(b, ptr + 32);
      if ptr + CENHDR + nameLen > |b| || !ValidFilename(b[ptr + CENHDR..ptr + CENHDR + nameLen]) then None
      else if b[ptr + 5] != 0 && b[ptr + 5] != CENVEM_UNIX then None
      else if localHdr + LOCHDR > |b| || Get4LE(b, localHdr) != LOCSIG then None
      else
        var name := b[ptr + CENHDR..ptr + CENHDR + nameLen];
        var offset := localHdr + LOCHDR + Get2LE(b, localHdr + 26) + Get2LE(b, localHdr + 28);
        var compLen := Get4LE(b, ptr + 20);
        if offset + compLen > |b| then None
        else
          Some((ZipEntry(name, compLen, Get4LE(b, ptr + 24), Get2LE(b, ptr + 10), Get4LE(b, ptr + 12),
              Get4LE(b, ptr + 16), Get2LE(b, ptr + 4), Get4LE(b, ptr + 38), offset),
                CENHDR + nameLen + extraLen + commentLen))
  }

  /** The first n records from start, in file order, and where the next would begin; None if one is refused. */
  ghost function Records(b: seq<Byte>, start: nat, n: nat): (r: Option<(seq<ZipEntry>, nat)>)
  {
    if n == 0 then Some(([], start))
    else
      match Records(b, start, n - 1)
      case None => None
      case Some((es, ptr)) =>
        match ReadRecord(b, ptr)
        case None => None
        case Some((e, size)) => Some((es + [e], ptr + size))
  }

  lemma {:induction false} RefusedStays(b: seq<Byte>, start: nat, i: nat, n: nat)
    requires i <= n && Records(b, start, i).None?
    ensures Records(b, start, n).None?
    decreases n
  {
    hide ReadRecord;
    if i < n { RefusedStays(b, start, i, n - 1); }
  }

  /** dir is the central directory of the archive b, in file order (Zip.c:199-240 and the record loop). */
  ghost predicate HasDirectory(b: seq<Byte>, at: nat, dir: seq<ZipEntry>)
  {
    && |b| >= EOCD_HEADER_SIZE && Get4LE(b, 0) == LOCSIG && LastMarker(b, |b| - EOCD_HEADER_SIZE, at)
    && Pointed(b, at, dir)
  }

  /** The end record at at points at these entries. */
  ghost predicate Pointed(b: seq<Byte>, at: nat, dir: seq<ZipEntry>)
  {
    && at + EOCD_HEADER_SIZE <= |b| && |dir| == Get2LE(b, at + 8) > 0 && Get4LE(b, at + 16) < |b|
    && var r := Records(b, Get4LE(b, at + 16), |dir|); r.Some? && r.value.0 == dir
  }

  // ---------------------------------------------------------------- the index

  /** computeHash (Zip.c:136-144). */
  function ComputeHash(name: Name): (h: nat)
  {
    if name == [] then 2 else (ComputeHash(name[..|name| - 1]) * 31 + name[|name| - 1]) % 0x1_0000_0000
  }

  function NameAt(es: seq<ZipEntry>, i: nat): (r: Name)
  {
    if i < |es| then es[i].name else []
  }

  function Numbers(n: nat): (r: seq<nat>)
    ensures |r| == n && forall i :: 0 <= i < n ==> r[i] == i
  {
    seq(n, i => i)
  }

  /** The first entry with that name, by a linear scan. */
  function LinearFind(es: seq<ZipEntry>, name: Name): (r: Option<nat>)
    ensures r.Some? ==>
              r.value < |es| && es[r.value].name == name && forall j :: 0 <= j < r.value ==> es[j].name != name
    ensures r.None? ==> forall j :: 0 <= j < |es| ==> es[j].name != name
  {
    if es == [] then None
    else if LinearFind(es[..|es| - 1], name).Some? then LinearFind(es[..|es| - 1], name)
    else if es[|es| - 1].name == name then Some(|es| - 1)
    else None
  }

  /** m sends each name to the lowest index that carries it. */
  ghost predicate Indexes(m: map<Name, nat>, es: seq<ZipEntry>)
  {
    forall name: Name :: LinearFind(es, name) == if name in m then Some(m[name]) else None
  }

  /** Adding the entries in array order indexes the first of each name. */
  lemma {:induction false} AddsIndex(es: seq<ZipEntry>, n: nat, key: nat -> Name)
    requires n <= |es| && forall i :: 0 <= i < |es| ==> key(i) == es[i].name
    ensures Indexes(MapRun(map[], key, Adds(Numbers(n))).0, es[..n])
  {
    if n > 0 {
      AddsIndex(es, n - 1, key);
      var ops: seq<Op<Name, nat>> := Adds(Numbers(n));
      assert ops[..n - 1] == Adds<Name, nat>(Numbers(n - 1));
      assert es[..n][..n - 1] == es[..n - 1];
      var m := MapRun(map[], key, ops[..n - 1]).0;
      assert MapRun(map[], key, ops).0 == MapStep(m, key, ops[n - 1]).0;
    }
  }

  class ZipArchive {
    const entries: array<ZipEntry>
    const hash: HashTable<Name, nat>

    /** The array is sorted and the table indexes it. */
    ghost predicate Valid()
      reads this, entries, hash, hash.entries
    {
      && hash.Valid() && Sorted(entries[..]) && AllValid(entries[..])
      && Indexes(hash.Contents, entries[..])
    }

    constructor (entries: array<ZipEntry>, hash: HashTable<Name, nat>)
      ensures this.entries == entries && this.hash == hash
    {
      this.entries, this.hash := entries, hash;
    }

    lemma Indexed()
      requires hash.Valid() && Sorted(entries[..]) && AllValid(entries[..]) && Indexes(hash.Contents, entries[..])
      ensures Valid()
    {
    }

    /** mzFindZipEntry (Zip.c:505-512): the hash index answers as a linear scan of the array. */
    method FindZipEntry(name: Name) returns (r: Option<nat>)
      requires Valid()
      ensures r == LinearFind(entries[..], name)
    {
      r := hash.Lookup(name);
    }
  }

  /** The record loop (Zip.c:248-392): all records pass, and then the array holds them sorted by name. */
  method ReadDirectory(b: seq<Byte>, start: nat, n: nat) returns (r: Option<array<ZipEntry>>)
    ensures r.Some? <==> Records(b, start, n).Some?
    ensures r.Some? ==> fresh(r.value) && r.value.Length == n && Sorted(r.value[..]) && AllValid(r.value[..])
    ensures r.Some? ==> multiset(r.value[..]) == multiset(Records(b, start, n).value.0)
  {
    hide *;
    var entries := new ZipEntry[n];
    var ptr := start;
    ghost var seen: seq<ZipEntry> := [];
    NothingRead(b, start, entries[..0]);
    for i := 0 to n
      invariant Records(b, start, i) == Some((seen, ptr))
      invariant Sorted(entries[..i]) && AllValid(entries[..i]) && multiset(entries[..i]) == multiset(seen)
    {
      var rec := ReadRecord(b, ptr);
      NextRecord(b, start, i, seen, ptr);
      if rec.None? {
        RefusedStays(b, start, i + 1, n);
        return None;
      }
      Insert(entries, i, rec.value.0);
      seen := seen + [rec.value.0];
      ptr := ptr + rec.value.1;
    }
    assert entries[..n] == entries[..];
    r := Some(entries);
  }

  lemma NextRecord(b: seq<Byte>, start: nat, i: nat, seen: seq<ZipEntry>, ptr: nat)
    requires Records(b, start, i) == Some((seen, ptr))
    ensures ReadRecord(b, ptr).None? ==> Records(b, start, i + 1).None?
    ensures ReadRecord(b, ptr).Some? ==>
              Records(b, start, i + 1) == Some((seen + [ReadRecord(b, ptr).value.0], ptr + ReadRecord(b, ptr).value.1))
  {
    hide ReadRecord;
  }

  lemma NothingRead(b: seq<Byte>, start: nat, es: seq<ZipEntry>)
    requires es == []
    ensures Sorted(es) && AllValid(es) && Records(b, start, 0) == Some((es, start))
  {
  }

  /** The final loop (Zip.c:244 and 394-404) over a table of the size mzHashSize gives: it never grows. */
  method BuildIndex(entries: array<ZipEntry>) returns (h: HashTable<Name, nat>)
    requires 0 < entries.Length < 0x1_0000
    ensures fresh(h) && fresh(h.entries) && h.Valid() && Indexes(h.Contents, entries[..])
    ensures MzHashSize(entries.Length) <= h.entries.Length < 2 * MzHashSize(entries.Length)
  {
    var es := entries[..];
    var key := (i: nat) => NameAt(es, i);
    Capacity(entries.Length);
    h := new HashTable<Name, nat>(MzHashSize(entries.Length), key, ComputeHash);
    Fill(h, Numbers(entries.Length));
    AddsIndex(es, |es|, key);
    assert es[..|es|] == es;
  }

  lemma Capacity(n: nat)
    requires n < 0x1_0000
    ensures MzHashSize(n) <= Pow2(WORD - 1)
  {
    assert Pow2(4) == 16 && Pow2(8) == 256 && Pow2(12) == 4096 && Pow2(16) == 0x1_0000 && Pow2(20) == 0x10_0000;
    assert Pow2(24) == 0x100_0000 && Pow2(28) == 0x1000_0000 && Pow2(31) == 0x8000_0000;
  }

  /** parseZipArchive, called on any mapped file (Zip.c:187-414 and 453). */
  method Parse(b: seq<Byte>) returns (r: Option<ZipArchive>)
    ensures r.Some? <==> exists at: nat, dir :: HasDirectory(b, at, dir)
    ensures r.Some? ==> fresh(r.value) && r.value.Valid()
    ensures r.Some? ==> forall at: nat, dir :: HasDirectory(b, at, dir) ==>
              multiset(r.value.entries[..]) == multiset(dir)
  {
    hide HasDirectory, Records, ReadRecord, Indexes, Sorted, AllValid, LastMarker, Marker, LeValue, ZipArchive.Valid;
    if |b| < EOCD_HEADER_SIZE || Get4LE(b, 0) == ENDSIG || Get4LE(b, 0) != LOCSIG {
      NoDirectory(b);
      return None;
    }
    var end := FindEocd(b);
    if end.None? {
      NoRecord(b);
      return None;
    }
    var at := end.value;
    RecordFits(b, at);
    var numEntries := Get2LE(b, at + 8);
    var cdOffset := Get4LE(b, at + 16);
    OneDirectory(b, at);
    if numEntries == 0 || cdOffset >= |b| {
      return None;
    }
    var entries := ReadDirectory(b, cdOffset, numEntries);
    if entries.None? {
      return None;
    }
    var hash := BuildIndex(entries.value);
    var z := new ZipArchive(entries.value, hash);
    z.Indexed();
    r := Some(z);
  }

  lemma NoDirectory(b: seq<Byte>)
    requires |b| < EOCD_HEADER_SIZE || Get4LE(b, 0) != LOCSIG
    ensures forall at: nat, dir :: !HasDirectory(b, at, dir)
  {
  }

  lemma NoRecord(b: seq<Byte>)
    requires forall j :: 0 <= j <= |b| - EOCD_HEADER_SIZE ==> !Marker(b, j)
    ensures forall at: nat, dir :: !HasDirectory(b, at, dir)
  {
  }

  lemma RecordFits(b: seq<Byte>, at: nat)
    requires LastMarker(b, |b| - EOCD_HEADER_SIZE, at)
    ensures at + EOCD_HEADER_SIZE <= |b| && Get2LE(b, at + 8) < 0x1_0000
  {
    assert Pow256(1) == 256 && Pow256(2) == 256 * Pow256(1);
  }

  lemma {:induction false} RecordsCount(b: seq<Byte>, start: nat, n: nat)
    ensures Records(b, start, n).Some? ==> |Records(b, start, n).value.0| == n
  {
    hide ReadRecord;
    if n > 0 { RecordsCount(b, start, n - 1); }
  }

  lemma OneLast(b: seq<Byte>, at: nat, at': nat)
    requires LastMarker(b, |b| - EOCD_HEADER_SIZE, at)
    ensures LastMarker(b, |b| - EOCD_HEADER_SIZE, at') ==> at == at'
    ensures forall dir :: HasDirectory(b, at', dir) ==> at == at'
  {
    hide Get4LE, Pointed;
    assert Marker(b, at);
  }

  lemma PointedIs(b: seq<Byte>, at: nat, dir: seq<ZipEntry>)
    requires at + EOCD_HEADER_SIZE <= |b|
    ensures var (n, cd) := (Get2LE(b, at + 8), Get4LE(b, at + 16));
            Pointed(b, at, dir) <==> n > 0 && cd < |b| && Records(b, cd, n).Some? && Records(b, cd, n).value.0 == dir
  {
    RecordsCount(b, Get4LE(b, at + 16), Get2LE(b, at + 8));
    hide Records, Get2LE, Get4LE;
  }

  lemma HasPointed(b: seq<Byte>, at: nat, at': nat, dir: seq<ZipEntry>)
    requires |b| >= EOCD_HEADER_SIZE && LastMarker(b, |b| - EOCD_HEADER_SIZE, at) && Get4LE(b, 0) == LOCSIG
    ensures HasDirectory(b, at', dir) <==> at' == at && Pointed(b, at, dir)
  {
    hide Pointed, Get4LE, LastMarker;
    OneLast(b, at, at');
  }

  /** A file has at most one central directory in this sense: what its last end record points at. */
  lemma OneDirectory(b: seq<Byte>, at: nat)
    requires |b| >= EOCD_HEADER_SIZE && LastMarker(b, |b| - EOCD_HEADER_SIZE, at) && Get4LE(b, 0) == LOCSIG
    ensures var (n, cd) := (Get2LE(b, at + 8), Get4LE(b, at + 16));
      && (forall at': nat, dir :: HasDirectory(b, at', dir) ==>
            n > 0 && cd < |b| && Records(b, cd, n).Some? && Records(b, cd, n).value.0 == dir)
      && (n > 0 && cd < |b| && Records(b, cd, n).Some? ==> HasDirectory(b, at, Records(b, cd, n).value.0))
  {
    RecordFits(b, at);
    hide *;
    var (n, cd) := (Get2LE(b, at + 8), Get4LE(b, at + 16));
    forall at': nat, dir | HasDirectory(b, at', dir)
      ensures n > 0 && cd < |b| && Records(b, cd, n).Some? && Records(b, cd, n).value.0 == dir
    {
      HasPointed(b, at, at', dir);
      PointedIs(b, at, dir);
    }
    if n > 0 && cd < |b| && Records(b, cd, n).Some? {
      var dir := Records(b, cd, n).value.0;
      PointedIs(b, at, dir);
      HasPointed(b, at, at, dir);
    }
  }
}
