/** The order of zip entry names, and the in-place binary insertion that keeps the entry array in it (Zip.c:278-323). */
module ZipNames {
  import opened Bytes

  type Name = seq<Byte>

  const PATH_MAX := 4096

  /** The fields of a ZipEntry (Zip.h). */
  datatype ZipEntry = ZipEntry(name: Name, compLen: nat, uncompLen: nat, compression: nat, modTime: nat, crc32: nat,
                               versionMadeBy: nat, attributes: nat, offset: nat)

  /** validFilename (Zip.c:160-178). */
  predicate ValidFilename(name: Name)
  {
    |name| < PATH_MAX && forall i :: 0 <= i < |name| ==> 32 <= name[i] < 127
  }

  /** Lexicographic order, a proper prefix first. */
  predicate Before(a: Name, b: Name)
  {
    a == [] || (b != [] && (a[0] < b[0] || (a[0] == b[0] && Before(a[1..], b[1..]))))
  }

  lemma {:induction false} BeforeTransitive(a: Name, b: Name, c: Name)
    requires Before(a, b) && Before(b, c)
    ensures Before(a, c)
  {
    if a != [] && a[0] == b[0] == c[0] { BeforeTransitive(a[1..], b[1..], c[1..]); }
  }

  lemma {:induction false} BeforeAntisymmetric(a: Name, b: Name)
    ensures Before(a, b) || Before(b, a)
    ensures Before(a, b) && Before(b, a) ==> a == b
    ensures a == b ==> Before(a, b)
  {
    if a != [] && b != [] {
      BeforeAntisymmetric(a[1..], b[1..]);
      assert a == [a[0]] + a[1..] && b == [b[0]] + b[1..];
    }
  }

  /** strncmp on the first n bytes, stopping at a NUL. */
  function Strncmp(a: Name, b: Name, n: nat): (d: int)
    requires n <= |a| && n <= |b|
  {
    if n == 0 then 0
    else if a[0] != b[0] then a[0] as int - b[0] as int
    else if a[0] == 0 then 0
    else Strncmp(a[1..], b[1..], n - 1)
  }

  /** How parseZipArchive compares two names (Zip.c:293-302). */
  function Compare(a: Name, b: Name): (d: int)
  {
    var diffLen := if |a| < |b| then |a| else |b|;
    var diff := Strncmp(a, b, diffLen);
    if diff == 0 then |a| - |b| else diff
  }

  /** On valid names the comparison is the lexicographic order. */
  lemma {:induction false} CompareIsOrder(a: Name, b: Name)
    requires forall i :: 0 <= i < |a| ==> a[i] != 0
    ensures Compare(a, b) <= 0 <==> Before(a, b)
    ensures Compare(a, b) == 0 <==> a == b
  {
    if a != [] && b != [] {
      CompareIsOrder(a[1..], b[1..]);
      assert a == [a[0]] + a[1..] && b == [b[0]] + b[1..];
    }
  }

  ghost predicate Sorted(es: seq<ZipEntry>)
  {
    forall i, j :: 0 <= i <= j < |es| ==> Before(es[i].name, es[j].name)
  }

  ghost predicate AllValid(es: seq<ZipEntry>)
  {
    forall i :: 0 <= i < |es| ==> ValidFilename(es[i].name)
  }

  /** Where a new name goes: everything before it is not after it, everything from there on is not before it. */
  ghost predicate Place(es: seq<ZipEntry>, name: Name, t: int)
  {
    && 0 <= t <= |es|
    && (forall i :: 0 <= i < t ==> Before(es[i].name, name))
    && (forall i :: t <= i < |es| ==> Before(name, es[i].name))
  }

  lemma PlaceKeepsOrder(es: seq<ZipEntry>, t: nat, e: ZipEntry)
    requires Sorted(es) && Place(es, e.name, t)
    ensures Sorted(es[..t] + [e] + es[t..])
  {
    var r := es[..t] + [e] + es[t..];
    BeforeAntisymmetric(e.name, e.name);
    forall i, j | 0 <= i <= j < |r|
      ensures Before(r[i].name, r[j].name)
    {
      assert r[i] == (if i < t then es[i] else if i == t then e else es[i - 1]);
      assert r[j] == (if j < t then es[j] else if j == t then e else es[j - 1]);
    }
  }

  lemma LowSide(es: seq<ZipEntry>, name: Name, mid: nat)
    requires Sorted(es) && mid < |es| && Before(es[mid].name, name)
    ensures forall i :: 0 <= i <= mid ==> Before(es[i].name, name)
  {
    forall i | 0 <= i <= mid
      ensures Before(es[i].name, name)
    {
      BeforeTransitive(es[i].name, es[mid].name, name);
    }
  }

  lemma HighSide(es: seq<ZipEntry>, name: Name, mid: nat)
    requires Sorted(es) && mid < |es| && Before(name, es[mid].name)
    ensures forall i :: mid <= i < |es| ==> Before(name, es[i].name)
  {
    forall i | mid <= i < |es|
      ensures Before(name, es[i].name)
    {
      BeforeTransitive(name, es[mid].name, es[i].name);
    }
  }

  /** The binary search of parseZipArchive (Zip.c:281-313). */
  method FindPlace(entries: array<ZipEntry>, i: nat, name: Name) returns (t: nat)
    requires i <= entries.Length && Sorted(entries[..i]) && AllValid(entries[..i])
    ensures Place(entries[..i], name, t)
  {
    hide Sorted, Before, Compare;
    ghost var es := entries[..i];
    var low, high := 0, i - 1;
    while low <= high
      invariant 0 <= low <= high + 1 <= i
      invariant forall k :: 0 <= k < low ==> Before(es[k].name, name)
      invariant forall k :: high < k < i ==> Before(name, es[k].name)
    {
      var mid := low + (high - low) / 2;
      assert es[mid] == entries[mid];
      var diff := Compare(entries[mid].name, name);
      CompareIsOrder(entries[mid].name, name);
      BeforeAntisymmetric(entries[mid].name, name);
      if diff <= 0 { LowSide(es, name, mid); }
      if diff >= 0 { HighSide(es, name, mid); }
      if diff < 0 {
        low := mid + 1;
      } else if diff > 0 {
        high := mid - 1;
      } else {
        high := mid;
        break;
      }
    }
    t := high + 1;
  }

  /** Puts an entry in its place among the first i (Zip.c:313-335): the rest moves up by one. */
  method Insert(entries: array<ZipEntry>, i: nat, e: ZipEntry)
    requires i < entries.Length && Sorted(entries[..i]) && AllValid(entries[..i]) && ValidFilename(e.name)
    modifies entries
    ensures Sorted(entries[..i + 1]) && AllValid(entries[..i + 1])
    ensures multiset(entries[..i + 1]) == multiset(old(entries[..i])) + multiset{e}
  {
    hide *;
    ghost var es := entries[..i];
    var t := FindPlace(entries, i, e.name);
    PlaceInRange(es, e.name, t);
    PlaceKeepsOrder(es, t, e);
    InsertedContents(es, t, e);
    MakeRoom(entries, i, t, e);
  }

  /** The memmove and the assignment (Zip.c:315-335). */
  method MakeRoom(entries: array<ZipEntry>, i: nat, t: nat, e: ZipEntry)
    requires t <= i < entries.Length
    modifies entries
    ensures entries[..i + 1] == old(entries[..i][..t]) + [e] + old(entries[..i][t..])
  {
    if t != i {
      forall k | t <= k < i {
        entries[k + 1] := entries[k];
      }
    }
    entries[t] := e;
  }

  lemma InsertedContents(es: seq<ZipEntry>, t: nat, e: ZipEntry)
    requires t <= |es| && AllValid(es) && ValidFilename(e.name)
    ensures AllValid(es[..t] + [e] + es[t..])
    ensures multiset(es[..t] + [e] + es[t..]) == multiset(es) + multiset{e}
  {
    assert es == es[..t] + es[t..];
  }

  lemma PlaceInRange(es: seq<ZipEntry>, name: Name, t: int)
    requires Place(es, name, t)
    ensures 0 <= t <= |es|
  {
  }
}
