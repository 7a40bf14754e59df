/**
 A zip file byte by byte (sections 4.3.7, 4.3.12 and 4.3.16 of the PKWARE ZIP APPNOTE), and that minzip reads it as what
 it was laid out from.
 */
module ZipLayout {
  import opened Bytes
  import opened Wrappers
  import opened Codec
  import opened Eocd
  import opened ZipNames
  import opened ZipArchive

  /**
   An entry with all that its two headers hold: where the local header is, the extra fields and comments, the name in
   the local header, and the fields minzip does not look at.
   */
  datatype Item = Item(entry: ZipEntry, local: nat, needed: seq<Byte>, disk: seq<Byte>, extra: seq<Byte>,
                       comment: seq<Byte>, localFields: seq<Byte>, localName: seq<Byte>, localExtra: seq<Byte>)

  ghost predicate Fits2(n: nat)
  {
    n < 0x1_0000
  }

  ghost predicate Fits4(n: nat)
  {
    n < 0x1_0000_0000
  }

  /** Every number fits its field, the name is one minzip takes, and the archive is from DOS or Unix. */
  ghost predicate ItemOk(it: Item)
  {
    var e := it.entry;
    && Fits2(e.versionMadeBy) && Fits2(e.compression) && Fits4(e.modTime) && Fits4(e.crc32) && Fits4(e.compLen)
    && Fits4(e.uncompLen) && Fits4(e.attributes) && Fits4(it.local) && |it.needed| == 4 && |it.disk| == 4
    && Fits2(|e.name|) && Fits2(|it.extra|) && Fits2(|it.comment|)
    && |it.localFields| == 22 && Fits2(|it.localName|) && Fits2(|it.localExtra|)
    && ValidFilename(e.name) && (e.versionMadeBy / 256 == 0 || e.versionMadeBy / 256 == 3)
  }

  /** The central directory record of an entry. */
  function Central(it: Item): (b: seq<Byte>)
    requires |it.needed| == 4 && |it.disk| == 4
    ensures |b| == 46 + |it.entry.name| + |it.extra| + |it.comment|
  {
    Made(it) + Sizes(it) + Lengths(it) + Places(it) + it.entry.name + it.extra + it.comment
  }

  function Made(it: Item): (b: seq<Byte>)
    requires |it.needed| == 4
    ensures |b| == 10
  {
    [0x50, 0x4b, 0x01, 0x02] + Le(it.entry.versionMadeBy, 2) + it.needed
  }

  function Sizes(it: Item): (b: seq<Byte>)
    ensures |b| == 18
  {
    Le(it.entry.compression, 2) + Le(it.entry.modTime, 4) + Le(it.entry.crc32, 4) + Le(it.entry.compLen, 4) +
    Le(it.entry.uncompLen, 4)
  }

  function Lengths(it: Item): (b: seq<Byte>)
    requires |it.disk| == 4
    ensures |b| == 10
  {
    Le(|it.entry.name|, 2) + Le(|it.extra|, 2) + Le(|it.comment|, 2) + it.disk
  }

  function Places(it: Item): (b: seq<Byte>)
    ensures |b| == 8
  {
    Le(it.entry.attributes, 4) + Le(it.local, 4)
  }

  /** The local header of an entry. */
  function Local(it: Item): (b: seq<Byte>)
    requires |it.localFields| == 22
    ensures |b| == 30 + |it.localName| + |it.localExtra|
  {
    [0x50, 0x4b, 0x03, 0x04] + it.localFields + Le(|it.localName|, 2) + Le(|it.localExtra|, 2) + it.localName +
    it.localExtra
  }

  /** part stands at p. */
  ghost predicate At(b: seq<Byte>, p: int, part: seq<Byte>)
  {
    0 <= p && p + |part| <= |b| && b[p..p + |part|] == part
  }

  /** The local header stands where it should, and the data follows it and lies within the file. */
  ghost predicate LocalOk(b: seq<Byte>, it: Item)
    requires |it.localFields| == 22
  {
    At(b, it.local, Local(it)) && it.entry.offset == it.local + |Local(it)| && it.entry.offset + it.entry.compLen <= |b|
  }

  // ---------------------------------------------------------------- reading numbers

  lemma AtPart(b: seq<Byte>, p: int, pre: seq<Byte>, part: seq<Byte>, post: seq<Byte>)
    requires At(b, p, pre + part + post)
    ensures At(b, p + |pre|, part)
  {
    var w := pre + part + post;
    var lo, hi := |pre|, |pre| + |part|;
    assert w[lo..hi] == part;
    SliceOfSlice(b, p, p + |w|, lo, hi);
  }

  lemma SliceOfSlice(b: seq<Byte>, from: int, to: int, lo: nat, hi: nat)
    requires 0 <= from <= to <= |b| && lo <= hi <= to - from
    ensures b[from..to][lo..hi] == b[from + lo..from + hi]
  {
    var x, y := b[from..to][lo..hi], b[from + lo..from + hi];
    assert |x| == |y| && forall i :: 0 <= i < |x| ==> x[i] == b[from..to][lo + i] == b[from + (lo + i)] == y[i];
  }

  lemma AtEnds(b: seq<Byte>, p: int, pre: seq<Byte>, part: seq<Byte>)
    requires At(b, p, pre + part)
    ensures At(b, p, pre) && At(b, p + |pre|, part)
  {
    assert [] + pre + part == pre + part && pre + part + [] == pre + part;
    AtPart(b, p, [], pre, part);
    AtPart(b, p, pre, part, []);
  }

  lemma Get2(b: seq<Byte>, p: nat, n: nat)
    requires At(b, p, Le(n, 2)) && Fits2(n)
    ensures p + 2 <= |b| && Get2LE(b, p) == n
  {
    assert Pow256(1) == 256 && Pow256(2) == 256 * Pow256(1);
    LeRoundTrip(n, 2);
  }

  lemma Get4(b: seq<Byte>, p: nat, n: nat)
    requires At(b, p, Le(n, 4)) && Fits4(n)
    ensures p + 4 <= |b| && Get4LE(b, p) == n
  {
    Widths();
    LeRoundTrip(n, 4);
  }

  lemma Get4Bytes(b: seq<Byte>, p: nat, w: Byte, x: Byte, y: Byte, v: Byte)
    requires At(b, p, [w, x, y, v])
    ensures p + 4 <= |b| && Get4LE(b, p) == w + 0x100 * x + 0x1_0000 * y + 0x100_0000 * v
  {
    Value4(w, x, y, v);
  }

  // ---------------------------------------------------------------- one record

  /** Where the parts of a record stand. */
  lemma CentralParts(b: seq<Byte>, p: nat, it: Item)
    requires |it.needed| == 4 && |it.disk| == 4 && At(b, p, Central(it))
    ensures At(b, p, Made(it)) && At(b, p + 10, Sizes(it)) && At(b, p + 28, Lengths(it)) && At(b, p + 38, Places(it))
    ensures At(b, p + 46, it.entry.name) && p + |Central(it)| <= |b|
  {
    var m, s, l, q, n, rest := Made(it), Sizes(it), Lengths(it), Places(it), it.entry.name, it.extra + it.comment;
    hide Made, Sizes, Lengths, Places;
    assert Central(it) == m + s + l + q + n + rest;
    hide Central;
    PartsAre(b, p, m, s, l, q, n, rest);
  }

  lemma PartsAre(b: seq<Byte>, p: nat, m: seq<Byte>, s: seq<Byte>, l: seq<Byte>, q: seq<Byte>, n: seq<Byte>,
      rest: seq<Byte>)
    requires At(b, p, m + s + l + q + n + rest)
    ensures At(b, p, m) && At(b, p + |m|, s) && At(b, p + |m| + |s|, l) && At(b, p + |m| + |s| + |l|, q)
    ensures At(b, p + |m| + |s| + |l| + |q|, n)
  {
    hide At;
    AtEnds(b, p, m + s + l + q + n, rest);
    AtEnds(b, p, m + s + l + q, n);
    AtEnds(b, p, m + s + l, q);
    AtEnds(b, p, m + s, l);
    AtEnds(b, p, m, s);
  }

  lemma MadeReads(b: seq<Byte>, p: nat, it: Item)
    requires ItemOk(it) && At(b, p, Made(it))
    ensures p + 10 <= |b| && Get4LE(b, p) == CENSIG && Get2LE(b, p + 4) == it.entry.versionMadeBy
    ensures b[p + 5] == it.entry.versionMadeBy / 256
  {
    hide Get2LE, Get4LE, ValidFilename;
    var v := it.entry.versionMadeBy;
    AtEnds(b, p, [0x50, 0x4b, 0x01, 0x02] + Le(v, 2), it.needed);
    AtEnds(b, p, [0x50, 0x4b, 0x01, 0x02], Le(v, 2));
    Get4Bytes(b, p, 0x50, 0x4b, 0x01, 0x02);
    Get2(b, p + 4, v);
    assert Le(v, 2) == [v % 256, v / 256 % 256];
    assert b[p + 4..p + 6][1] == b[p + 5];
  }

  lemma SizesRead(b: seq<Byte>, p: nat, it: Item)
    requires ItemOk(it) && At(b, p, Sizes(it))
    ensures var e := it.entry;
      && p + 18 <= |b| && Get2LE(b, p) == e.compression && Get4LE(b, p + 2) == e.modTime && Get4LE(b, p + 6) == e.crc32
      && Get4LE(b, p + 10) == e.compLen && Get4LE(b, p + 14) == e.uncompLen
  {
    var e := it.entry;
    assert Sizes(it) + [] == Sizes(it);
    hide Get2LE, Get4LE, ValidFilename, Le, At;
    PartsAre(b, p, Le(e.compression, 2), Le(e.modTime, 4), Le(e.crc32, 4), Le(e.compLen, 4), Le(e.uncompLen, 4), []);
    Get2(b, p, e.compression);
    Get4(b, p + 2, e.modTime);
    Get4(b, p + 6, e.crc32);
    Get4(b, p + 10, e.compLen);
    Get4(b, p + 14, e.uncompLen);
  }

  lemma LengthsRead(b: seq<Byte>, p: nat, it: Item)
    requires ItemOk(it) && At(b, p, Lengths(it))
    ensures p + 10 <= |b| && Get2LE(b, p) == |it.entry.name| && Get2LE(b, p + 2) == |it.extra|
    ensures Get2LE(b, p + 4) == |it.comment|
  {
    assert Lengths(it) + [] + [] == Lengths(it);
    NameReads(b, p, Lengths(it));
    hide Get2LE, ValidFilename, Le, At;
    PartsAre(b, p, Le(|it.entry.name|, 2), Le(|it.extra|, 2), Le(|it.comment|, 2), it.disk, [], []);
    Get2(b, p, |it.entry.name|);
    Get2(b, p + 2, |it.extra|);
    Get2(b, p + 4, |it.comment|);
  }

  lemma PlacesRead(b: seq<Byte>, p: nat, it: Item)
    requires ItemOk(it) && At(b, p, Places(it))
    ensures p + 8 <= |b| && Get4LE(b, p) == it.entry.attributes && Get4LE(b, p + 4) == it.local
  {
    hide Get4LE, ValidFilename, Le, At;
    AtEnds(b, p, Le(it.entry.attributes, 4), Le(it.local, 4));
    Get4(b, p, it.entry.attributes);
    Get4(b, p + 4, it.local);
  }

  lemma LocalReads(b: seq<Byte>, it: Item)
    requires ItemOk(it) && LocalOk(b, it)
    ensures it.local + 30 <= |b| && Get4LE(b, it.local) == LOCSIG
    ensures it.entry.offset == it.local + 30 + Get2LE(b, it.local + 26) + Get2LE(b, it.local + 28)
  {
    var p, sig := it.local, [0x50, 0x4b, 0x03, 0x04];
    hide Get2LE, Get4LE, ValidFilename, Le, At;
    PartsAre(b, p, sig, it.localFields, Le(|it.localName|, 2), Le(|it.localExtra|, 2), it.localName, it.localExtra);
    Get4Bytes(b, p, 0x50, 0x4b, 0x03, 0x04);
    Get2(b, p + 26, |it.localName|);
    Get2(b, p + 28, |it.localExtra|);
  }

  /** A record laid out field by field is read back as the entry it was laid out from. */
  lemma RecordMeans(b: seq<Byte>, p: nat, it: Item)
    requires ItemOk(it) && LocalOk(b, it) && At(b, p, Central(it))
    ensures ReadRecord(b, p) == Some((it.entry, |Central(it)|))
  {
    CentralParts(b, p, it);
    hide Central, Made, Sizes, Lengths, Places, Local, At;
    MadeReads(b, p, it);
    SizesRead(b, p + 10, it);
    LengthsRead(b, p + 28, it);
    PlacesRead(b, p + 38, it);
    LocalReads(b, it);
    NameReads(b, p + 46, it.entry.name);
    hide *;
    RecordIs(b, p, it);
  }

  lemma RecordIs(b: seq<Byte>, p: nat, it: Item)
    requires ItemOk(it) && p + 46 + |it.entry.name| <= |b| && b[p + 46..p + 46 + |it.entry.name|] == it.entry.name
    requires Get4LE(b, p) == CENSIG && Get2LE(b, p + 4) == it.entry.versionMadeBy
    requires b[p + 5] == it.entry.versionMadeBy / 256
    requires Get2LE(b, p + 10) == it.entry.compression && Get4LE(b, p + 12) == it.entry.modTime
    requires Get4LE(b, p + 16) == it.entry.crc32 && Get4LE(b, p + 20) == it.entry.compLen
    requires Get4LE(b, p + 24) == it.entry.uncompLen && Get2LE(b, p + 28) == |it.entry.name|
    requires Get2LE(b, p + 30) == |it.extra| && Get2LE(b, p + 32) == |it.comment|
    requires Get4LE(b, p + 38) == it.entry.attributes && Get4LE(b, p + 42) == it.local
    requires it.local + 30 <= |b| && Get4LE(b, it.local) == LOCSIG && it.entry.offset + it.entry.compLen <= |b|
    requires it.entry.offset == it.local + 30 + Get2LE(b, it.local + 26) + Get2LE(b, it.local + 28)
    ensures ReadRecord(b, p) == Some((it.entry, 46 + |it.entry.name| + |it.extra| + |it.comment|))
  {
    hide Get2LE, Get4LE;
  }

  lemma SignatureBytes(b: seq<Byte>, p: nat)
    requires p + 4 <= |b|
    ensures Get4LE(b, p) == CENSIG <==> At(b, p, [0x50, 0x4b, 0x01, 0x02])
    ensures Get4LE(b, p) == LOCSIG <==> At(b, p, [0x50, 0x4b, 0x03, 0x04])
  {
    var w := b[p..p + 4];
    Value4(0x50, 0x4b, 0x01, 0x02);
    Value4(0x50, 0x4b, 0x03, 0x04);
    if LeValue(w) == CENSIG { LeInjective(w, [0x50, 0x4b, 0x01, 0x02]); }
    if LeValue(w) == LOCSIG { LeInjective(w, [0x50, 0x4b, 0x03, 0x04]); }
  }

  /** Nothing else is taken for a record: both signatures, the kind of system, the name and the bounds are required. */
  lemma RecordOnly(b: seq<Byte>, p: nat)
    requires ReadRecord(b, p).Some?
    ensures p + 46 <= |b| && At(b, p, [0x50, 0x4b, 0x01, 0x02]) && (b[p + 5] == 0 || b[p + 5] == 3)
    ensures At(b, LeValue(b[p + 42..p + 46]), [0x50, 0x4b, 0x03, 0x04])
    ensures var e := ReadRecord(b, p).value.0;
      && ValidFilename(e.name) && |e.name| == LeValue(b[p + 28..p + 30]) && At(b, p + 46, e.name)
      && e.offset >= LeValue(b[p + 42..p + 46]) + 30 && e.offset + e.compLen <= |b|
  {
    hide LeValue, At, ValidFilename;
    SignatureBytes(b, p);
    SignatureBytes(b, Get4LE(b, p + 42));
    AtIs(b, p + 46, ReadRecord(b, p).value.0.name);
  }

  lemma AtIs(b: seq<Byte>, p: nat, part: seq<Byte>)
    requires p + |part| <= |b| && b[p..p + |part|] == part
    ensures At(b, p, part)
  {
  }

  lemma NameReads(b: seq<Byte>, p: nat, name: seq<Byte>)
    requires At(b, p, name)
    ensures p + |name| <= |b| && b[p..p + |name|] == name
  {
  }

  // ---------------------------------------------------------------- the whole archive

  ghost predicate ItemsOk(b: seq<Byte>, items: seq<Item>)
  {
    forall i :: 0 <= i < |items| ==> ItemOk(items[i]) && LocalOk(b, items[i])
  }

  ghost function Entries(items: seq<Item>): (es: seq<ZipEntry>)
  {
    if items == [] then [] else Entries(items[..|items| - 1]) + [items[|items| - 1].entry]
  }

  ghost predicate Shaped(items: seq<Item>)
  {
    forall i :: 0 <= i < |items| ==> |items[i].needed| == 4 && |items[i].disk| == 4
  }

  /** The central directory. */
  ghost function Centrals(items: seq<Item>): (b: seq<Byte>)
    requires Shaped(items)
  {
    if items == [] then [] else Centrals(items[..|items| - 1]) + Central(items[|items| - 1])
  }

  /** Reading from start gives these entries in order. */
  ghost predicate ReadsAs(b: seq<Byte>, start: nat, items: seq<Item>)
    requires Shaped(items)
  {
    |Entries(items)| == |items| && Records(b, start, |items|) == Some((Entries(items), start + |Centrals(items)|))
  }

  lemma {:induction false} DirectoryMeans(b: seq<Byte>, start: nat, items: seq<Item>)
    requires ItemsOk(b, items) && Shaped(items) && At(b, start, Centrals(items))
    ensures ReadsAs(b, start, items)
    decreases |items|
  {
    if items != [] {
      hide *;
      DirectoryStep(b, start, items);
      DirectoryMeans(b, start, items[..|items| - 1]);
    }
  }

  lemma DirectoryStep(b: seq<Byte>, start: nat, items: seq<Item>)
    requires items != [] && ItemsOk(b, items) && Shaped(items) && At(b, start, Centrals(items))
    ensures var init := items[..|items| - 1];
      && ItemsOk(b, init) && Shaped(init) && At(b, start, Centrals(init))
      && (ReadsAs(b, start, init) ==> ReadsAs(b, start, items))
  {
    ItemsLast(b, items);
    hide *;
    DirectoryRest(b, start, items[..|items| - 1], items[|items| - 1], items);
  }

  /** What follows when all but the last record have been read. */
  lemma DirectoryRest(b: seq<Byte>, start: nat, init: seq<Item>, last: Item, items: seq<Item>)
    requires ItemOk(last) && LocalOk(b, last) && Shaped(init) && Shaped(items) && |items| == |init| + 1
    requires |last.needed| == 4 && |last.disk| == 4 && At(b, start, Centrals(items))
    requires Entries(items) == Entries(init) + [last.entry] && Centrals(items) == Centrals(init) + Central(last)
    ensures At(b, start, Centrals(init)) && (ReadsAs(b, start, init) ==> ReadsAs(b, start, items))
  {
    hide *;
    var c, d := Centrals(init), Central(last);
    AtEnds(b, start, c, d);
    RecordMeans(b, start + |c|, last);
    if ReadsAs(b, start, init) {
      ReadsUnfold(b, start, init);
      NextRecord(b, start, |init|, Entries(init), start + |c|);
      assert |Centrals(items)| == |c| + |d|;
      ReadsFold(b, start, items);
    }
  }

  lemma ReadsUnfold(b: seq<Byte>, start: nat, items: seq<Item>)
    requires Shaped(items) && ReadsAs(b, start, items)
    ensures |Entries(items)| == |items| &&
            Records(b, start, |items|) == Some((Entries(items), start + |Centrals(items)|))
  {
    hide Records, Entries, Centrals;
  }

  lemma ReadsFold(b: seq<Byte>, start: nat, items: seq<Item>)
    requires Shaped(items) && |Entries(items)| == |items|
    requires Records(b, start, |items|) == Some((Entries(items), start + |Centrals(items)|))
    ensures ReadsAs(b, start, items)
  {
    hide Records, Entries, Centrals;
  }

  lemma ItemsLast(b: seq<Byte>, items: seq<Item>)
    requires ItemsOk(b, items)
    ensures items == [] ==> Entries(items) == [] && Centrals(items) == []
    ensures items != [] ==>
              var init, last := items[..|items| - 1], items[|items| - 1];
              && ItemsOk(b, init) && ItemOk(last) && LocalOk(b, last) && |last.needed| == 4 && |last.disk| == 4
              && Shaped(init)
              && Entries(items) == Entries(init) + [last.entry] && Centrals(items) == Centrals(init) + Central(last)
  {
    hide LocalOk, Central;
  }

  /** The end record: its number of entries and where the directory starts, among fields minzip does not look at. */
  function EndRecord(disks: seq<Byte>, n: nat, sizes: seq<Byte>, start: nat, comment: seq<Byte>): (b: seq<Byte>)
  {
    [0x50, 0x4b, 0x05, 0x06] + disks + Le(n, 2) + sizes + Le(start, 4) + comment
  }

  /** The file starts with a local header, its last end record is at at, and that points at the directory of items. */
  ghost predicate LaidOut(b: seq<Byte>, items: seq<Item>, start: nat, at: nat, disks: seq<Byte>, sizes: seq<Byte>,
      comment: seq<Byte>)
  {
    && 0 < |items| < 0x1_0000 && ItemsOk(b, items) && Shaped(items) && Fits4(start) && start < |b| &&
        At(b, start, Centrals(items))
    && At(b, 0, [0x50, 0x4b, 0x03, 0x04]) && |disks| == 4 && |sizes| == 6 && |comment| == 2
    && At(b, at, EndRecord(disks, |items|, sizes, start, comment))
    && forall j :: at < j <= |b| - 22 ==> !At(b, j, [0x50, 0x4b, 0x05, 0x06])
  }

  lemma EndReads(b: seq<Byte>, at: nat, disks: seq<Byte>, n: nat, sizes: seq<Byte>, start: nat, comment: seq<Byte>)
    requires At(b, at, EndRecord(disks, n, sizes, start, comment)) && Fits2(n) && Fits4(start)
    requires |disks| == 4 && |sizes| == 6 && |comment| == 2
    ensures at + 22 <= |b| && At(b, at, [0x50, 0x4b, 0x05, 0x06]) && Get2LE(b, at + 8) == n &&
            Get4LE(b, at + 16) == start
  {
    NameReads(b, at, EndRecord(disks, n, sizes, start, comment));
    hide At, Get2LE, Get4LE, Le;
    PartsAre(b, at, [0x50, 0x4b, 0x05, 0x06], disks, Le(n, 2), sizes, Le(start, 4), comment);
    Get2(b, at + 8, n);
    Get4(b, at + 16, start);
  }

  lemma MarkerAt(b: seq<Byte>, j: nat)
    ensures Marker(b, j) <==> At(b, j, [0x50, 0x4b, 0x05, 0x06])
  {
    if j + 4 <= |b| { assert b[j..j + 4] == [b[j], b[j + 1], b[j + 2], b[j + 3]]; }
  }

  lemma LastIs(b: seq<Byte>, at: nat)
    requires at + 22 <= |b| && At(b, at, [0x50, 0x4b, 0x05, 0x06])
    requires forall j :: at < j <= |b| - 22 ==> !At(b, j, [0x50, 0x4b, 0x05, 0x06])
    ensures LastMarker(b, |b| - EOCD_HEADER_SIZE, at)
  {
    hide At;
    MarkerAt(b, at);
    forall j | at < j <= |b| - 22
      ensures !Marker(b, j)
    {
      MarkerAt(b, j);
    }
  }

  /** A file laid out from entries has exactly those entries as its directory. */
  lemma ArchiveMeans(b: seq<Byte>, items: seq<Item>, start: nat, at: nat, disks: seq<Byte>, sizes: seq<Byte>,
      comment: seq<Byte>)
    requires LaidOut(b, items, start, at, disks, sizes, comment)
    ensures HasDirectory(b, at, Entries(items))
  {
    EndReads(b, at, disks, |items|, sizes, start, comment);
    LastIs(b, at);
    Get4Bytes(b, 0, 0x50, 0x4b, 0x03, 0x04);
    hide At, ItemsOk, EndRecord, Get2LE, Get4LE, LastMarker, Records, Centrals;
    DirectoryMeans(b, start, items);
  }

  /** minzip opens such a file and finds exactly its entries. */
  method OpenLaidOut(b: seq<Byte>, ghost items: seq<Item>, ghost start: nat, ghost at: nat, ghost disks: seq<Byte>,
      ghost sizes: seq<Byte>, ghost comment: seq<Byte>) returns (z: Option<ZipArchive>)
    requires LaidOut(b, items, start, at, disks, sizes, comment)
    ensures z.Some? && z.value.Valid() && multiset(z.value.entries[..]) == multiset(Entries(items))
  {
    hide *;
    ArchiveMeans(b, items, start, at, disks, sizes, comment);
    z := Parse(b);
  }
}
