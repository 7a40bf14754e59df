/**
 Where a zip file's end-of-central-directory record is (section 4.3.16 of the PKWARE ZIP APPNOTE):
 the place verify_file reads it from (verifier.c) and the place minzip's backward scan finds it (Zip.c).
 */
module Eocd {
  import opened Bytes
  import opened Wrappers
  import opened Codec

  const FOOTER_SIZE := 6
  const EOCD_HEADER_SIZE := 22
  const RSANUMBYTES := 256
  const BUFFER_SIZE := 4096

  /** The bytes $50 $4b $05 $06 stand at offset i. */
  predicate Marker(b: seq<Byte>, i: int)
  {
    0 <= i && i + 4 <= |b| && b[i] == 0x50 && b[i + 1] == 0x4b && b[i + 2] == 0x05 && b[i + 3] == 0x06
  }

  /** Two markers never overlap. */
  lemma MarkersApart(b: seq<Byte>, i: int, j: int)
    requires Marker(b, i) && Marker(b, j) && i < j
    ensures i + 4 <= j
  {
  }

  /** at is the last marker at or below the offset top. */
  ghost predicate LastMarker(b: seq<Byte>, top: int, at: int)
  {
    Marker(b, at) && at <= top && forall j :: at < j <= top ==> !Marker(b, j)
  }

  /** parseZipArchive's scan (Zip.c:212-222), for any file mzOpenZipArchive lets through (Zip.c:453). */
  method FindEocd(b: seq<Byte>) returns (r: Option<nat>)
    requires |b| >= EOCD_HEADER_SIZE
    ensures r.Some? ==> LastMarker(b, |b| - EOCD_HEADER_SIZE, r.value)
    ensures r.None? ==> forall j :: 0 <= j <= |b| - EOCD_HEADER_SIZE ==> !Marker(b, j)
  {
    var ptr := |b| - EOCD_HEADER_SIZE;
    while ptr >= 0
      invariant -1 <= ptr <= |b| - EOCD_HEADER_SIZE
      invariant forall j :: ptr < j <= |b| - EOCD_HEADER_SIZE ==> !Marker(b, j)
    {
      if b[ptr] == 0x50 && Marker(b, ptr) {
        return Some(ptr);
      }
      ptr := ptr - 1;
    }
    r := None;
  }

  /** A little-endian 16-bit number. */
  function Word(lo: Byte, hi: Byte): (n: nat)
  {
    lo as int + 256 * (hi as int)
  }

  /** The comment size in the footer. */
  function CommentSize(b: seq<Byte>): (n: nat)
    requires |b| >= FOOTER_SIZE
  {
    Word(b[|b| - 2], b[|b| - 1])
  }

  /** How far before the end of the file the footer says the signature starts. */
  function SignatureStart(b: seq<Byte>): (n: nat)
    requires |b| >= FOOTER_SIZE
  {
    Word(b[|b| - 6], b[|b| - 5])
  }

  /** The footer tests of verify_file, and the file reaching back far enough for the record (verifier.c:51-99). */
  ghost predicate FooterAccepted(b: seq<Byte>)
  {
    && |b| >= FOOTER_SIZE && b[|b| - 4] == 0xff && b[|b| - 3] == 0xff
    && SignatureStart(b) - FOOTER_SIZE >= RSANUMBYTES
    && |b| >= CommentSize(b) + EOCD_HEADER_SIZE
  }

  /** Where the footer puts the record. */
  function RecordOffset(b: seq<Byte>): (n: int)
    requires |b| >= FOOTER_SIZE
  {
    |b| - CommentSize(b) - EOCD_HEADER_SIZE
  }

  /** The offset of the record in a file that passes every test before hashing. */
  ghost predicate Located(b: seq<Byte>, at: nat)
  {
    FooterAccepted(b) && at == RecordOffset(b) && LastMarker(b, |b| - 4, at)
  }

  /**
   The location logic of verify_file (verifier.c:51-135): the record's offset and the length of the signed part,
   or nothing.  The scan starts four bytes into the record, which loses nothing since markers cannot overlap.
   */
  method LocateEocd(b: seq<Byte>) returns (r: Option<(nat, nat)>)
    ensures r.Some? <==> exists at: nat :: Located(b, at)
    ensures r.Some? ==> Located(b, r.value.0) && r.value.1 == r.value.0 + EOCD_HEADER_SIZE - 2
  {
    if |b| < FOOTER_SIZE {
      return None;
    }
    var footer := b[|b| - FOOTER_SIZE..];
    if footer[2] != 0xff || footer[3] != 0xff {
      return None;
    }
    var commentSize := Word(footer[4], footer[5]);
    var signatureStart := Word(footer[0], footer[1]);
    assert commentSize == CommentSize(b) && signatureStart == SignatureStart(b);
    if signatureStart - FOOTER_SIZE < RSANUMBYTES {
      return None;
    }
    var eocdSize := commentSize + EOCD_HEADER_SIZE;
    if |b| < eocdSize {
      return None;
    }
    var at := |b| - eocdSize;
    var eocd := b[at..];
    assert forall j :: Marker(eocd, j) ==> Marker(b, at + j);
    assert forall j :: at <= j && Marker(b, j) ==> Marker(eocd, j - at);
    if !Marker(eocd, 0) {
      return None;
    }
    var i := 4;
    while i < eocdSize - 3
      invariant 4 <= i <= eocdSize - 3
      invariant forall j :: 4 <= j < i ==> !Marker(eocd, j)
    {
      if Marker(eocd, i) {
        assert Marker(b, at + i);
        return None;
      }
      i := i + 1;
    }
    forall j | at < j <= |b| - 4
      ensures !Marker(b, j)
    {
      if Marker(b, j) { MarkersApart(b, at, j); }
    }
    assert Located(b, at);
    r := Some((at, at + EOCD_HEADER_SIZE - 2));
  }

  /** The last six bytes of a signed archive. */
  function Footer(signatureStart: nat, commentSize: nat): (f: seq<Byte>)
    ensures |f| == 6
  {
    Le(signatureStart, 2) + [0xff, 0xff] + Le(commentSize, 2)
  }

  /** A file with an end record after pre, and a comment of text and footer that no marker starts in. */
  ghost predicate Signed(b: seq<Byte>, pre: seq<Byte>, fields: seq<Byte>, text: seq<Byte>, signatureStart: nat)
  {
    && b == pre + [0x50, 0x4b, 0x05, 0x06] + fields + text + Footer(signatureStart, |text| + 6) && |fields| == 18
    && signatureStart < 0x1_0000 && |text| + 6 < 0x1_0000
    && forall j :: |pre| < j ==> !Marker(b, j)
  }

  lemma WordIs(n: nat)
    requires n < 0x1_0000
    ensures Word(Le(n, 2)[0], Le(n, 2)[1]) == n
  {
    assert Le(n, 2) == [n % 256, n / 256 % 256];
  }

  lemma FooterReads(b: seq<Byte>, front: seq<Byte>, signatureStart: nat, commentSize: nat)
    requires b == front + Footer(signatureStart, commentSize) && signatureStart < 0x1_0000 && commentSize < 0x1_0000
    ensures |b| >= 6 && b[|b| - 4] == 0xff && b[|b| - 3] == 0xff
    ensures SignatureStart(b) == signatureStart && CommentSize(b) == commentSize
  {
    var f := Footer(signatureStart, commentSize);
    assert f[0] == Le(signatureStart, 2)[0] && f[1] == Le(signatureStart, 2)[1];
    assert f[4] == Le(commentSize, 2)[0] && f[5] == Le(commentSize, 2)[1] && f[2] == 0xff && f[3] == 0xff;
    assert forall i :: 0 <= i < 6 ==> b[|front| + i] == f[i];
    hide Le, Footer, Word;
    WordIs(signatureStart);
    WordIs(commentSize);
  }

  /** The record and the signed part of such a file are found exactly if a signature fits between them. */
  lemma SignedMeans(b: seq<Byte>, pre: seq<Byte>, fields: seq<Byte>, text: seq<Byte>, signatureStart: nat, at: nat)
    requires Signed(b, pre, fields, text, signatureStart)
    ensures Located(b, at) <==> at == |pre| && signatureStart >= 6 + 256
  {
    var m := [0x50, 0x4b, 0x05, 0x06];
    FooterReads(b, pre + m + fields + text, signatureStart, |text| + 6);
    assert |b| == |pre| + 22 + |text| + 6;
    assert b[|pre|] == m[0] && b[|pre| + 1] == m[1] && b[|pre| + 2] == m[2] && b[|pre| + 3] == m[3];
    hide Footer, SignatureStart, CommentSize;
  }

  /** verify_file on such a file. */
  method LocateSigned(b: seq<Byte>, ghost pre: seq<Byte>, ghost fields: seq<Byte>, ghost text: seq<Byte>,
      ghost signatureStart: nat) returns (r: Option<(nat, nat)>)
    requires Signed(b, pre, fields, text, signatureStart)
    ensures r == if signatureStart >= 6 + 256 then Some((|pre|, |pre| + 20)) else None
  {
    hide Located, Signed;
    r := LocateEocd(b);
    SignedMeans(b, pre, fields, text, signatureStart, |pre|);
    if r.Some? { SignedMeans(b, pre, fields, text, signatureStart, r.value.0); }
  }

  /** minzip's scan stops at exactly the record the verifier used. */
  lemma ScanAgrees(b: seq<Byte>, at: nat, found: nat)
    requires Located(b, at)
    ensures |b| >= EOCD_HEADER_SIZE
    ensures LastMarker(b, |b| - EOCD_HEADER_SIZE, found) <==> found == at
  {
    assert Marker(b, at);
  }

  /** Both searches over one file: whatever the verifier accepts, minzip reads the same record. */
  method VerifyThenOpen(b: seq<Byte>) returns (v: Option<(nat, nat)>, z: Option<nat>)
    ensures v.Some? ==> z == Some(v.value.0)
    ensures v.Some? ==> FooterAccepted(b) && v.value.1 + 2 + CommentSize(b) == |b|
  {
    v := LocateEocd(b);
    z := None;
    if v.Some? {
      assert Located(b, v.value.0);
      z := FindEocd(b);
      assert Marker(b, v.value.0);
      if z.Some? { ScanAgrees(b, v.value.0, z.value); }
    }
  }

  /** The hashing loop (verifier.c:148-167): the digest is fed exactly the signed part, in pieces of 4096 bytes. */
  method HashSigned(b: seq<Byte>, signedLen: nat) returns (fed: seq<Byte>, ghost pieces: seq<nat>)
    requires signedLen <= |b|
    ensures fed == b[..signedLen]
    ensures forall k :: 0 <= k < |pieces| ==>
              0 < pieces[k] <= BUFFER_SIZE && (k + 1 < |pieces| ==> pieces[k] == BUFFER_SIZE)
  {
    fed, pieces := [], [];
    var soFar := 0;
    while soFar < signedLen
      invariant soFar <= signedLen && fed == b[..soFar]
      invariant forall k :: 0 <= k < |pieces| ==> 0 < pieces[k] <= BUFFER_SIZE
      invariant soFar < signedLen ==> forall k :: 0 <= k < |pieces| ==> pieces[k] == BUFFER_SIZE
      invariant forall k :: 0 <= k < |pieces| - 1 ==> pieces[k] == BUFFER_SIZE
    {
      var size := BUFFER_SIZE;
      if signedLen - soFar < size { size := signedLen - soFar; }
      fed := fed + b[soFar..soFar + size];
      pieces := pieces + [size];
      soFar := soFar + size;
    }
  }
}
