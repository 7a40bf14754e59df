/**
 Applying a bsdiff patch (bspatch.c).  The decompressor is a parameter: expand(z) is what
 successive reads of the stream z deliver before the first read that fails.
 */
module BsPatch {
  import opened Bytes
  import opened Codec

  type Expand = seq<Byte> -> seq<Byte>

  /**
   Done carries the new file and what was left unread of the three streams.  Corrupt is a reported
   error.  Undefined is a patch on which the C code has no defined behaviour: a negative length, or
   a length that points outside the patch.
   */
  datatype Outcome = Done(data: seq<Byte>, ctrl: seq<Byte>, diff: seq<Byte>, extra: seq<Byte>) | Corrupt | Undefined

  const MAGIC: seq<Byte> := [0x42, 0x53, 0x44, 0x49, 0x46, 0x46, 0x34, 0x30] // "BSDIFF40"

  /** Diff bytes plus the old bytes under them; outside the old file, the diff bytes alone. */
  function AddOld(src: seq<Byte>, oldpos: int, diff: seq<Byte>): (r: seq<Byte>)
    ensures |r| == |diff|
  {
    seq(|diff|, i requires 0 <= i < |diff| =>
      if 0 <= oldpos + i < |src| then Add8(diff[i], src[oldpos + i]) else diff[i])
  }

  /** The main loop of ApplyBSDiffPatchMem (bspatch.c:198-246) on expanded streams. */
  function Apply(src: seq<Byte>, ctrl: seq<Byte>, diff: seq<Byte>, extra: seq<Byte>, size: int, oldpos: int,
      out: seq<Byte>)
    : (r: Outcome)
    decreases |ctrl|
  {
    if |out| >= size then Done(out, ctrl, diff, extra)
    else if |ctrl| < 24 then Corrupt
    else
      var x, y, z := OfftIn(ctrl[..8]), OfftIn(ctrl[8..16]), OfftIn(ctrl[16..24]);
      if |out| + x > size then Corrupt
      else if x < 0 then Undefined
      else if |diff| < x then Corrupt
      else if |out| + x + y > size then Corrupt
      else if y < 0 then Undefined
      else if |extra| < y then Corrupt
      else
        Apply(src, ctrl[24..], diff[x..], extra[y..], size, oldpos + x + z,
              out + AddOld(src, oldpos, diff[..x]) + extra[..y])
  }

  /** The patch at offset off of a larger blob (bspatch.c:123-252). */
  function ApplyPatch(src: seq<Byte>, patch: seq<Byte>, off: int, expand: Expand): (r: Outcome)
  {
    if off < 0 || off + 32 > |patch| then Undefined
    else if patch[off..off + 8] != MAGIC then Corrupt
    else
      var ctrlLen, dataLen, size := OfftIn(patch[off + 8..off + 16]), OfftIn(patch[off + 16..off + 24]),
          OfftIn(patch[off + 24..off + 32]);
      if ctrlLen < 0 || dataLen < 0 || size < 0 then Corrupt
      else if off + 32 + ctrlLen + dataLen > |patch| then Undefined
      else
        var c := off + 32 + ctrlLen;
        Apply(src, expand(patch[off + 32..c]), expand(patch[c..c + dataLen]), expand(patch[c + dataLen..]), size, 0, [])
  }

  /** A stream being read: FillBuffer takes the next n bytes or fails. */
  class Stream {
    var rest: seq<Byte>

    constructor (expanded: seq<Byte>)
      ensures rest == expanded
    {
      rest := expanded;
    }

    /** FillBuffer (bspatch.c:84-98) into buffer[at..at+size]. */
    method Fill(buffer: array<Byte>, at: nat, size: nat) returns (ok: bool)
      requires at + size <= buffer.Length
      modifies this, buffer
      ensures ok <==> size <= |old(rest)|
      ensures ok ==>
                && rest == old(rest)[size..]
                && buffer[..] == old(buffer[..at]) + old(rest)[..size] + old(buffer[at + size..])
    {
      if size > |rest| { return false; }
      ghost var before := buffer[..];
      var i := 0;
      while i < size
        invariant 0 <= i <= size && rest == old(rest)
        invariant buffer[..] == before[..at] + rest[..i] + before[at + i..]
      {
        buffer[at + i] := rest[i];
        i := i + 1;
      }
      rest := rest[size..];
      ok := true;
    }
  }

  /** Adds old data to the diff string in place (bspatch.c:221-225). */
  method AddInPlace(src: seq<Byte>, oldpos: int, data: array<Byte>, at: nat, n: nat)
    requires at + n <= data.Length
    modifies data
    ensures data[..] == old(data[..at]) + AddOld(src, oldpos, old(data[at..at + n])) + old(data[at + n..])
  {
    var i := 0;
    ghost var before := data[..];
    ghost var goal := before[..at] + AddOld(src, oldpos, before[at..at + n]) + before[at + n..];
    while i < n
      invariant 0 <= i <= n
      invariant forall m :: 0 <= m < at + i ==> data[m] == goal[m]
      invariant forall m :: at + i <= m < data.Length ==> data[m] == before[m]
    {
      assert goal[at + i] == AddOld(src, oldpos, before[at..at + n])[i];
      if 0 <= oldpos + i < |src| {
        data[at + i] := Add8(data[at + i], src[oldpos + i]);
      }
      i := i + 1;
    }
  }

  /** One step of Apply that succeeds. */
  lemma ApplyStep(src: seq<Byte>, ctrl: seq<Byte>, diff: seq<Byte>, extra: seq<Byte>, size: int, oldpos: int,
      out: seq<Byte>, x: nat, y: nat, z: int)
    requires |out| < size && |ctrl| >= 24
    requires x == OfftIn(ctrl[..8]) && y == OfftIn(ctrl[8..16]) && z == OfftIn(ctrl[16..24])
    requires |out| + x + y <= size && x <= |diff| && y <= |extra|
    ensures Apply(src, ctrl, diff, extra, size, oldpos, out)
         == Apply(src, ctrl[24..], diff[x..], extra[y..], size, oldpos + x + z,
                  out + AddOld(src, oldpos, diff[..x]) + extra[..y])
  {
  }

  /** A field of the control stream holds z: plain, or with its top bit set for a negative number. */
  ghost predicate Holds(field: seq<Byte>, z: int)
  {
    && |field| == 8
    && if field[7] < 128 then LeValue(field) == z else LeValue(field[7 := field[7] - 128]) == -z
  }

  /**
   What one triple means, byte by byte: x bytes of difference are added to the old bytes modulo 256, y extra bytes
   follow, and the old position moves on by x and then by z.
   */
  lemma TripleMeans(src: seq<Byte>, d: seq<Byte>, e: seq<Byte>, z: int, field: seq<Byte>, ctrl: seq<Byte>,
      diff: seq<Byte>, extra: seq<Byte>, size: int, oldpos: int, out: seq<Byte>, added: seq<Byte>)
    requires |out| < size && |out| + |d| + |e| <= size < TWO63 && Holds(field, z) && |added| == |d|
    requires forall i :: 0 <= i < |d| ==>
               added[i] == if 0 <= oldpos + i < |src| then (d[i] as int + src[oldpos + i] as int) % 256 else d[i]
    ensures Apply(src, Le(|d|, 8) + Le(|e|, 8) + field + ctrl, d + diff, e + extra, size, oldpos, out)
         == Apply(src, ctrl, diff, extra, size, oldpos + |d| + z, out + added + e)
  {
    OfftPlain(|d|);
    OfftPlain(|e|);
    HoldsReads(field, z);
    AddedIs(src, oldpos, d, added);
    hide *;
    var C, D, E := Le(|d|, 8) + Le(|e|, 8) + field + ctrl, d + diff, e + extra;
    ThreeFields(Le(|d|, 8), Le(|e|, 8), field, ctrl);
    TwoParts(d, diff);
    TwoParts(e, extra);
    StepAs(src, C, D, E, size, oldpos, out, z, ctrl, d, diff, e, extra, added);
  }

  lemma StepAs(src: seq<Byte>, C: seq<Byte>, D: seq<Byte>, E: seq<Byte>, size: int, oldpos: int, out: seq<Byte>, z: int,
      ctrl: seq<Byte>, d: seq<Byte>, diff: seq<Byte>, e: seq<Byte>, extra: seq<Byte>, added: seq<Byte>)
    requires |out| < size && |C| >= 24 && |out| + |d| + |e| <= size && |d| <= |D| && |e| <= |E|
    requires |d| == OfftIn(C[..8]) && |e| == OfftIn(C[8..16]) && z == OfftIn(C[16..24]) && ctrl == C[24..]
    requires d == D[..|d|] && diff == D[|d|..] && e == E[..|e|] && extra == E[|e|..] && added == AddOld(src, oldpos, d)
    ensures Apply(src, C, D, E, size, oldpos, out) ==
            Apply(src, ctrl, diff, extra, size, oldpos + |d| + z, out + added + e)
  {
    hide *;
    ApplyStep(src, C, D, E, size, oldpos, out, |d|, |e|, z);
  }

  /** A triple is refused if it makes too many bytes, or asks a stream for more than it has. */
  lemma TripleRefused(src: seq<Byte>, x: nat, y: nat, field: seq<Byte>, ctrl: seq<Byte>, diff: seq<Byte>,
      extra: seq<Byte>, size: int, oldpos: int, out: seq<Byte>)
    requires |out| < size < TWO63 && x < TWO63 && y < TWO63 && |field| == 8
    requires |out| + x + y > size || |diff| < x || |extra| < y
    ensures Apply(src, Le(x, 8) + Le(y, 8) + field + ctrl, diff, extra, size, oldpos, out) == Corrupt
  {
    OfftPlain(x);
    OfftPlain(y);
    hide OfftIn, Le;
    ThreeFields(Le(x, 8), Le(y, 8), field, ctrl);
  }

  /** Control data that ends early is refused, and enough bytes end the work. */
  lemma TripleMissing(src: seq<Byte>, ctrl: seq<Byte>, diff: seq<Byte>, extra: seq<Byte>, size: int, oldpos: int,
      out: seq<Byte>)
    requires |ctrl| < 24
    ensures |out| < size ==> Apply(src, ctrl, diff, extra, size, oldpos, out) == Corrupt
    ensures |out| == size ==> Apply(src, ctrl, diff, extra, size, oldpos, out) == Done(out, ctrl, diff, extra)
  {
  }

  /** A file with another magic word, or with a length whose top bit is set, is refused. */
  lemma FileRefused(src: seq<Byte>, magic: seq<Byte>, a: seq<Byte>, b: seq<Byte>, c: seq<Byte>, rest: seq<Byte>,
      expand: Expand)
    requires |magic| == |a| == |b| == |c| == 8
    requires magic != [0x42, 0x53, 0x44, 0x49, 0x46, 0x46, 0x34, 0x30] || Negative(a) || Negative(b) || Negative(c)
    ensures ApplyPatch(src, magic + a + b + c + rest, 0, expand) == Corrupt
  {
    OfftSign(a);
    OfftSign(b);
    OfftSign(c);
    hide Apply, OfftIn;
    assert magic + a + b + c + rest == magic + a + b + c + rest + [] + [];
    FileParts(magic, a, b, c, rest, [], []);
  }

  /** The field holds a number below zero. */
  ghost predicate Negative(field: seq<Byte>)
  {
    |field| == 8 && field[7] >= 128 && LeValue(field[7 := field[7] - 128]) > 0
  }

  /** What a patch file means: a magic word, three lengths, and the three compressed streams. */
  lemma FileMeans(src: seq<Byte>, C: seq<Byte>, D: seq<Byte>, E: seq<Byte>, size: nat, expand: Expand)
    requires |C| < TWO63 && |D| < TWO63 && size < TWO63
    ensures var patch := [0x42, 0x53, 0x44, 0x49, 0x46, 0x46, 0x34, 0x30] + Le(|C|, 8) + Le(|D|, 8) + Le(size, 8) +
                         C + D + E;
            ApplyPatch(src, patch, 0, expand) == Apply(src, expand(C), expand(D), expand(E), size, 0, [])
  {
    OfftPlain(|C|);
    OfftPlain(|D|);
    OfftPlain(size);
    hide Apply, Le, OfftIn;
    FileParts(MAGIC, Le(|C|, 8), Le(|D|, 8), Le(size, 8), C, D, E);
  }

  lemma TwoParts(a: seq<Byte>, b: seq<Byte>)
    ensures (a + b)[..|a|] == a && (a + b)[|a|..] == b
  {
  }

  lemma ThreeFields(a: seq<Byte>, b: seq<Byte>, c: seq<Byte>, rest: seq<Byte>)
    requires |a| == |b| == |c| == 8
    ensures var w := a + b + c + rest;
            |w| == 24 + |rest| && w[..8] == a && w[8..16] == b && w[16..24] == c && w[24..] == rest
  {
  }

  lemma FileParts(m: seq<Byte>, a: seq<Byte>, b: seq<Byte>, c: seq<Byte>, C: seq<Byte>, D: seq<Byte>, E: seq<Byte>)
    requires |m| == |a| == |b| == |c| == 8
    ensures var w := m + a + b + c + C + D + E;
            && |w| == 32 + |C| + |D| + |E| && w[0..8] == m && w[8..16] == a && w[16..24] == b && w[24..32] == c
            && w[32..32 + |C|] == C && w[32 + |C|..32 + |C| + |D|] == D && w[32 + |C| + |D|..] == E
  {
    var w, h := m + a + b + c + C + D + E, m + a + b + c;
    assert w == h + (C + D + E);
    assert h[0..8] == m && h[8..16] == a && h[16..24] == b && h[24..32] == c;
  }

  lemma HoldsReads(field: seq<Byte>, z: int)
    requires Holds(field, z)
    ensures |field| == 8 && OfftIn(field) == z
  {
    OfftSign(field);
  }

  lemma AddedIs(src: seq<Byte>, oldpos: int, d: seq<Byte>, added: seq<Byte>)
    requires |added| == |d|
    requires forall i :: 0 <= i < |d| ==>
               added[i] == if 0 <= oldpos + i < |src| then (d[i] as int + src[oldpos + i] as int) % 256 else d[i]
    ensures AddOld(src, oldpos, d) == added
  {
  }

  /** One round of the loop: read a triple, add x bytes, copy y bytes (bspatch.c:199-245). */
  method Round(src: seq<Byte>, cs: Stream, ds: Stream, es: Stream, buf: array<Byte>, data: array<Byte>, newpos: nat,
      oldpos: int)
    returns (newpos': nat, oldpos': int, failed: bool, bad: Outcome)
    requires cs != ds && cs != es && ds != es && buf != data && buf.Length == 24 && newpos < data.Length
    modifies cs, ds, es, buf, data
    ensures !failed ==> newpos' <= data.Length
    ensures !failed ==> |cs.rest| < |old(cs.rest)|
    ensures old(Apply(src, cs.rest, ds.rest, es.rest, data.Length, oldpos, data[..newpos]))
         == if failed then bad else Apply(src, cs.rest, ds.rest, es.rest, data.Length, oldpos', data[..newpos'])
  {
    hide OfftIn;
    ghost var C, D, E, out := cs.rest, ds.rest, es.rest, data[..newpos];
    newpos', oldpos', failed, bad := newpos, oldpos, true, Corrupt;
    var ok := cs.Fill(buf, 0, 24);
    if !ok { return; }
    assert buf[..] == C[..24];
    var x, y, z := OfftIn(buf[..8]), OfftIn(buf[8..16]), OfftIn(buf[16..24]);
    assert buf[..8] == C[..8] && buf[8..16] == C[8..16] && buf[16..24] == C[16..24];
    if newpos + x > data.Length { return; }
    if x < 0 { bad := Undefined; return; }
    ok := ds.Fill(data, newpos, x);
    if !ok { return; }
    AddInPlace(src, oldpos, data, newpos, x);
    newpos' := newpos + x;
    assert data[..newpos'] == out + AddOld(src, oldpos, D[..x]);
    if newpos' + y > data.Length { return; }
    if y < 0 { bad := Undefined; return; }
    ok := es.Fill(data, newpos', y);
    if !ok { return; }
    newpos' := newpos' + y;
    assert data[..newpos'] == out + AddOld(src, oldpos, D[..x]) + E[..y];
    oldpos' := oldpos + x + z;
    failed := false;
    ApplyStep(src, C, D, E, data.Length, oldpos, out, x, y, z);
  }

  /** The loop over triples, into a fresh buffer of the new file's size (bspatch.c:186-251). */
  method ApplyStreams(src: seq<Byte>, ctrl: seq<Byte>, diff: seq<Byte>, extra: seq<Byte>, size: nat)
    returns (r: Outcome)
    ensures r == Apply(src, ctrl, diff, extra, size, 0, [])
  {
    var cs := new Stream(ctrl);
    var ds := new Stream(diff);
    var es := new Stream(extra);
    var data := new Byte[size];
    var buf := new Byte[24];
    var oldpos, newpos := 0, 0;
    assert data[..0] == [];
    while newpos < size
      invariant 0 <= newpos <= size == data.Length
      invariant Apply(src, cs.rest, ds.rest, es.rest, size, oldpos, data[..newpos]) ==
                  Apply(src, ctrl, diff, extra, size, 0, [])
      decreases |cs.rest|
    {
      var failed, bad;
      newpos, oldpos, failed, bad := Round(src, cs, ds, es, buf, data, newpos, oldpos);
      if failed { return bad; }
    }
    return Done(data[..newpos], cs.rest, ds.rest, es.rest);
  }

  /** ApplyBSDiffPatchMem (bspatch.c:123-252). */
  method ApplyBSDiffPatchMem(src: seq<Byte>, patch: seq<Byte>, off: int, expand: Expand) returns (r: Outcome)
    ensures r == ApplyPatch(src, patch, off, expand)
  {
    hide Apply, OfftIn;
    if off < 0 || off + 32 > |patch| { return Undefined; }
    if patch[off..off + 8] != MAGIC { return Corrupt; }
    var ctrlLen, dataLen := OfftIn(patch[off + 8..off + 16]), OfftIn(patch[off + 16..off + 24]);
    var size := OfftIn(patch[off + 24..off + 32]);
    if ctrlLen < 0 || dataLen < 0 || size < 0 { return Corrupt; }
    if off + 32 + ctrlLen + dataLen > |patch| { return Undefined; }
    var c := off + 32 + ctrlLen;
    r := ApplyStreams(src, expand(patch[off + 32..c]), expand(patch[c..c + dataLen]), expand(patch[c + dataLen..]),
        size);
  }
}
