/**
 Computing a bsdiff patch (bsdiff.c:224-410): a scored scan of the new file t against the sorted
 suffixes of the old file s, emitting control triples, diff bytes and extra bytes.
 */
module BsDiff {
  import opened Bytes
  import opened Codec
  import opened SuffixOrder
  import opened BsSearch
  import opened BsPatch
  import BucketSort

  /** Byte k of the new file is found in the old one at distance off. */
  ghost predicate Hit(s: seq<Byte>, t: seq<Byte>, off: int, k: int)
  {
    0 <= k < |t| && 0 <= k + off < |s| && s[k + off] == t[k]
  }

  ghost function Hits(s: seq<Byte>, t: seq<Byte>, off: int, a: int, b: int): (r: int)
    ensures r >= 0
    decreases b - a
  {
    if a >= b then 0 else Hits(s, t, off, a, b - 1) + if Hit(s, t, off, b - 1) then 1 else 0
  }

  lemma {:induction false} HitsGrow(s: seq<Byte>, t: seq<Byte>, off: int, a: int, b: int, c: int)
    requires b <= c
    ensures Hits(s, t, off, a, b) <= Hits(s, t, off, a, c)
    decreases c - b
  {
    if b < c { HitsGrow(s, t, off, a, b, c - 1); }
  }

  lemma {:induction false} HitsFirst(s: seq<Byte>, t: seq<Byte>, off: int, a: int, b: int)
    requires a < b
    ensures Hits(s, t, off, a, b) == (if Hit(s, t, off, a) then 1 else 0) + Hits(s, t, off, a + 1, b)
    decreases b - a
  {
    if a + 1 < b { HitsFirst(s, t, off, a, b - 1); }
  }

  /** Counts the old alignment's hits up to the end of the new match (bsdiff.c:290-293). */
  method Advance(s: seq<Byte>, t: seq<Byte>, off: int, base: nat, scsc: nat, end: nat, oldscore: int)
    returns (scsc': nat, oldscore': int)
    requires base <= scsc <= |t| && end <= |t| && base + off >= 0
    ensures scsc' == (if scsc < end then end else scsc)
    ensures oldscore' - oldscore == Hits(s, t, off, base, scsc') - Hits(s, t, off, base, scsc)
  {
    scsc', oldscore' := scsc, oldscore;
    while scsc' < end
      invariant scsc <= scsc' <= (if scsc < end then end else scsc)
      invariant oldscore' - oldscore == Hits(s, t, off, base, scsc') - Hits(s, t, off, base, scsc)
    {
      if scsc' + off < |s| && s[scsc' + off] == t[scsc'] {
        oldscore' := oldscore' + 1;
      }
      scsc' := scsc' + 1;
    }
  }

  lemma {:induction false} HitsJoin(s: seq<Byte>, t: seq<Byte>, off: int, a: int, b: int, c: int)
    requires a <= b <= c
    ensures Hits(s, t, off, a, c) == Hits(s, t, off, a, b) + Hits(s, t, off, b, c)
    decreases c - b
  {
    if b < c { HitsJoin(s, t, off, a, b, c - 1); }
  }

  /**
   Searching at q gives this match, against which the old alignment, up to the match's end or further, scores this.
   */
  ghost predicate Looked(s: seq<Byte>, I: seq<int>, t: seq<Byte>, off: int, q: nat, len: nat, pos: nat, score: int)
  {
    exists lo: nat, hi: nat, end: int ::
      Found(s, I, t, q, len, pos, lo, hi) && q + len <= end <= |t| && score == Hits(s, t, off, q, end)
  }

  /** The match at q is not worth giving the old alignment up for, nor as good as it. */
  ghost predicate Passed(s: seq<Byte>, I: seq<int>, t: seq<Byte>, off: int, q: nat)
  {
    exists len: nat, pos: nat, score ::
      Looked(s, I, t, off, q, len, pos, score) && len <= score + 8 && (len == 0 || len != score)
  }

  /** The match at q is as good as the old alignment. */
  ghost predicate Agrees(s: seq<Byte>, I: seq<int>, t: seq<Byte>, off: int, q: nat, len: nat)
  {
    len > 0 && exists pos: nat :: Looked(s, I, t, off, q, len, pos, len)
  }

  /** The match at q is more than eight bytes better. */
  ghost predicate Worth(s: seq<Byte>, I: seq<int>, t: seq<Byte>, off: int, q: nat, len: nat, pos: nat)
  {
    exists score :: Looked(s, I, t, off, q, len, pos, score) && len > score + 8
  }

  /** Going from one position to the other, byte by byte past matches not worth it and over matches as good. */
  ghost predicate Walked(s: seq<Byte>, I: seq<int>, t: seq<Byte>, off: int, from: nat, to: nat)
    decreases to
  {
    || from == to
    || (from < to && Walked(s, I, t, off, from, to - 1) && Passed(s, I, t, off, to - 1))
    || exists q: nat :: from <= q < to && Agrees(s, I, t, off, q, to - q) && Walked(s, I, t, off, from, q)
  }

  lemma WalkOver(s: seq<Byte>, I: seq<int>, t: seq<Byte>, off: int, from: nat, to: nat, len: nat)
    requires from <= to && Walked(s, I, t, off, from, to) && Agrees(s, I, t, off, to, len)
    ensures Walked(s, I, t, off, from, to + len)
  {
    hide Agrees, Passed;
    assert Agrees(s, I, t, off, to, (to + len) - to);
    assert len > 0 by { AgreesPositive(s, I, t, off, to, len); }
  }

  lemma AgreesPositive(s: seq<Byte>, I: seq<int>, t: seq<Byte>, off: int, q: nat, len: nat)
    requires Agrees(s, I, t, off, q, len)
    ensures len > 0
  {
  }

  lemma WalkPast(s: seq<Byte>, I: seq<int>, t: seq<Byte>, off: int, from: nat, to: nat, len: nat, pos: nat, score: int)
    requires from <= to && Walked(s, I, t, off, from, to)
    requires Looked(s, I, t, off, to, len, pos, score) && len <= score + 8 && (len == 0 || len != score)
    ensures Walked(s, I, t, off, from, to + 1)
  {
    hide Looked, Agrees;
    assert Passed(s, I, t, off, to);
    hide Passed;
    assert to == (to + 1) - 1;
  }

  /** One position: the search, and the old alignment's hits up to the end of what it finds (bsdiff.c:287-293). */
  method Look(I: seq<int>, s: seq<Byte>, t: seq<Byte>, base: nat, off: int, scan: nat, scsc: nat, oldscore: int)
    returns (len: nat, pos: nat, scsc': nat, oldscore': int)
    requires IsSuffixArray(s, I) && base + off >= 0 && base <= scan < |t| && base <= scsc <= |t|
    requires oldscore == Hits(s, t, off, base, scsc) - Hits(s, t, off, base, scan)
    ensures pos <= |s| && scsc <= scsc' <= |t| && scan + len <= scsc'
    ensures oldscore' == Hits(s, t, off, base, scsc') - Hits(s, t, off, base, scan)
    ensures Looked(s, I, t, off, scan, len, pos, oldscore')
    ensures len == 0 ==> t[scan] !in s
  {
    ghost var lo, hi;
    hide Hits;
    len, pos, lo, hi := Search(I, s, t, scan, 0, |s|);
    scsc', oldscore' := Advance(s, t, off, base, scsc, scan + len, oldscore);
    HitsJoin(s, t, off, base, scan, scsc');
  }

  /**
   The scan for the next match (bsdiff.c:284-301).  The score never goes negative, so a scan that stops
   early stops on a non-empty match, and the search loop makes progress.  Everything it goes past is not worth a stop.
   */
  method Scan(I: seq<int>, s: seq<Byte>, t: seq<Byte>, base: nat, off: int, len0: nat, pos0: nat, ghost from: nat)
    returns (scan: nat, len: nat, pos: nat, oldscore: int)
    requires IsSuffixArray(s, I) && base <= |t| && base + off >= 0 && pos0 <= |s|
    requires from <= base && Walked(s, I, t, off, from, base)
    ensures base <= scan <= |t| && pos <= |s| && oldscore >= 0 && Walked(s, I, t, off, from, scan)
    ensures scan < |t| ==> 0 < len <= |t| - scan && (len == oldscore || len > oldscore + 8)
    ensures scan < |t| ==> Looked(s, I, t, off, scan, len, pos, oldscore)
  {
    hide IsSuffixArray, Walked, Looked;
    scan, len, pos, oldscore := base, len0, pos0, 0;
    var scsc := base;
    while scan < |t|
      invariant base <= scan <= |t| && base <= scsc <= |t| && pos <= |s| && Walked(s, I, t, off, from, scan)
      invariant 0 <= oldscore == Hits(s, t, off, base, scsc) - Hits(s, t, off, base, scan)
    {
      len, pos, scsc, oldscore := Look(I, s, t, base, off, scan, scsc, oldscore);
      HitsGrow(s, t, off, base, scan, scsc);
      if (len == oldscore && len != 0) || len > oldscore + 8 { break; }
      WalkPast(s, I, t, off, from, scan, len, pos, oldscore);
      if scsc > scan { HitsGrow(s, t, off, base, scan + 1, scsc); }
      if scan + off < |s| && s[scan + off] == t[scan] {
        assert t[scan] in s;
        oldscore := oldscore - 1;
      }
      scan := scan + 1;
    }
  }

  /** Twice the hits less the length: what an extension of length i from an end at e scores. */
  ghost function ForwardScore(s: seq<Byte>, t: seq<Byte>, lastscan: int, lastpos: int, i: int): (r: int)
  {
    2 * Hits(s, t, lastpos - lastscan, lastscan, lastscan + i) - i
  }

  ghost function BackwardScore(s: seq<Byte>, t: seq<Byte>, scan: int, pos: int, i: int): (r: int)
  {
    2 * Hits(s, t, pos - scan, scan - i, scan) - i
  }

  /** No forward extension that fits scores more than that of length lenf. */
  ghost predicate BestForward(s: seq<Byte>, t: seq<Byte>, lastscan: int, lastpos: int, scan: int, lenf: int)
  {
    && 0 <= lenf && lastscan + lenf <= scan && lastpos + lenf <= |s|
    && forall i :: 0 <= i <= scan - lastscan && lastpos + i <= |s| ==>
        ForwardScore(s, t, lastscan, lastpos, i) <= ForwardScore(s, t, lastscan, lastpos, lenf)
  }

  /** No backward extension that fits scores more than that of length lenb. */
  ghost predicate BestBackward(s: seq<Byte>, t: seq<Byte>, lastscan: int, scan: int, pos: int, lenb: int)
  {
    && 0 <= lenb && lastscan + lenb <= scan && lenb <= pos
    && forall i :: 0 <= i <= scan - lastscan && i <= pos ==>
        BackwardScore(s, t, scan, pos, i) <= BackwardScore(s, t, scan, pos, lenb)
  }

  /** How far the last match is worth extending forward (bsdiff.c:304-309). */
  method ExtendForward(s: seq<Byte>, t: seq<Byte>, lastscan: nat, lastpos: nat, scan: nat) returns (lenf: nat)
    requires lastscan <= scan <= |t| && lastpos <= |s|
    ensures BestForward(s, t, lastscan, lastpos, scan, lenf)
  {
    var hits, best, i := 0, 0, 0;
    lenf := 0;
    while lastscan + i < scan && lastpos + i < |s|
      invariant 0 <= lenf <= i && lastscan + i <= scan && lastpos + i <= |s|
      invariant hits == Hits(s, t, lastpos - lastscan, lastscan, lastscan + i)
      invariant best == Hits(s, t, lastpos - lastscan, lastscan, lastscan + lenf)
      invariant forall k :: 0 <= k <= i ==>
                ForwardScore(s, t, lastscan, lastpos, k) <= ForwardScore(s, t, lastscan, lastpos, lenf)
    {
      if s[lastpos + i] == t[lastscan + i] {
        hits := hits + 1;
      }
      i := i + 1;
      if hits * 2 - i > best * 2 - lenf {
        best, lenf := hits, i;
      }
    }
  }

  /** How far the new match is worth extending backward (bsdiff.c:311-318). */
  method ExtendBackward(s: seq<Byte>, t: seq<Byte>, lastscan: nat, scan: nat, pos: nat) returns (lenb: nat)
    requires lastscan <= scan < |t| && pos <= |s|
    ensures BestBackward(s, t, lastscan, scan, pos, lenb)
  {
    var hits, best, i := 0, 0, 1;
    lenb := 0;
    while scan >= lastscan + i && pos >= i
      invariant 0 <= lenb < i && lastscan + i <= scan + 1 && i <= pos + 1
      invariant hits == Hits(s, t, pos - scan, scan - i + 1, scan)
      invariant best == Hits(s, t, pos - scan, scan - lenb, scan)
      invariant forall k :: 0 <= k < i ==> BackwardScore(s, t, scan, pos, k) <= BackwardScore(s, t, scan, pos, lenb)
    {
      HitsFirst(s, t, pos - scan, scan - i, scan);
      if s[pos - i] == t[scan - i] {
        hits := hits + 1;
      }
      if hits * 2 - i > best * 2 - lenb {
        best, lenb := hits, i;
      }
      i := i + 1;
    }
  }

  /** Hits of the forward extension less those of the backward one over the first i bytes of their overlap. */
  ghost function OverlapScore(s: seq<Byte>, t: seq<Byte>, lastscan: int, lastpos: int, scan: int, pos: int, lenb: int,
      i: int): (r: int)
  {
    var o := scan - lenb;
    Hits(s, t, lastpos - lastscan, o, o + i) - Hits(s, t, pos - scan, o, o + i)
  }

  /** The extensions are left alone if they do not overlap, and else cut where the forward one gains most, to meet. */
  ghost predicate Trimmed(s: seq<Byte>, t: seq<Byte>, lastscan: int, lastpos: int, scan: int, pos: int, lenf: int,
      lenb: int, lenf': int, lenb': int)
  {
    && 0 <= lenf' <= lenf && 0 <= lenb' <= lenb && lastscan + lenf' <= scan - lenb'
    && if lastscan + lenf <= scan - lenb then lenf' == lenf && lenb' == lenb
       else lastscan + lenf' == scan - lenb' >= scan - lenb &&
            forall i :: 0 <= i <= (lastscan + lenf) - (scan - lenb) ==>
              OverlapScore(s, t, lastscan, lastpos, scan, pos, lenb, i)
              <= OverlapScore(s, t, lastscan, lastpos, scan, pos, lenb, lenb - lenb')
  }

  /** Where to cut overlapping extensions (bsdiff.c:320-333); both new lengths stay non-negative and then just meet. */
  method Trim(s: seq<Byte>, t: seq<Byte>, lastscan: nat, lastpos: nat, scan: nat, pos: nat, lenf: nat, lenb: nat)
    returns (lenf': nat, lenb': nat)
    requires lastscan + lenf <= scan <= |t| && lastpos + lenf <= |s| && lastscan + lenb <= scan && lenb <= pos <= |s|
    ensures Trimmed(s, t, lastscan, lastpos, scan, pos, lenf, lenb, lenf', lenb')
  {
    lenf', lenb' := lenf, lenb;
    if lastscan + lenf > scan - lenb {
      var overlap := (lastscan + lenf) - (scan - lenb);
      var score, best, lens, i := 0, 0, 0, 0;
      while i < overlap
        invariant 0 <= lens <= i <= overlap
        invariant score == OverlapScore(s, t, lastscan, lastpos, scan, pos, lenb, i)
        invariant best == OverlapScore(s, t, lastscan, lastpos, scan, pos, lenb, lens)
        invariant forall k :: 0 <= k <= i ==> OverlapScore(s, t, lastscan, lastpos, scan, pos, lenb, k) <= best
      {
        if t[lastscan + lenf - overlap + i] == s[lastpos + lenf - overlap + i] {
          score := score + 1;
        }
        if t[scan - lenb + i] == s[pos - lenb + i] {
          score := score - 1;
        }
        if score > best {
          best, lens := score, i + 1;
        }
        i := i + 1;
      }
      lenf', lenb' := lenf + lens - overlap, lenb - lens;
    }
  }

  /** What is left to store of a stretch copied from the old file. */
  ghost function DiffBytes(s: seq<Byte>, t: seq<Byte>, lastscan: nat, lastpos: nat, lenf: nat): (d: seq<Byte>)
    requires lastscan + lenf <= |t| && lastpos + lenf <= |s|
    ensures |d| == lenf
  {
    seq<Byte>(lenf, i requires 0 <= i < lenf => Sub8(t[lastscan + i], s[lastpos + i]))
  }

  lemma DiffBytesUndone(s: seq<Byte>, t: seq<Byte>, lastscan: nat, lastpos: nat, lenf: nat)
    requires lastscan + lenf <= |t| && lastpos + lenf <= |s|
    ensures AddOld(s, lastpos, DiffBytes(s, t, lastscan, lastpos, lenf)) == t[lastscan..lastscan + lenf]
  {
    var d := DiffBytes(s, t, lastscan, lastpos, lenf);
    forall i | 0 <= i < lenf
      ensures AddOld(s, lastpos, d)[i] == t[lastscan..lastscan + lenf][i]
    {
      assert d[i] == Sub8(t[lastscan + i], s[lastpos + i]);
      AddOldAt(s, lastpos, d, i);
      Undone(t[lastscan + i], s[lastpos + i]);
    }
  }

  lemma AddOldAt(s: seq<Byte>, pos: nat, d: seq<Byte>, i: nat)
    requires i < |d| && pos + |d| <= |s|
    ensures AddOld(s, pos, d)[i] == Add8(d[i], s[pos + i])
  {
  }

  lemma Undone(a: Byte, b: Byte)
    ensures Add8(Sub8(a, b), b) == a
  {
  }

  /** Appends diff bytes to db (bsdiff.c:335-336). */
  method StoreDiff(s: seq<Byte>, t: seq<Byte>, lastscan: nat, lastpos: nat, lenf: nat, db: array<Byte>, dblen: nat)
    requires lastscan + lenf <= |t| && lastpos + lenf <= |s| && dblen + lenf <= db.Length
    modifies db
    ensures db[..dblen + lenf] == old(db[..dblen]) + DiffBytes(s, t, lastscan, lastpos, lenf)
  {
    ghost var d := DiffBytes(s, t, lastscan, lastpos, lenf);
    var i := 0;
    while i < lenf
      invariant 0 <= i <= lenf
      invariant forall m :: 0 <= m < dblen ==> db[m] == old(db[m])
      invariant forall m :: dblen <= m < dblen + i ==> db[m] == d[m - dblen]
    {
      assert d[i] == Sub8(t[lastscan + i], s[lastpos + i]);
      db[dblen + i] := Sub8(t[lastscan + i], s[lastpos + i]);
      i := i + 1;
    }
  }

  /** Appends extra bytes to eb (bsdiff.c:337-338). */
  method StoreExtra(t: seq<Byte>, from: nat, n: nat, eb: array<Byte>, eblen: nat)
    requires from + n <= |t| && eblen + n <= eb.Length
    modifies eb
    ensures eb[..eblen + n] == old(eb[..eblen]) + t[from..from + n]
  {
    var i := 0;
    while i < n
      invariant 0 <= i <= n
      invariant eb[..eblen + i] == old(eb[..eblen]) + t[from..from + i]
    {
      eb[eblen + i] := t[from + i];
      assert eb[..eblen + i + 1] == eb[..eblen + i] + [eb[eblen + i]];
      i := i + 1;
    }
  }

  // ---------------------------------------------------------------- what the emitted streams mean

  /**
   Whatever follows them, the streams written so far bring the applier to position lastpos of the old
   file, having rebuilt the first lastscan bytes of the new one and read all it was given.
   */
  ghost predicate Written(s: seq<Byte>, t: seq<Byte>, ctrl: seq<Byte>, diff: seq<Byte>, extra: seq<Byte>, lastscan: int,
      lastpos: int)
  {
    && 0 <= lastscan <= |t| && 0 <= lastpos <= |s|
    && forall c, d, e :: Apply(s, ctrl + c, diff + d, extra + e, |t|, 0, []) ==
        Apply(s, c, d, e, |t|, lastpos, t[..lastscan])
  }

  function Triple(x: int, y: int, z: int): (b: seq<Byte>)
    ensures |b| == 24
  {
    OfftOut(x) + OfftOut(y) + OfftOut(z)
  }

  /** Writing one more triple with its bytes. */
  lemma WriteTriple(s: seq<Byte>, t: seq<Byte>, ctrl: seq<Byte>, diff: seq<Byte>, extra: seq<Byte>, lastscan: nat,
      lastpos: nat, x: nat, y: nat, z: int)
    requires Written(s, t, ctrl, diff, extra, lastscan, lastpos) && |s| < TWO63 && |t| < TWO63
    requires lastscan < |t| && lastscan + x + y <= |t| && lastpos + x <= |s| && 0 <= lastpos + x + z <= |s|
    ensures Written(s, t, ctrl + Triple(x, y, z), diff + DiffBytes(s, t, lastscan, lastpos, x),
                    extra + t[lastscan + x..lastscan + x + y], lastscan + x + y, lastpos + x + z)
  {
    hide Apply, Triple, DiffBytes;
    var D, E := DiffBytes(s, t, lastscan, lastpos, x), t[lastscan + x..lastscan + x + y];
    forall c: seq<Byte>, d: seq<Byte>, e: seq<Byte>
      ensures Apply(s, ctrl + Triple(x, y, z) + c, diff + D + d, extra + E + e, |t|, 0, [])
           == Apply(s, c, d, e, |t|, lastpos + x + z, t[..lastscan + x + y])
    {
      assert ctrl + Triple(x, y, z) + c == ctrl + (Triple(x, y, z) + c);
      assert diff + D + d == diff + (D + d) && extra + E + e == extra + (E + e);
      TripleApplies(s, t, c, d, e, lastscan, lastpos, x, y, z);
    }
  }

  lemma TripleApplies(s: seq<Byte>, t: seq<Byte>, c: seq<Byte>, d: seq<Byte>, e: seq<Byte>, lastscan: nat, lastpos: nat,
                      x: nat, y: nat, z: int)
    requires |s| < TWO63 && |t| < TWO63
    requires lastscan < |t| && lastscan + x + y <= |t| && lastpos + x <= |s| && 0 <= lastpos + x + z <= |s|
    ensures Apply(s, Triple(x, y, z) + c, DiffBytes(s, t, lastscan, lastpos, x) + d,
            t[lastscan + x..lastscan + x + y] + e,
                  |t|, lastpos, t[..lastscan])
         == Apply(s, c, d, e, |t|, lastpos + x + z, t[..lastscan + x + y])
  {
    hide Apply, DiffBytes, AddOld, OfftOut, OfftIn;
    var C, D, E := Triple(x, y, z) + c, DiffBytes(s, t, lastscan, lastpos, x) + d,
        t[lastscan + x..lastscan + x + y] + e;
    OfftRoundTrip(x);
    OfftRoundTrip(y);
    OfftRoundTrip(z);
    assert C[..8] == OfftOut(x) && C[8..16] == OfftOut(y) && C[16..24] == OfftOut(z) && C[24..] == c;
    assert D[..x] == DiffBytes(s, t, lastscan, lastpos, x) && D[x..] == d;
    assert E[..y] == t[lastscan + x..lastscan + x + y] && E[y..] == e;
    DiffBytesUndone(s, t, lastscan, lastpos, x);
    assert t[..lastscan] + t[lastscan..lastscan + x] + t[lastscan + x..lastscan + x + y] == t[..lastscan + x + y];
    ApplyStep(s, C, D, E, |t|, lastpos, t[..lastscan], x, y, z);
  }

  lemma NothingWritten(s: seq<Byte>, t: seq<Byte>)
    ensures Written(s, t, [], [], [], 0, 0)
  {
    forall c: seq<Byte>, d: seq<Byte>, e: seq<Byte>
      ensures Apply(s, [] + c, [] + d, [] + e, |t|, 0, []) == Apply(s, c, d, e, |t|, 0, t[..0])
    {
      assert [] + c == c && [] + d == d && [] + e == e && t[..0] == [];
    }
  }

  lemma AllWritten(s: seq<Byte>, t: seq<Byte>, ctrl: seq<Byte>, diff: seq<Byte>, extra: seq<Byte>, lastpos: int)
    requires Written(s, t, ctrl, diff, extra, |t|, lastpos)
    ensures Apply(s, ctrl, diff, extra, |t|, 0, []) == Done(t, [], [], [])
  {
    assert ctrl + [] == ctrl && diff + [] == diff && extra + [] == extra && t[..|t|] == t;
    assert Apply(s, ctrl + [], diff + [], extra + [], |t|, 0, []) == Apply(s, [], [], [], |t|, lastpos, t[..|t|]);
  }

  // ---------------------------------------------------------------- which triples are emitted

  /**
   One emission: where the last one left off and where scanning went on, where the next match is and how long, the two
   extensions before they are trimmed, and after.
   */
  datatype Cut = Cut(lastscan: nat, lastpos: nat, from: nat, scan: nat, pos: nat, len: nat, fwd: nat, back: nat,
                     lenf: nat, lenb: nat)

  /** The old alignment is left for the first match worth it or at the end, and its stretch extended as it should be. */
  ghost predicate CutOk(s: seq<Byte>, I: seq<int>, t: seq<Byte>, c: Cut)
  {
    && c.lastscan <= c.scan <= |t| && c.lastscan < |t| && c.lastpos <= |s| && c.pos <= |s| && c.from <= c.scan
    && Walked(s, I, t, c.lastpos - c.lastscan, c.from, c.scan)
    && BestForward(s, t, c.lastscan, c.lastpos, c.scan, c.fwd)
    && (c.scan < |t| ==>
          && Worth(s, I, t, c.lastpos - c.lastscan, c.scan, c.len, c.pos)
          && BestBackward(s, t, c.lastscan, c.scan, c.pos, c.back))
    && (c.scan == |t| ==> c.back == 0)
    && Trimmed(s, t, c.lastscan, c.lastpos, c.scan, c.pos, c.fwd, c.back, c.lenf, c.lenb)
    && c.lastscan + c.lenf <= |t| && c.lastpos + c.lenf <= |s| && c.lenb <= c.pos
  }

  ghost function CutTriple(c: Cut): (b: seq<Byte>)
  {
    Triple(c.lenf, (c.scan - c.lenb) - (c.lastscan + c.lenf), (c.pos - c.lenb) - (c.lastpos + c.lenf))
  }

  ghost function CutExtra(t: seq<Byte>, c: Cut): (b: seq<Byte>)
    requires c.lastscan + c.lenf <= c.scan - c.lenb <= |t|
  {
    t[c.lastscan + c.lenf..c.scan - c.lenb]
  }

  /** The streams are what these emissions, each going on where the one before left off, have put there. */
  ghost predicate Traced(s: seq<Byte>, I: seq<int>, t: seq<Byte>, cuts: seq<Cut>, ctrl: seq<Byte>, diff: seq<Byte>,
      extra: seq<Byte>, lastscan: int, lastpos: int, from: int)
    decreases |cuts|
  {
    if cuts == [] then ctrl == [] && diff == [] && extra == [] && lastscan == 0 && lastpos == 0 && from == 0
    else
      var c := cuts[|cuts| - 1];
      && CutOk(s, I, t, c) && lastscan == c.scan - c.lenb && lastpos == c.pos - c.lenb && from == c.scan + c.len
      && exists k, d, e :: 0 <= k <= |ctrl| && 0 <= d <= |diff| && 0 <= e <= |extra| &&
           Grown(s, I, t, c, ctrl, diff, extra, k, d, e) &&
           Traced(s, I, t, cuts[..|cuts| - 1], ctrl[..k], diff[..d], extra[..e], c.lastscan, c.lastpos, c.from)
  }

  /** Beyond their fronts of these lengths the streams hold what the emission adds. */
  ghost predicate Grown(s: seq<Byte>, I: seq<int>, t: seq<Byte>, c: Cut, ctrl: seq<Byte>, diff: seq<Byte>,
      extra: seq<Byte>, k: nat,
      d: nat, e: nat)
    requires CutOk(s, I, t, c) && k <= |ctrl| && d <= |diff| && e <= |extra|
  {
    && ctrl[k..] == CutTriple(c) && diff[d..] == DiffBytes(s, t, c.lastscan, c.lastpos, c.lenf)
    && extra[e..] == CutExtra(t, c)
  }

  lemma TraceNext(s: seq<Byte>, I: seq<int>, t: seq<Byte>, cuts: seq<Cut>, c: Cut, ctrl: seq<Byte>, diff: seq<Byte>,
      extra: seq<Byte>)
    requires Traced(s, I, t, cuts, ctrl, diff, extra, c.lastscan, c.lastpos, c.from) && CutOk(s, I, t, c)
    ensures Traced(s, I, t, cuts + [c], ctrl + CutTriple(c), diff + DiffBytes(s, t, c.lastscan, c.lastpos, c.lenf),
                   extra + CutExtra(t, c), c.scan - c.lenb, c.pos - c.lenb, c.scan + c.len)
  {
    CutFits(s, I, t, c);
    hide *;
    var tr, db, eb := CutTriple(c), DiffBytes(s, t, c.lastscan, c.lastpos, c.lenf), CutExtra(t, c);
    var C, D, E := ctrl + tr, diff + db, extra + eb;
    Parts(ctrl, tr);
    Parts(diff, db);
    Parts(extra, eb);
    GrownIs(s, I, t, c, C, D, E, |ctrl|, |diff|, |extra|);
    assert (cuts + [c])[..|cuts|] == cuts;
    TraceIs(s, I, t, cuts + [c], C, D, E, |ctrl|, |diff|, |extra|, cuts, ctrl, diff, extra);
  }

  lemma CutFits(s: seq<Byte>, I: seq<int>, t: seq<Byte>, c: Cut)
    requires CutOk(s, I, t, c)
    ensures c.lastscan + c.lenf <= |t| && c.lastpos + c.lenf <= |s| && c.lastscan + c.lenf <= c.scan - c.lenb <= |t|
  {
    hide BestForward, BestBackward, Worth, Walked;
  }

  lemma Parts(a: seq<Byte>, b: seq<Byte>)
    ensures (a + b)[..|a|] == a && (a + b)[|a|..] == b
  {
  }

  lemma GrownIs(s: seq<Byte>, I: seq<int>, t: seq<Byte>, c: Cut, ctrl: seq<Byte>, diff: seq<Byte>, extra: seq<Byte>,
      k: nat, d: nat,
      e: nat)
    requires CutOk(s, I, t, c) && k <= |ctrl| && d <= |diff| && e <= |extra| && ctrl[k..] == CutTriple(c)
    requires diff[d..] == DiffBytes(s, t, c.lastscan, c.lastpos, c.lenf) && extra[e..] == CutExtra(t, c)
    ensures Grown(s, I, t, c, ctrl, diff, extra, k, d, e)
  {
    hide CutOk, CutTriple, DiffBytes, CutExtra;
  }

  lemma TraceIs(s: seq<Byte>, I: seq<int>, t: seq<Byte>, cuts: seq<Cut>, ctrl: seq<Byte>, diff: seq<Byte>,
      extra: seq<Byte>, k: nat,
      d: nat, e: nat, before: seq<Cut>, ctrl0: seq<Byte>, diff0: seq<Byte>, extra0: seq<Byte>)
    requires cuts != [] && before == cuts[..|cuts| - 1] && k <= |ctrl| && d <= |diff| && e <= |extra|
    requires ctrl0 == ctrl[..k] && diff0 == diff[..d] && extra0 == extra[..e]
    requires var c := cuts[|cuts| - 1];
      && CutOk(s, I, t, c) && Grown(s, I, t, c, ctrl, diff, extra, k, d, e)
      && Traced(s, I, t, before, ctrl0, diff0, extra0, c.lastscan, c.lastpos, c.from)
    ensures var c := cuts[|cuts| - 1];
            Traced(s, I, t, cuts, ctrl, diff, extra, c.scan - c.lenb, c.pos - c.lenb, c.scan + c.len)
  {
    hide CutOk, Grown;
  }

  /** A file against itself: one alignment hits everywhere. */
  lemma {:induction false} AllHit(s: seq<Byte>, a: int, b: int)
    requires 0 <= a <= b <= |s|
    ensures Hits(s, s, 0, a, b) == b - a
    decreases b - a
  {
    if a < b { AllHit(s, a, b - 1); }
  }

  lemma NeverWorth(s: seq<Byte>, I: seq<int>, q: nat, len: nat, pos: nat)
    ensures !Worth(s, I, s, 0, q, len, pos)
  {
    if score :| Looked(s, I, s, 0, q, len, pos, score) && len > score + 8 {
      var lo: nat, hi: nat, end: int :|
        Found(s, I, s, q, len, pos, lo, hi) && q + len <= end <= |s| && score == Hits(s, s, 0, q, end);
      AllHit(s, q, end);
    }
  }

  /** So the only cut is at the end, and it takes everything from the old file. */
  lemma FirstCutIsLast(s: seq<Byte>, I: seq<int>, c: Cut)
    requires CutOk(s, I, s, c) && c.lastscan == 0 && c.lastpos == 0
    ensures c.scan == |s| && c.lenf == |s| && c.lenb == 0
  {
    hide Walked, BestBackward;
    assert c.scan == |s| by {
      if c.scan < |s| { NeverWorth(s, I, c.scan, c.len, c.pos); }
    }
    AllHit(s, 0, |s|);
    AllHit(s, 0, c.fwd);
    assert ForwardScore(s, s, 0, 0, |s|) <= ForwardScore(s, s, 0, 0, c.fwd);
  }

  /** Between a file and itself nothing is stored but zeros. */
  lemma {:induction false} SameFile(s: seq<Byte>, I: seq<int>, cuts: seq<Cut>, ctrl: seq<Byte>, diff: seq<Byte>,
      extra: seq<Byte>,
      lastscan: int, lastpos: int, from: int)
    requires Traced(s, I, s, cuts, ctrl, diff, extra, lastscan, lastpos, from)
    ensures extra == [] && |cuts| <= 1 && |ctrl| == 24 * |cuts| && forall i :: 0 <= i < |diff| ==> diff[i] == 0
    ensures cuts != [] ==> lastscan == |s| == |diff|
    decreases |cuts|
  {
    if cuts != [] {
      var n, c := |cuts| - 1, cuts[|cuts| - 1];
      var k, d, e := TraceLast(s, I, s, cuts, ctrl, diff, extra, lastscan, lastpos, from);
      SameFile(s, I, cuts[..n], ctrl[..k], diff[..d], extra[..e], c.lastscan, c.lastpos, c.from);
      CutEarly(s, I, s, c);
      hide Traced, CutOk, Grown;
      assert cuts[..n] == [];
      TraceFirst(s, I, s, ctrl[..k], diff[..d], extra[..e], c.lastscan, c.lastpos, c.from);
      SameCut(s, I, c, ctrl, diff, extra);
    } else {
      TraceFirst(s, I, s, ctrl, diff, extra, lastscan, lastpos, from);
    }
  }

  lemma CutEarly(s: seq<Byte>, I: seq<int>, t: seq<Byte>, c: Cut)
    requires CutOk(s, I, t, c)
    ensures c.lastscan < |t|
  {
  }

  lemma TraceFirst(s: seq<Byte>, I: seq<int>, t: seq<Byte>, ctrl: seq<Byte>, diff: seq<Byte>, extra: seq<Byte>,
      lastscan: int,
      lastpos: int, from: int)
    requires Traced(s, I, t, [], ctrl, diff, extra, lastscan, lastpos, from)
    ensures ctrl == [] && diff == [] && extra == [] && lastscan == 0 && lastpos == 0
  {
  }

  lemma TraceLast(s: seq<Byte>, I: seq<int>, t: seq<Byte>, cuts: seq<Cut>, ctrl: seq<Byte>, diff: seq<Byte>,
      extra: seq<Byte>,
      lastscan: int, lastpos: int, from: int) returns (k: nat, d: nat, e: nat)
    requires Traced(s, I, t, cuts, ctrl, diff, extra, lastscan, lastpos, from) && cuts != []
    ensures k <= |ctrl| && d <= |diff| && e <= |extra|
    ensures var c := cuts[|cuts| - 1];
      && CutOk(s, I, t, c) && lastscan == c.scan - c.lenb && Grown(s, I, t, c, ctrl, diff, extra, k, d, e)
      && Traced(s, I, t, cuts[..|cuts| - 1], ctrl[..k], diff[..d], extra[..e], c.lastscan, c.lastpos, c.from)
  {
    hide CutOk, Grown;
    var c := cuts[|cuts| - 1];
    k, d, e :| 0 <= k <= |ctrl| && 0 <= d <= |diff| && 0 <= e <= |extra| &&
      Grown(s, I, t, c, ctrl, diff, extra, k, d, e) &&
      Traced(s, I, t, cuts[..|cuts| - 1], ctrl[..k], diff[..d], extra[..e], c.lastscan, c.lastpos, c.from);
  }

  lemma SameCut(s: seq<Byte>, I: seq<int>, c: Cut, ctrl: seq<Byte>, diff: seq<Byte>, extra: seq<Byte>)
    requires CutOk(s, I, s, c) && c.lastscan == 0 && c.lastpos == 0 && Grown(s, I, s, c, ctrl, diff, extra, 0, 0, 0)
    ensures extra == [] && |ctrl| == 24 && |diff| == |s| == c.scan - c.lenb && forall i :: 0 <= i < |s| ==> diff[i] == 0
  {
    FirstCutIsLast(s, I, c);
    assert diff[0..] == diff && extra[0..] == extra && ctrl[0..] == ctrl;
    hide CutOk, Triple;
    forall i | 0 <= i < |s|
      ensures diff[i] == 0
    {
      assert diff[i] == DiffBytes(s, s, 0, 0, c.lenf)[i] == Sub8(s[i], s[i]);
    }
  }

  /** Emits one triple with its diff and extra bytes (bsdiff.c:335-357). */
  method Emit(s: seq<Byte>, t: seq<Byte>, lastscan: nat, lastpos: nat, scan: nat, pos: nat, lenf: nat, lenb: nat,
              ctrl: seq<Byte>, db: array<Byte>, dblen: nat, eb: array<Byte>, eblen: nat, ghost I: seq<int>,
              ghost cuts: seq<Cut>, ghost c: Cut)
    returns (ctrl': seq<Byte>, dblen': nat, eblen': nat)
    requires |s| < TWO63 && |t| < TWO63 && db != eb && db.Length == eb.Length == |t| + 1 &&
             dblen + eblen == lastscan < |t|
    requires lastscan + lenf <= scan - lenb && scan <= |t| && lastpos + lenf <= |s| && lenb <= pos <= |s|
    requires Written(s, t, ctrl, db[..dblen], eb[..eblen], lastscan, lastpos)
    requires CutOk(s, I, t, c) && c.lastscan == lastscan && c.lastpos == lastpos && c.scan == scan && c.pos == pos
    requires c.lenf == lenf && c.lenb == lenb
    requires Traced(s, I, t, cuts, ctrl, db[..dblen], eb[..eblen], lastscan, lastpos, c.from)
    modifies db, eb
    ensures dblen' + eblen' == scan - lenb
    ensures Traced(s, I, t, cuts + [c], ctrl', db[..dblen'], eb[..eblen'], scan - lenb, pos - lenb, scan + c.len)
    ensures Written(s, t, ctrl', db[..dblen'], eb[..eblen'], scan - lenb, pos - lenb)
  {
    hide *;
    var y, z := (scan - lenb) - (lastscan + lenf), (pos - lenb) - (lastpos + lenf);
    WriteTriple(s, t, ctrl, db[..dblen], eb[..eblen], lastscan, lastpos, lenf, y, z);
    TraceNext(s, I, t, cuts, c, ctrl, db[..dblen], eb[..eblen]);
    CutIs(t, c, y, z);
    ghost var E := eb[..eblen];
    StoreDiff(s, t, lastscan, lastpos, lenf, db, dblen);
    assert eb[..eblen] == E;
    ghost var D := db[..dblen + lenf];
    StoreExtra(t, lastscan + lenf, y, eb, eblen);
    assert db[..dblen + lenf] == D;
    dblen', eblen' := dblen + lenf, eblen + y;
    ctrl' := ctrl + Triple(lenf, y, z);
  }

  lemma NothingTraced(s: seq<Byte>, I: seq<int>, t: seq<Byte>)
    ensures Traced(s, I, t, [], [], [], [], 0, 0, 0) && Walked(s, I, t, 0, 0, 0)
  {
  }

  /** The lengths of both extensions (bsdiff.c:304-333). */
  method Lengths(s: seq<Byte>, t: seq<Byte>, lastscan: nat, lastpos: nat, scan: nat, pos: nat, ghost I: seq<int>,
      ghost from: nat, ghost len: nat)
    returns (lenf: nat, lenb: nat, ghost c: Cut)
    requires lastscan <= scan <= |t| && lastscan < |t| && lastpos <= |s| && pos <= |s|
    requires from <= scan && Walked(s, I, t, lastpos - lastscan, from, scan)
    requires scan < |t| ==> Worth(s, I, t, lastpos - lastscan, scan, len, pos)
    ensures CutOk(s, I, t, c) && c.lastscan == lastscan && c.lastpos == lastpos && c.scan == scan && c.pos == pos
    ensures c.lenf == lenf && c.lenb == lenb && c.from == from && c.len == len
    ensures lastscan + lenf <= scan - lenb && lastpos + lenf <= |s| && lenb <= pos && (scan == |t| ==> lenb == 0)
  {
    hide Worth, Walked, OverlapScore, ForwardScore, BackwardScore;
    lenb := 0;
    lenf := ExtendForward(s, t, lastscan, lastpos, scan);
    if scan < |t| {
      lenb := ExtendBackward(s, t, lastscan, scan, pos);
    }
    ghost var fwd, back := lenf, lenb;
    lenf, lenb := Trim(s, t, lastscan, lastpos, scan, pos, lenf, lenb);
    c := Cut(lastscan, lastpos, from, scan, pos, len, fwd, back, lenf, lenb);
  }

  lemma CutIs(t: seq<Byte>, c: Cut, y: int, z: int)
    requires c.lastscan + c.lenf <= c.scan - c.lenb <= |t|
    requires y == (c.scan - c.lenb) - (c.lastscan + c.lenf) && z == (c.pos - c.lenb) - (c.lastpos + c.lenf)
    ensures CutTriple(c) == Triple(c.lenf, y, z)
    ensures CutExtra(t, c) == t[c.lastscan + c.lenf..c.lastscan + c.lenf + y]
  {
    hide Triple;
  }

  /**
   The main loop of bsdiff (bsdiff.c:281-362): for every old and new file it terminates, and the three
   streams rebuild exactly the new file, every byte of them read.  They are the record of a series of cuts: the old
   alignment is given up at the first match more than eight bytes better, or at the end, and each stretch is extended
   to its best score and trimmed at its best place.
   */
  method DiffStreams(I: seq<int>, s: seq<Byte>, t: seq<Byte>)
    returns (ctrl: seq<Byte>, diff: seq<Byte>, extra: seq<Byte>, ghost cuts: seq<Cut>, ghost end: int,
             ghost from: nat)
    requires IsSuffixArray(s, I) && |s| < TWO63 && |t| < TWO63
    ensures Apply(s, ctrl, diff, extra, |t|, 0, []) == Done(t, [], [], [])
    ensures Traced(s, I, t, cuts, ctrl, diff, extra, |t|, end, from)
  {
    hide Written, IsSuffixArray, Traced, CutOk, Walked, Looked, Worth, Agrees;
    var db, eb := new Byte[|t| + 1], new Byte[|t| + 1];
    var dblen, eblen := 0, 0;
    ctrl := [];
    var scan, len, pos := 0, 0, 0;
    var lastscan, lastpos, lastoffset := 0, 0, 0;
    cuts, from := [], 0;
    NothingWritten(s, t);
    NothingTraced(s, I, t);
    assert db[..0] == [] && eb[..0] == [];
    while scan < |t|
      invariant 0 <= lastscan <= scan <= |t| && 0 <= pos <= |s| && 0 <= lastpos <= |s| && 0 <= len
      invariant scan < |t| ==> scan + len <= |t| && lastscan < |t|
      invariant scan == |t| ==> lastscan == |t|
      invariant scan + lastoffset >= 0 && 0 <= dblen && 0 <= eblen && dblen + eblen == lastscan
      invariant Written(s, t, ctrl, db[..dblen], eb[..eblen], lastscan, lastpos)
      invariant lastoffset == lastpos - lastscan
      invariant Traced(s, I, t, cuts, ctrl, db[..dblen], eb[..eblen], lastscan, lastpos, from)
      invariant scan < |t| ==> from <= scan + len && Walked(s, I, t, lastoffset, from, scan + len)
      decreases if scan >= |t| then 0 else 1 + |t| - scan - len
    {
      var oldscore;
      scan, len, pos, oldscore := Scan(I, s, t, scan + len, lastoffset, len, pos, from);
      if len != oldscore || scan == |t| {
        if scan < |t| { StopsWorth(s, I, t, lastoffset, scan, len, pos, oldscore); }
        var lenf, lenb;
        ghost var c;
        lenf, lenb, c := Lengths(s, t, lastscan, lastpos, scan, pos, I, from, len);
        ctrl, dblen, eblen :=
          Emit(s, t, lastscan, lastpos, scan, pos, lenf, lenb, ctrl, db, dblen, eb, eblen, I, cuts, c);
        lastscan, lastpos, lastoffset, cuts, from := scan - lenb, pos - lenb, pos - scan, cuts + [c], scan + len;
        WalkStarts(s, I, t, lastoffset, from);
      } else {
        StopsEqual(s, I, t, lastoffset, scan, len, pos);
        WalkOver(s, I, t, lastoffset, from, scan, len);
      }
    }
    end := lastpos;
    diff, extra := db[..dblen], eb[..eblen];
    AllWritten(s, t, ctrl, diff, extra, lastpos);
  }

  lemma WalkStarts(s: seq<Byte>, I: seq<int>, t: seq<Byte>, off: int, from: nat)
    ensures Walked(s, I, t, off, from, from)
  {
  }

  lemma StopsWorth(s: seq<Byte>, I: seq<int>, t: seq<Byte>, off: int, q: nat, len: nat, pos: nat, score: int)
    requires Looked(s, I, t, off, q, len, pos, score) && len > score + 8
    ensures Worth(s, I, t, off, q, len, pos)
  {
    hide Looked;
  }

  lemma StopsEqual(s: seq<Byte>, I: seq<int>, t: seq<Byte>, off: int, q: nat, len: nat, pos: nat)
    requires Looked(s, I, t, off, q, len, pos, len) && len > 0
    ensures Agrees(s, I, t, off, q, len)
  {
    hide Looked;
  }

  // ---------------------------------------------------------------- the patch file

  type Compress = seq<Byte> -> seq<Byte>

  /** All that is known of bzip2: a compressed stream expands to what went in, whatever bytes follow it. */
  ghost predicate Inverse2(compress: Compress, expand: Expand)
  {
    forall x, rest :: expand(compress(x) + rest) == x
  }

  function Header(ctrlLen: int, diffLen: int, newSize: int): (b: seq<Byte>)
    ensures |b| == 32
  {
    MAGIC + OfftOut(ctrlLen) + OfftOut(diffLen) + OfftOut(newSize)
  }

  /** A patch embedded anywhere in a larger file still applies: its header finds its three streams. */
  lemma PatchApplies(s: seq<Byte>, t: seq<Byte>, ctrl: seq<Byte>, diff: seq<Byte>, extra: seq<Byte>,
                     compress: Compress, expand: Expand, before: seq<Byte>, after: seq<Byte>)
    requires Inverse2(compress, expand) && |t| < TWO63 && |compress(ctrl)| < TWO63 && |compress(diff)| < TWO63
    requires Apply(s, ctrl, diff, extra, |t|, 0, []) == Done(t, [], [], [])
    ensures var header := Header(|compress(ctrl)|, |compress(diff)|, |t|);
            var patch := header + compress(ctrl) + compress(diff) + compress(extra);
            ApplyPatch(s, before + patch + after, |before|, expand) == Done(t, [], [], [])
  {
    hide Apply, OfftOut, OfftIn, Inverse2;
    var C, D, E := compress(ctrl), compress(diff), compress(extra);
    var h := Header(|C|, |D|, |t|);
    var whole := before + (h + C + D + E) + after;
    var o := |before|;
    OfftRoundTrip(|C|);
    OfftRoundTrip(|D|);
    OfftRoundTrip(|t|);
    HeaderFields(before, h, C, D, E + after, |C|, |D|, |t|);
    assert whole == before + h + C + D + (E + after);
    Streams(ctrl, diff, extra, compress, expand, after);
  }

  lemma HeaderFields(before: seq<Byte>, h: seq<Byte>, C: seq<Byte>, D: seq<Byte>, rest: seq<Byte>, c: int, d: int,
      n: int)
    requires h == Header(c, d, n)
    ensures var w, o := before + h + C + D + rest, |before|;
            && |w| == o + 32 + |C| + |D| + |rest|
            && w[o..o + 8] == MAGIC && w[o + 8..o + 16] == OfftOut(c) && w[o + 16..o + 24] == OfftOut(d) &&
                w[o + 24..o + 32] == OfftOut(n)
            && w[o + 32..o + 32 + |C|] == C && w[o + 32 + |C|..o + 32 + |C| + |D|] == D &&
                w[o + 32 + |C| + |D|..] == rest
  {
    hide OfftOut;
    var w, o := before + h + C + D + rest, |before|;
    assert w[o..o + 32] == h;
    assert w[o..o + 8] == h[..8] && w[o + 8..o + 16] == h[8..16] && w[o + 16..o + 24] == h[16..24] &&
        w[o + 24..o + 32] == h[24..32];
  }

  lemma Streams(ctrl: seq<Byte>, diff: seq<Byte>, extra: seq<Byte>, compress: Compress, expand: Expand,
      after: seq<Byte>)
    requires Inverse2(compress, expand)
    ensures expand(compress(ctrl)) == ctrl && expand(compress(diff)) == diff && expand(compress(extra) + after) == extra
  {
    assert compress(ctrl) + [] == compress(ctrl) && compress(diff) + [] == compress(diff);
    assert expand(compress(ctrl) + []) == ctrl && expand(compress(diff) + []) == diff;
  }

  /** patch holds, compressed, the streams of such a series of cuts, with its header. */
  ghost predicate IsPatch(s: seq<Byte>, t: seq<Byte>, patch: seq<Byte>, compress: Compress)
  {
    exists I, cuts, ctrl, diff, extra, last, from ::
      && IsSuffixArray(s, I) && Traced(s, I, t, cuts, ctrl, diff, extra, |t|, last, from)
      && patch == Header(|compress(ctrl)|, |compress(diff)|, |t|) + compress(ctrl) + compress(diff) + compress(extra)
  }

  lemma PatchIs(s: seq<Byte>, I: seq<int>, t: seq<Byte>, cuts: seq<Cut>, ctrl: seq<Byte>, diff: seq<Byte>,
      extra: seq<Byte>, last: int, from: int, compress: Compress)
    requires IsSuffixArray(s, I) && Traced(s, I, t, cuts, ctrl, diff, extra, |t|, last, from)
    ensures IsPatch(s, t, Header(|compress(ctrl)|, |compress(diff)|, |t|) + compress(ctrl) + compress(diff) +
                          compress(extra), compress)
  {
    hide Traced, Header;
  }

  /** The patch of a file against itself stores nothing but zeros: one triple, no extra bytes. */
  lemma SamePatch(s: seq<Byte>, patch: seq<Byte>, compress: Compress)
    requires IsPatch(s, s, patch, compress)
    ensures exists ctrl, diff ::
      && |ctrl| == (if s == [] then 0 else 24) && |diff| == |s| && (forall i :: 0 <= i < |diff| ==> diff[i] == 0)
      && patch == Header(|compress(ctrl)|, |compress(diff)|, |s|) + compress(ctrl) + compress(diff) + compress([])
  {
    hide Traced, Header;
    var I, cuts, ctrl, diff, extra, last, from :|
      && IsSuffixArray(s, I) && Traced(s, I, s, cuts, ctrl, diff, extra, |s|, last, from)
      && patch == Header(|compress(ctrl)|, |compress(diff)|, |s|) + compress(ctrl) + compress(diff) + compress(extra);
    SameFile(s, I, cuts, ctrl, diff, extra, |s|, last, from);
    TracedEnds(s, I, s, cuts, ctrl, diff, extra, last, from);
  }

  /** There is no cut exactly if there is nothing to write. */
  lemma TracedEnds(s: seq<Byte>, I: seq<int>, t: seq<Byte>, cuts: seq<Cut>, ctrl: seq<Byte>, diff: seq<Byte>,
      extra: seq<Byte>, last: int, from: int)
    requires Traced(s, I, t, cuts, ctrl, diff, extra, |t|, last, from)
    ensures cuts == [] <==> t == []
    ensures cuts == [] ==> diff == []
  {
  }

  /**
   bsdiff (bsdiff.c:224-410): the patch written for any old and new file rebuilds the new file exactly,
   wherever in a larger blob it is put, provided its own size can be written as an off_t.  The caller
   may pass the suffix array of an earlier call; an empty one stands for the null pointer.
   */
  method BsDiff(s: seq<Byte>, cached: seq<int>, t: seq<Byte>, compress: Compress, ghost expand: Expand)
    returns (I: seq<int>, patch: seq<Byte>)
    requires |s| < TWO63 && |t| < TWO63 && (cached == [] || IsSuffixArray(s, cached)) && Inverse2(compress, expand)
    ensures IsSuffixArray(s, I) && IsPatch(s, t, patch, compress)
    ensures |patch| < TWO63 ==>
              forall before, after :: ApplyPatch(s, before + patch + after, |before|, expand) == Done(t, [], [], [])
  {
    hide *;
    if cached == [] {
      var I', V := new int[|s| + 1], new int[|s| + 1];
      BucketSort.QSufSort(I', V, s);
      I := I'[..];
    } else {
      I := cached;
    }
    var ctrl, diff, extra;
    ghost var cuts, last, from;
    ctrl, diff, extra, cuts, last, from := DiffStreams(I, s, t);
    var C, D := compress(ctrl), compress(diff);
    patch := Header(0, 0, |t|) + C;
    var len := |patch|;
    patch := patch + D;
    var end := |patch|;
    patch := patch + compress(extra);
    patch := Header(len - 32, end - len, |t|) + patch[32..];
    assert patch == Header(|C|, |D|, |t|) + C + D + compress(extra);
    PatchIs(s, I, t, cuts, ctrl, diff, extra, last, from, compress);
    if |patch| < TWO63 {
      forall before, after
        ensures ApplyPatch(s, before + patch + after, |before|, expand) == Done(t, [], [], [])
      {
        PatchApplies(s, t, ctrl, diff, extra, compress, expand, before, after);
      }
    }
  }
}
