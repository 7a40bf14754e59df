/** Looking up the next stretch of the new file in the sorted suffixes of the old one (bsdiff.c:159-193). */
module BsSearch {
  import opened Bytes
  import opened SuffixOrder

  /** The len bytes at t[q..] are those at s[p..]. */
  ghost predicate Match(s: seq<Byte>, p: int, t: seq<Byte>, q: int, len: int)
  {
    0 <= p <= p + len <= |s| && 0 <= q <= q + len <= |t| && s[p..p + len] == t[q..q + len]
  }

  /** A match that cannot be made longer where it stands. */
  ghost predicate Maximal(s: seq<Byte>, p: int, t: seq<Byte>, q: int, len: int)
  {
    Match(s, p, t, q, len) && (p + len == |s| || q + len == |t| || s[p + len] != t[q + len])
  }

  /** matchlen (bsdiff.c:159-167). */
  method MatchLen(s: seq<Byte>, p: nat, t: seq<Byte>, q: nat) returns (i: nat)
    requires p <= |s| && q <= |t|
    ensures Maximal(s, p, t, q, i)
  {
    i := 0;
    while p + i < |s| && q + i < |t|
      invariant Match(s, p, t, q, i)
    {
      if s[p + i] != t[q + i] { break; }
      assert s[p..p + i + 1] == s[p..p + i] + [s[p + i]] && t[q..q + i + 1] == t[q..q + i] + [t[q + i]];
      i := i + 1;
    }
  }

  lemma NoLonger(s: seq<Byte>, p: int, t: seq<Byte>, q: int, len: int)
    requires Maximal(s, p, t, q, len)
    ensures forall l :: Match(s, p, t, q, l) ==> l <= len
  {
    forall l | Match(s, p, t, q, l)
      ensures l <= len
    {
      MatchAt(s, p, t, q, l, len);
    }
  }

  lemma MatchAt(s: seq<Byte>, p: int, t: seq<Byte>, q: int, l: int, k: int)
    requires Match(s, p, t, q, l)
    ensures 0 <= k < l ==> s[p + k] == t[q + k]
  {
    if 0 <= k < l { assert s[p..p + l][k] == s[p + k] && t[q..q + l][k] == t[q + k]; }
  }

  /** memcmp of s[p..] and t[q..] over their common length is negative. */
  predicate MemLess(s: seq<Byte>, p: nat, t: seq<Byte>, q: nat)
    requires p <= |s| && q <= |t|
    decreases |s| - p
  {
    p < |s| && q < |t| && (s[p] < t[q] || (s[p] == t[q] && MemLess(s, p + 1, t, q + 1)))
  }

  /** Suffixes that start with b are neither before st nor after en, when st and en bracket the search. */
  lemma NotOutside(s: seq<Byte>, I: seq<int>, t: seq<Byte>, q: nat, st: nat, en: nat, k: nat)
    requires IsSuffixArray(s, I) && q < |t| && st <= en <= |s| && k <= |s| && (st < en || |s| == 0)
    requires st == 0 || MemLess(s, I[st], t, q)
    requires en == |s| || !MemLess(s, I[en], t, q)
    requires I[k] < |s| && s[I[k]] == t[q]
    ensures st <= k <= en || (I[st] < |s| && s[I[st]] == t[q]) || (I[en] < |s| && s[I[en]] == t[q])
  {
    if k < st { assert Less(s, I[k], I[st]); }
    if en < k { assert Less(s, I[en], I[k]) && Less(s, I[0], I[en]); }
  }

  /** Neighbours in the suffix array between which t[q..] belongs, as far as memcmp can tell. */
  ghost predicate Bracket(s: seq<Byte>, I: seq<int>, t: seq<Byte>, q: nat, lo: nat, hi: nat)
  {
    && q < |t| && lo <= hi <= |s| && hi - lo < 2 && (lo < hi || s == []) && IsSuffixArray(s, I)
    && (lo == 0 || MemLess(s, I[lo], t, q)) && (hi == |s| || !MemLess(s, I[hi], t, q))
  }

  /** The better of the matches at the two neighbours. */
  ghost predicate Found(s: seq<Byte>, I: seq<int>, t: seq<Byte>, q: nat, len: nat, pos: nat, lo: nat, hi: nat)
  {
    && Bracket(s, I, t, q, lo, hi) && (pos == I[lo] || pos == I[hi]) && Maximal(s, pos, t, q, len)
    && forall l :: Match(s, I[lo], t, q, l) || Match(s, I[hi], t, q, l) ==> l <= len
  }

  /** No place in s matches t[q..] for longer. */
  ghost predicate Longest(s: seq<Byte>, t: seq<Byte>, q: int, len: int)
  {
    forall p, l :: Match(s, p, t, q, l) ==> l <= len
  }

  /**
   search (bsdiff.c:169-193), by bisection, down to neighbours lo and hi that bracket t[q..] under memcmp.
   What it returns is the better of the two: a match that cannot be extended where it stands, empty
   only if the byte looked for occurs nowhere in s.  It is the longest of all unless the suffix at hi ends inside
   t[q..] without a difference, and always if the last byte of s occurs nowhere else in s.
   */
  method Search(I: seq<int>, s: seq<Byte>, t: seq<Byte>, q: nat, st: nat, en: nat)
    returns (len: nat, pos: nat, ghost lo: nat, ghost hi: nat)
    requires IsSuffixArray(s, I) && q < |t| && st <= en <= |s| && (st < en || |s| == 0)
    requires st == 0 || MemLess(s, I[st], t, q)
    requires en == |s| || !MemLess(s, I[en], t, q)
    ensures Found(s, I, t, q, len, pos, lo, hi) && st <= lo <= hi <= en
    ensures len == 0 ==> t[q] !in s
    ensures hi == |s| || !RunsOut(s, I[hi], t, q) || LastUnique(s) ==> Longest(s, t, q, len)
    decreases en - st
  {
    if en - st < 2 {
      var x := MatchLen(s, I[st], t, q);
      var y := MatchLen(s, I[en], t, q);
      if t[q] in s && x == 0 && y == 0 {
        Bracketed(s, I, t, q, st, en);
      }
      NoLonger(s, I[st], t, q, x);
      NoLonger(s, I[en], t, q, y);
      len, pos, lo, hi := y, I[en], st, en;
      if x > y {
        len, pos := x, I[st];
      }
      LongestIf(s, I, t, q, len, pos, lo, hi);
      return;
    }
    var x := st + (en - st) / 2;
    if MemLess(s, I[x], t, q) {
      len, pos, lo, hi := Search(I, s, t, q, x, en);
    } else {
      len, pos, lo, hi := Search(I, s, t, q, st, x);
    }
  }

  lemma Bracketed(s: seq<Byte>, I: seq<int>, t: seq<Byte>, q: nat, st: nat, en: nat)
    requires IsSuffixArray(s, I) && q < |t| && st <= en <= |s| && en - st < 2 && (st < en || |s| == 0)
    requires st == 0 || MemLess(s, I[st], t, q)
    requires en == |s| || !MemLess(s, I[en], t, q)
    requires t[q] in s
    ensures (I[st] < |s| && s[I[st]] == t[q]) || (I[en] < |s| && s[I[en]] == t[q])
  {
    Onto(I, |s|);
    var p :| 0 <= p < |s| && s[p] == t[q];
    assert p in I;
    var k :| 0 <= k <= |s| && I[k] == p;
    NotOutside(s, I, t, q, st, en, k);
  }

  // ---------------------------------------------------------------- when the match is the longest

  /** s[p..] ends inside t[q..] without a difference. */
  predicate RunsOut(s: seq<Byte>, p: nat, t: seq<Byte>, q: nat)
    requires p <= |s| && q <= |t|
    decreases |s| - p
  {
    q < |t| && (p == |s| || (s[p] == t[q] && RunsOut(s, p + 1, t, q + 1)))
  }

  /** The last byte of s, if there is one, occurs nowhere else in it. */
  predicate LastUnique(s: seq<Byte>)
  {
    forall i :: 0 <= i < |s| - 1 ==> s[i] != s[|s| - 1]
  }

  /** Below a suffix that is less than t[q..], nothing matches for longer than that suffix. */
  lemma {:induction false} Below(s: seq<Byte>, p: nat, p': nat, t: seq<Byte>, q: nat, l: nat)
    requires q <= |t| && Less(s, p, p') && MemLess(s, p', t, q) && Match(s, p, t, q, l)
    ensures Match(s, p', t, q, l)
    decreases l
  {
    if l > 0 {
      MatchTail(s, p, t, q, l);
      Below(s, p + 1, p' + 1, t, q + 1, l - 1);
      MatchCons(s, p', t, q, l);
    }
  }

  /** Above a suffix that is greater than t[q..] at a byte, or has all of it for a prefix, neither. */
  lemma {:induction false} Above(s: seq<Byte>, p: nat, p': nat, t: seq<Byte>, q: nat, l: nat)
    requires Less(s, p', p) && q <= |t| && !MemLess(s, p', t, q) && !RunsOut(s, p', t, q) && Match(s, p, t, q, l)
    ensures Match(s, p', t, q, l)
    decreases l
  {
    if l > 0 {
      MatchTail(s, p, t, q, l);
      Above(s, p + 1, p' + 1, t, q + 1, l - 1);
      MatchCons(s, p', t, q, l);
    }
  }

  lemma MatchTail(s: seq<Byte>, p: int, t: seq<Byte>, q: int, l: int)
    requires Match(s, p, t, q, l) && l > 0
    ensures s[p] == t[q] && Match(s, p + 1, t, q + 1, l - 1)
  {
    MatchAt(s, p, t, q, l, 0);
    assert s[p + 1..p + l] == s[p..p + l][1..] && t[q + 1..q + l] == t[q..q + l][1..];
  }

  lemma MatchCons(s: seq<Byte>, p: int, t: seq<Byte>, q: int, l: int)
    requires 0 <= p < |s| && 0 <= q < |t| && l > 0 && s[p] == t[q] && Match(s, p + 1, t, q + 1, l - 1)
    ensures Match(s, p, t, q, l)
  {
    assert s[p..p + l] == [s[p]] + s[p + 1..p + l] && t[q..q + l] == [t[q]] + t[q + 1..q + l];
  }

  lemma {:induction false} RunsOutMatch(s: seq<Byte>, p: nat, t: seq<Byte>, q: nat)
    requires p <= |s| && q <= |t| && RunsOut(s, p, t, q)
    ensures Match(s, p, t, q, |s| - p)
    decreases |s| - p
  {
    if p < |s| {
      RunsOutMatch(s, p + 1, t, q + 1);
      MatchCons(s, p, t, q, |s| - p);
    }
  }

  /** The empty suffix comes first. */
  lemma FirstIsEmpty(s: seq<Byte>, I: seq<int>)
    requires IsSuffixArray(s, I)
    ensures I[0] == |s| && forall k :: 0 < k <= |s| ==> I[k] < |s|
  {
    assert forall k :: 0 < k <= |s| ==> Less(s, I[0], I[k]);
    Onto(I, |s|);
    assert |s| in I;
  }

  lemma LongestIf(s: seq<Byte>, I: seq<int>, t: seq<Byte>, q: nat, len: nat, pos: nat, lo: nat, hi: nat)
    requires Found(s, I, t, q, len, pos, lo, hi)
    ensures hi == |s| || !RunsOut(s, I[hi], t, q) || LastUnique(s) ==> Longest(s, t, q, len)
  {
    FirstIsEmpty(s, I);
    Onto(I, |s|);
    forall p, l | Match(s, p, t, q, l)
      ensures hi == |s| || !RunsOut(s, I[hi], t, q) || LastUnique(s) ==> l <= len
    {
      assert p in I;
      var k :| 0 <= k <= |s| && I[k] == p;
      if k < lo {
        Below(s, p, I[lo], t, q, l);
      } else if k > hi && !RunsOut(s, I[hi], t, q) {
        Above(s, p, I[hi], t, q, l);
      } else if k > hi && LastUnique(s) {
        EndsThere(s, I[hi], p, t, q, l);
      }
    }
  }

  /** If the last byte of s is unique, no match is longer than that of a suffix that runs out. */
  lemma EndsThere(s: seq<Byte>, p': nat, p: nat, t: seq<Byte>, q: nat, l: nat)
    requires p' < |s| && q <= |t| && RunsOut(s, p', t, q) && LastUnique(s) && Match(s, p, t, q, l)
    ensures Match(s, p', t, q, |s| - p') && l <= |s| - p'
  {
    var m := |s| - p';
    RunsOutMatch(s, p', t, q);
    MatchAt(s, p', t, q, m, m - 1);
    MatchAt(s, p, t, q, l, m - 1);
  }

  /**
   Exactly when search can be relied on: it finds a longest match for every new file if and only if the last byte of the
   old file occurs nowhere else in it.  If it does occur elsewhere, there are two bytes for which search misses the
   longest match whatever bracket its bisection ends with.
   */
  lemma LongestExactly(s: seq<Byte>, I: seq<int>)
    requires IsSuffixArray(s, I)
    ensures LastUnique(s) ==>
            forall t, q: nat, len: nat, pos: nat, lo: nat, hi: nat :: Found(s, I, t, q, len, pos, lo, hi) ==>
                Longest(s, t, q, len)
    ensures !LastUnique(s) ==> exists t :: |t| == 2 && AlwaysMissed(s, I, t)
  {
    if LastUnique(s) {
      forall t, q: nat, len: nat, pos: nat, lo: nat, hi: nat | Found(s, I, t, q, len, pos, lo, hi)
        ensures Longest(s, t, q, len)
      {
        LongestIf(s, I, t, q, len, pos, lo, hi);
      }
    } else {
      var i :| 0 <= i < |s| - 1 && s[i] == s[|s| - 1];
      var k := Missed(s, I, i);
    }
  }

  /** t is in s, and whatever search returns for it is not the longest match. */
  ghost predicate AlwaysMissed(s: seq<Byte>, I: seq<int>, t: seq<Byte>)
  {
    && (exists p :: Match(s, p, t, 0, |t|))
    && (forall len: nat, pos: nat, lo: nat, hi: nat :: Found(s, I, t, 0, len, pos, lo, hi) ==>
        len < |t| && !Longest(s, t, 0, len))
  }

  /**
   With its last byte also at i, the old file makes search miss the first two bytes of the suffix after the last one.
   */
  lemma Missed(s: seq<Byte>, I: seq<int>, i: nat) returns (k: nat)
    requires IsSuffixArray(s, I) && i < |s| - 1 && s[i] == s[|s| - 1]
    ensures 0 < k < |s| && I[k] == |s| - 1 && I[k + 1] < |s| - 1
    ensures AlwaysMissed(s, I, s[I[k + 1]..I[k + 1] + 2])
  {
    FirstIsEmpty(s, I);
    Onto(I, |s|);
    assert |s| - 1 in I && i in I;
    k :| 0 <= k <= |s| && I[k] == |s| - 1;
    var j :| 0 <= j <= |s| && I[j] == i;
    LastComesFirst(s, i);
    assert k < j by { if j < k { assert Less(s, i, |s| - 1); LessIrreflexive(s, i); NotBoth(s, i, |s| - 1); } }
    NextAfterLast(s, I, k, j);
    var p := I[k + 1];
    var t := s[p..p + 2];
    assert Match(s, p, t, 0, 2);
    forall len: nat, pos: nat, lo: nat, hi: nat | Found(s, I, t, 0, len, pos, lo, hi)
      ensures len < 2 && !Longest(s, t, 0, len)
    {
      OneBracket(s, I, k, t, len, pos, lo, hi);
    }
  }

  /** Of all suffixes that start with the last byte the last one is the least. */
  lemma LastComesFirst(s: seq<Byte>, i: nat)
    requires i < |s| - 1 && s[i] == s[|s| - 1]
    ensures Less(s, |s| - 1, i)
  {
    assert Less(s, |s|, i + 1);
  }

  lemma {:induction false} NotBoth(s: seq<Byte>, p: nat, q: nat)
    requires p <= |s| && q <= |s|
    ensures !(Less(s, p, q) && Less(s, q, p))
    decreases |s| - p
  {
    if p < |s| && q < |s| { NotBoth(s, p + 1, q + 1); }
  }

  /** The suffix after the last byte's starts with that byte too, and none that does has a smaller second byte. */
  lemma NextAfterLast(s: seq<Byte>, I: seq<int>, k: nat, j: nat)
    requires IsSuffixArray(s, I) && k < j <= |s| && I[k] == |s| - 1 && I[j] < |s| - 1 && s[I[j]] == s[|s| - 1]
    ensures I[k + 1] < |s| - 1 && s[I[k + 1]] == s[|s| - 1]
    ensures forall m :: 0 <= m <= |s| && I[m] < |s| - 1 && s[I[m]] == s[|s| - 1] ==> s[I[k + 1] + 1] <= s[I[m] + 1]
    ensures forall m :: 0 < m < k ==> I[m] < |s| && s[I[m]] < s[|s| - 1]
    ensures forall m :: k <= m <= |s| ==> I[m] < |s| && s[I[m]] >= s[|s| - 1]
  {
    FirstIsEmpty(s, I);
    var b, p := s[|s| - 1], I[k + 1];
    assert Less(s, |s| - 1, p) && (k + 1 < j ==> Less(s, p, I[j]));
    forall m | 0 < m < k
      ensures I[m] < |s| && s[I[m]] < b
    {
      assert Less(s, I[m], |s| - 1) && !Less(s, I[m] + 1, |s|);
    }
    forall m | k <= m <= |s|
      ensures I[m] < |s| && s[I[m]] >= b
    {
      assert k < m ==> Less(s, |s| - 1, I[m]);
    }
    forall m | 0 <= m <= |s| && I[m] < |s| - 1 && s[I[m]] == b
      ensures s[p + 1] <= s[I[m] + 1]
    {
      assert m > k;
      if m > k + 1 { assert Less(s, p, I[m]) && Less(s, p + 1, I[m] + 1); }
    }
  }

  /** For those two bytes every bracket ends on the last suffix, which has only the first of them. */
  lemma OneBracket(s: seq<Byte>, I: seq<int>, k: nat, t: seq<Byte>, len: nat, pos: nat, lo: nat, hi: nat)
    requires IsSuffixArray(s, I) && 0 < k < |s| && I[k] == |s| - 1 && I[k + 1] < |s| - 1 &&
             t == s[I[k + 1]..I[k + 1] + 2]
    requires s[I[k + 1]] == s[|s| - 1]
    requires forall m :: 0 <= m <= |s| && I[m] < |s| - 1 && s[I[m]] == s[|s| - 1] ==> s[I[k + 1] + 1] <= s[I[m] + 1]
    requires forall m :: 0 < m < k ==> I[m] < |s| && s[I[m]] < s[|s| - 1]
    requires forall m :: k <= m <= |s| ==> I[m] < |s| && s[I[m]] >= s[|s| - 1]
    requires Found(s, I, t, 0, len, pos, lo, hi)
    ensures len == 1 && pos == |s| - 1 && !Longest(s, t, 0, len)
  {
    FirstIsEmpty(s, I);
    assert forall m :: 0 < m < k ==> MemLess(s, I[m], t, 0);
    forall m | k <= m <= |s|
      ensures !MemLess(s, I[m], t, 0)
    {
      assert I[m] == |s| - 1 ==> !MemLess(s, I[m] + 1, t, 1);
      assert I[m] < |s| - 1 && s[I[m]] == t[0] ==> s[I[m] + 1] >= t[1] && !MemLess(s, I[m] + 2, t, 2);
    }
    assert lo == k - 1 && hi == k;
    if len > 0 { MatchAt(s, pos, t, 0, len, 0); }
    assert s[|s| - 1..|s|] == [s[|s| - 1]] == t[0..1];
    assert Match(s, I[hi], t, 0, 1);
    assert Match(s, I[k + 1], t, 0, 2);
  }

  /** With old and new both "aa" search finds a match of length 1 (bsdiff.c:188). */
  lemma MissesAtAa(len: nat, pos: nat, lo: nat, hi: nat)
    ensures IsSuffixArray([97, 97], [2, 1, 0])
    ensures Found([97, 97], [2, 1, 0], [97, 97], 0, len, pos, lo, hi) ==>
              len == 1 && pos == 1 && !Longest([97, 97], [97, 97], 0, len)
  {
    var s, I := [97, 97], [2, 1, 0];
    AaSorted();
    if Found(s, I, s, 0, len, pos, lo, hi) {
      assert s[0..2] == s;
      hide Found, IsSuffixArray, Longest;
      OneBracket(s, I, 1, s, len, pos, lo, hi);
    }
  }

  lemma AaSorted()
    ensures IsSuffixArray([97, 97], [2, 1, 0])
  {
    var s, I := [97, 97], [2, 1, 0];
    assert Less(s, 2, 1) && Less(s, 2, 0) && Less(s, 1, 0);
  }
}
