/**
 The in-place suffix sorter of bsdiff.c (split and qsufsort).

 V[x] is the rank of position x: the last index of the group x currently belongs
 to.  I lists the positions group by group, but an index whose group is down to
 one position loses its entry: it holds minus the length of a run of such indices.
 The ghost sequence P is I with the lost entries filled in.
 */
module SuffixSort {
  import opened Bytes
  import opened SuffixOrder
  import opened Tricolour

  // ---------------------------------------------------------------- what the ranks mean

  /** A smaller rank is a smaller suffix. */
  ghost predicate Sound(s: seq<Byte>, V: seq<int>)
  {
    && |V| == |s| + 1
    && (forall x :: 0 <= x <= |s| ==> 0 <= V[x] <= |s|)
    && (forall x, y :: 0 <= x <= |s| && 0 <= y <= |s| && V[x] < V[y] ==> Less(s, x, y))
  }

  /** Positions of equal rank between lo and hi agree on h bytes. */
  ghost predicate Refined(s: seq<Byte>, V: seq<int>, lo: int, hi: int, h: int)
  {
    && |V| == |s| + 1
    && forall x, y :: 0 <= x <= |s| && 0 <= y <= |s| && lo <= V[x] == V[y] < hi ==> Agree(s, x, y, h)
  }

  /** Indices lo..hi fall into groups, each carrying its last index as rank. */
  ghost predicate Blocks(V: seq<int>, P: seq<int>, lo: int, hi: int)
  {
    && |V| == |P| && Perm(P, |P| - 1) && 0 <= lo <= hi <= |P|
    && (forall m :: lo <= m < hi ==> m <= V[P[m]] < hi)
    && (forall m, m' :: lo <= m <= m' < hi && m' <= V[P[m]] ==> V[P[m']] == V[P[m]])
  }

  /** Indices k..r are one group that nothing outside it shares a rank with. */
  ghost predicate Group(V: seq<int>, P: seq<int>, k: int, r: int)
  {
    && |V| == |P| && Perm(P, |P| - 1) && 0 <= k <= r + 1 <= |P|
    && (forall m :: k <= m <= r ==> V[P[m]] == r)
    && (forall m :: 0 <= m < k ==> V[P[m]] < k)
    && (forall m :: r < m < |P| ==> V[P[m]] > r)
  }

  /** P' differs from P only at indices lo..hi, where it draws from the positions S. */
  ghost predicate Rearranged(P: seq<int>, P': seq<int>, lo: int, hi: int, S: set<int>)
  {
    && |P'| == |P| && 0 <= lo <= hi <= |P| && multiset(P') == multiset(P)
    && (forall m :: 0 <= m < |P| && !(lo <= m < hi) ==> P'[m] == P[m])
    && (forall m :: lo <= m < hi ==> P'[m] in S)
  }

  /** The first j indices of k..r agree on 2h bytes and come before the rest. */
  ghost predicate Front(s: seq<Byte>, h: int, P: seq<int>, k: int, j: int, r: int)
  {
    && 0 <= k <= k + j <= r + 1 <= |P|
    && (forall m, m' :: k <= m < k + j <= m' <= r ==> Less(s, P[m], P[m']))
    && (forall m, m' :: k <= m < k + j && k <= m' < k + j ==> Agree(s, P[m], P[m'], 2 * h))
  }

  /** Index m is a group by itself. */
  ghost predicate Single(V: seq<int>, P: seq<int>, m: int)
  {
    && |V| == |P| && Perm(P, |P| - 1) && 0 <= m < |P|
    && V[P[m]] == m && (m == 0 || V[P[m - 1]] != m)
  }

  /**
   A negative entry of I starts a run of single-position groups; another entry is P's, its key h further on in reach.
   */
  ghost predicate Coded(I: seq<int>, V: seq<int>, P: seq<int>, lo: int, hi: int, h: int)
  {
    && |I| == |V| == |P| && Perm(P, |P| - 1) && 0 <= lo <= hi <= |P|
    && (forall m :: lo <= m < hi && I[m] < 0 ==> m - I[m] <= hi)
    && (forall m, m' :: lo <= m <= m' < hi && m' < m - I[m] ==> Single(V, P, m') && I[m'] < 0 && m' - I[m'] <= m - I[m])
    && (forall m :: lo <= m < hi && I[m] >= 0 ==> I[m] == P[m] && P[m] + h < |P|)
  }

  /** Every index in lo..hi comes before every index in hi..r. */
  ghost predicate Ahead(s: seq<Byte>, P: seq<int>, lo: int, hi: int, r: int)
  {
    && 0 <= lo <= hi <= r + 1 <= |P|
    && forall m, m' :: lo <= m < hi <= m' <= r ==> Less(s, P[m], P[m'])
  }

  // ---------------------------------------------------------------- order lemmas

  /** Two positions of equal rank are told apart by the ranks h bytes further on. */
  lemma KeyOrder(s: seq<Byte>, V: seq<int>, h: nat, p: int, q: int)
    requires Sound(s, V) && Refined(s, V, 0, |V|, h)
    requires 0 <= p <= p + h <= |s| && 0 <= q <= q + h <= |s| && p != q && V[p] == V[q]
    ensures V[p + h] < V[q + h] ==> Less(s, p, q)
    ensures V[p + h] == V[q + h] ==> Agree(s, p, q, 2 * h)
  {
    if V[p + h] < V[q + h] {
      AgreeThenLess(s, p, q, h);
    } else if V[p + h] == V[q + h] {
      AgreeCompose(s, p, q, h, h);
    }
  }

  /** Giving the first j indices of group k..r a rank of their own keeps the ranks sound. */
  lemma CutKeepsOrder(s: seq<Byte>, h: nat, V: seq<int>, V': seq<int>, P: seq<int>, k: nat, j: nat, r: int)
    requires |V'| == |V| == |s| + 1 == |P| && Perm(P, |s|) && 0 < j && k + j <= r + 1 <= |P|
    requires Group(V, P, k, r) && Sound(s, V) && Refined(s, V, 0, |V|, h)
    requires forall m :: k <= m < k + j ==> V'[P[m]] == k + j - 1
    requires forall m :: 0 <= m < |P| && !(k <= m < k + j) ==> V'[P[m]] == V[P[m]]
    requires Front(s, h, P, k, j, r)
    ensures Sound(s, V') && Refined(s, V', 0, |V|, h) && Refined(s, V', k, k + j, 2 * h)
    ensures Group(V', P, k + j, r)
  {
    var Q := Inverse(P, |s|);
    forall x, y | 0 <= x <= |s| && 0 <= y <= |s|
      ensures 0 <= V'[x] <= |s|
      ensures V'[x] < V'[y] ==> Less(s, x, y)
      ensures 0 <= V'[x] == V'[y] < |V| ==> Agree(s, x, y, h)
      ensures k <= V'[x] == V'[y] < k + j ==> Agree(s, x, y, 2 * h)
    {
      var a, b := Q[x], Q[y];
      assert P[a] == x && P[b] == y;
    }
  }

  // ---------------------------------------------------------------- split

  /** What split may assume and must keep, whatever part of a group it works on. */
  ghost predicate Ready(s: seq<Byte>, h: int, V: seq<int>, P: seq<int>)
  {
    h > 0 && |V| == |P| == |s| + 1 && Perm(P, |s|) && Sound(s, V) && Refined(s, V, 0, |V|, h)
  }

  /** Gives the positions listed at k..k+j the rank k + j - 1. */
  method Rank(I: array<int>, V: array<int>, k: nat, j: nat, ghost P: seq<int>)
    requires I != V && I.Length == V.Length == |P| && Perm(P, |P| - 1) && k + j <= |P|
    requires forall m :: k <= m < k + j ==> I[m] == P[m]
    modifies V
    ensures forall m :: k <= m < k + j ==> V[P[m]] == k + j - 1
    ensures forall m :: 0 <= m < |P| && !(k <= m < k + j) ==> V[P[m]] == old(V[P[m]])
  {
    var i := 0;
    while i < j
      invariant 0 <= i <= j
      invariant forall m :: k <= m < k + i ==> V[P[m]] == k + j - 1
      invariant forall m :: 0 <= m < |P| && !(k <= m < k + i) ==> V[P[m]] == old(V[P[m]])
    {
      V[I[k + i]] := k + j - 1;
      i := i + 1;
    }
  }

  /** Ranks the finished front k..k+j of the group k..r (bsdiff.c:77-78 and 115-116). */
  method Cut(I: array<int>, V: array<int>, k: nat, j: nat, ghost r: int,
             ghost s: seq<Byte>, ghost h: nat, ghost P: seq<int>)
    requires I != V && I.Length == V.Length == |s| + 1
    requires Ready(s, h, V[..], P)
    requires 0 < j && k + j <= r + 1 <= |P|
    requires Group(V[..], P, k, r) && Front(s, h, P, k, j, r)
    requires forall m :: k <= m < k + j ==> I[m] == P[m]
    modifies I, V
    ensures Ready(s, h, V[..], P) && Group(V[..], P, k + j, r) && Refined(s, V[..], k, k + j, 2 * h)
    ensures forall m :: 0 <= m < |P| && !(k <= m < k + j) ==> V[P[m]] == old(V[P[m]])
    ensures forall m :: 0 <= m < |P| && !(k <= m < k + j) ==> I[m] == old(I[m])
    ensures Blocks(V[..], P, k, k + j) && Coded(I[..], V[..], P, k, k + j, 2 * h)
  {
    hide Front, Blocks, Coded, Sound, Refined;
    ghost var V0 := V[..];
    Rank(I, V, k, j, P);
    CutKeepsOrder(s, h, V0, V[..], P, k, j, r);
    if j == 1 {
      I[k] := -1;
    }
    CutCodes(s, h, I[..], V[..], P, k, j, r);
  }

  lemma CutCodes(s: seq<Byte>, h: nat, I: seq<int>, V: seq<int>, P: seq<int>, k: nat, j: nat, r: int)
    requires |I| == |V| == |P| == |s| + 1 && Perm(P, |s|) && 0 < j && k + j <= r + 1 <= |P| && Front(s, h, P, k, j, r)
    requires Group(V, P, k + j, r)
    requires forall m :: 0 <= m < k ==> V[P[m]] < k
    requires forall m :: k <= m < k + j ==> V[P[m]] == k + j - 1
    requires if j == 1 then I[k] == -1 else forall m :: k <= m < k + j ==> I[m] == P[m]
    ensures Blocks(V, P, k, k + j) && Coded(I, V, P, k, k + j, 2 * h)
  {
    if j > 1 { PairInReach(s, h, P, k, j, r); }
    hide Front;
  }

  lemma PairInReach(s: seq<Byte>, h: nat, P: seq<int>, k: nat, j: nat, r: int)
    requires Perm(P, |s|) && 1 < j && k + j <= r + 1 <= |P| && Front(s, h, P, k, j, r)
    ensures forall m :: k <= m < k + j ==> P[m] + 2 * h < |P|
  {
    forall m | k <= m < k + j
      ensures P[m] + 2 * h < |P|
    {
      var m' := if m == k then k + 1 else k;
      assert Agree(s, P[m], P[m'], 2 * h) && P[m] != P[m'];
    }
  }

  ghost function Swapped(P: seq<int>, a: int, b: int): (r: seq<int>)
    requires 0 <= a < |P| && 0 <= b < |P|
  {
    P[a := P[b]][b := P[a]]
  }

  lemma SwapRearranges(P0: seq<int>, P: seq<int>, a: int, b: int, lo: int, hi: int, S: set<int>)
    requires Rearranged(P0, P, lo, hi, S) && lo <= a < hi && lo <= b < hi
    ensures Rearranged(P0, Swapped(P, a, b), lo, hi, S)
  {
  }

  lemma RearrangedPerm(P: seq<int>, P': seq<int>, n: int)
    requires Perm(P, n) && |P'| == |P| && multiset(P') == multiset(P)
    ensures Perm(P', n)
  {
    forall k | 0 <= k <= n
      ensures 0 <= P'[k] <= n
    {
      assert P'[k] in multiset(P);
    }
    forall j, k | 0 <= j < k <= n
      ensures P'[j] != P'[k]
    {
      if P'[j] == P'[k] {
        OccursTwice(P', j, k);
        OccursOnce(P, P'[j]);
      }
    }
  }

  lemma OccursTwice(P: seq<int>, j: nat, k: nat)
    requires j < k < |P| && P[j] == P[k]
    ensures multiset(P)[P[j]] >= 2
  {
    assert P == P[..k] + P[k..];
    assert P[j] in P[..k] && P[k] in P[k..];
  }

  lemma {:induction false} OccursOnce(P: seq<int>, x: int)
    requires forall j, k :: 0 <= j < k < |P| ==> P[j] != P[k]
    ensures multiset(P)[x] <= 1
  {
    if P != [] {
      OccursOnce(P[1..], x);
      assert P == [P[0]] + P[1..];
      assert P[0] !in P[1..];
    }
  }

  /** The part lo..hi of I still to be ordered: entries present, keys within reach. */
  ghost predicate Listed(I: seq<int>, P: seq<int>, lo: int, hi: int, h: int)
  {
    && |I| == |P| && 0 <= lo <= hi <= |P|
    && forall m :: lo <= m < hi ==> I[m] == P[m] && 0 <= P[m] + h < |P|
  }

  /** The three-assignment swap of split. */
  method Exchange(I: array<int>, a: nat, b: nat, ghost P0: seq<int>, ghost P: seq<int>,
                  ghost lo: int, ghost hi: int, ghost h: int, ghost S: set<int>)
    returns (ghost P': seq<int>)
    requires I.Length == |P| && Rearranged(P0, P, lo, hi, S) && lo <= a < hi && lo <= b < hi
    requires Listed(I[..], P, lo, hi, h)
    modifies I
    ensures P' == Swapped(P, a, b) && Rearranged(P0, P', lo, hi, S)
    ensures Listed(I[..], P', lo, hi, h)
    ensures forall m :: 0 <= m < |P| && !(lo <= m < hi) ==> I[m] == old(I[m])
  {
    var tmp := I[a];
    I[a] := I[b];
    I[b] := tmp;
    P' := Swapped(P, a, b);
    SwapRearranges(P0, P, a, b, lo, hi, S);
  }

  /** Moves the positions of least key to the front of k..hi (bsdiff.c:66-76); j is how many there are. */
  method GatherLeast(I: array<int>, V: array<int>, k: nat, hi: nat, h: nat, ghost P: seq<int>, ghost S: set<int>)
    returns (j: nat, ghost P': seq<int>)
    requires I != V && I.Length == V.Length == |P| && k < hi <= |P|
    requires Listed(I[..], P, k, hi, h) && Rearranged(P, P, k, hi, S)
    modifies I
    ensures 0 < j <= hi - k && Rearranged(P, P', k, hi, S)
    ensures Listed(I[..], P', k, hi, h)
    ensures forall m :: 0 <= m < |P| && !(k <= m < hi) ==> I[m] == old(I[m])
    ensures forall m :: k <= m < k + j ==> V[P'[m] + h] == V[P'[k] + h]
    ensures forall m :: k + j <= m < hi ==> V[P'[m] + h] > V[P'[k] + h]
  {
    P' := P;
    j := 1;
    var x := V[I[k] + h];
    var i := 1;
    while k + i < hi
      invariant 1 <= i <= hi - k && 0 < j <= i && Rearranged(P, P', k, hi, S)
      invariant Listed(I[..], P', k, hi, h)
      invariant forall m :: 0 <= m < |P| && !(k <= m < hi) ==> I[m] == old(I[m])
      invariant forall m :: k <= m < k + j ==> V[P'[m] + h] == x
      invariant forall m :: k + j <= m < k + i ==> V[P'[m] + h] > x
    {
      if V[I[k + i] + h] < x {
        x := V[I[k + i] + h];
        j := 0;
      }
      if V[I[k + i] + h] == x {
        P' := Exchange(I, k + j, k + i, P, P', k, hi, h, S);
        j := j + 1;
      }
      i := i + 1;
    }
  }

  /** The positions listed at lo..hi. */
  ghost function Span(P: seq<int>, lo: nat, hi: nat): (S: set<int>)
    requires lo <= hi <= |P|
    ensures forall m :: lo <= m < hi ==> P[m] in S
  {
    if lo == hi then {} else Span(P, lo, hi - 1) + {P[hi - 1]}
  }

  lemma {:induction false} SpanOnly(P: seq<int>, lo: nat, hi: nat)
    requires lo <= hi <= |P|
    ensures forall x :: x in Span(P, lo, hi) ==> exists m :: lo <= m < hi && P[m] == x
    decreases hi - lo
  {
    if lo < hi { SpanOnly(P, lo, hi - 1); }
  }

  /** Rearranging part of a group leaves it that group, still ahead of what it was ahead of. */
  lemma RearrangedGroup(s: seq<Byte>, V: seq<int>, P: seq<int>, P': seq<int>, k: nat, lo: nat, hi: nat, r: int)
    requires |V| == |P| == |s| + 1 && Perm(P, |s|) && k <= lo <= hi <= r + 1 <= |P|
    requires Group(V, P, k, r) && Ahead(s, P, lo, hi, r)
    requires Rearranged(P, P', lo, hi, Span(P, lo, hi))
    ensures Perm(P', |s|) && Group(V, P', k, r) && Ahead(s, P', lo, hi, r)
    ensures forall m :: 0 <= m < |P| ==> V[P'[m]] == V[P[m]]
  {
    RearrangedPerm(P, P', |s|);
    SpanOnly(P, lo, hi);
  }

  /** The least keys of a group make a front. */
  lemma LeastIsFront(s: seq<Byte>, h: nat, V: seq<int>, P: seq<int>, k: nat, j: nat, hi: nat, r: int)
    requires Ready(s, h, V, P) && 0 < j && k + j <= hi <= r + 1 <= |P|
    requires Group(V, P, k, r) && Ahead(s, P, k, hi, r)
    requires forall m :: k <= m < hi ==> P[m] + h < |P|
    requires forall m :: k <= m < k + j ==> V[P[m] + h] == V[P[k] + h]
    requires forall m :: k + j <= m < hi ==> V[P[m] + h] > V[P[k] + h]
    ensures Front(s, h, P, k, j, r)
  {
    hide Ready;
    forall m, m' | k <= m < k + j && k <= m' <= r
      ensures m' < k + j ==> Agree(s, P[m], P[m'], 2 * h)
      ensures k + j <= m' ==> Less(s, P[m], P[m'])
    {
      LeastPair(s, h, V, P, k, j, hi, r, m, m');
    }
    hide *;
    assert Front(s, h, P, k, j, r) by { FrontIs(s, h, P, k, j, r); }
  }

  lemma FrontIs(s: seq<Byte>, h: nat, P: seq<int>, k: nat, j: nat, r: int)
    requires k + j <= r + 1 <= |P|
    requires forall m, m' :: k <= m < k + j && k <= m' <= r ==>
              (m' < k + j ==> Agree(s, P[m], P[m'], 2 * h)) && (k + j <= m' ==> Less(s, P[m], P[m']))
    ensures Front(s, h, P, k, j, r)
  {
    hide Agree, Less;
  }

  lemma LeastPair(s: seq<Byte>, h: nat, V: seq<int>, P: seq<int>, k: nat, j: nat, hi: nat, r: int, m: nat, m': nat)
    requires Ready(s, h, V, P) && 0 < j && k + j <= hi <= r + 1 <= |P|
    requires Group(V, P, k, r) && Ahead(s, P, k, hi, r)
    requires forall m :: k <= m < hi ==> P[m] + h < |P|
    requires forall m :: k <= m < k + j ==> V[P[m] + h] == V[P[k] + h]
    requires forall m :: k + j <= m < hi ==> V[P[m] + h] > V[P[k] + h]
    requires k <= m < k + j && k <= m' <= r
    ensures m' < k + j ==> Agree(s, P[m], P[m'], 2 * h)
    ensures k + j <= m' ==> Less(s, P[m], P[m'])
  {
    assert Agree(s, P[m], P[m], 2 * h);
    hide Agree, Less, Sound, Refined;
    if m' < hi && m != m' { KeyOrder(s, V, h, P[m], P[m']); }
  }

  /** What split is given: indices lo..hi of the group lo..r, ahead of the rest of it. */
  ghost predicate SplitPre(s: seq<Byte>, h: int, I: seq<int>, V: seq<int>, P: seq<int>, lo: int, hi: int, r: int)
  {
    && Ready(s, h, V, P) && |I| == |V| && 0 <= lo <= hi <= r + 1 <= |P|
    && Group(V, P, lo, r) && Ahead(s, P, lo, hi, r) && Listed(I, P, lo, hi, h)
  }

  /** What split leaves: the indices lo..hi ranked by 2h bytes and taken out of the group that ends at r. */
  ghost predicate SplitPost(s: seq<Byte>, h: int, I: seq<int>, V: seq<int>, P: seq<int>, lo: int, hi: int, r: int)
  {
    && Ready(s, h, V, P) && |I| == |V| && 0 <= lo <= hi <= r + 1 <= |P|
    && Group(V, P, hi, r) && Refined(s, V, lo, hi, 2 * h)
    && Blocks(V, P, lo, hi) && Coded(I, V, P, lo, hi, 2 * h)
  }

  /** Nothing but the indices lo..hi was touched. */
  ghost predicate Elsewhere(I: seq<int>, V: seq<int>, P: seq<int>, I': seq<int>, V': seq<int>, P': seq<int>, lo: int,
      hi: int)
  {
    && |I| == |V| == |P| == |I'| == |V'| == |P'| && Perm(P, |P| - 1) && Perm(P', |P| - 1)
    && (forall m :: 0 <= m < |P| && !(lo <= m < hi) ==> P'[m] == P[m] && I'[m] == I[m])
    && (forall m :: 0 <= m < |P| && !(lo <= m < hi) ==> V'[P[m]] == V[P[m]])
  }

  /** One round of the selection loop: rank the least keys among k..hi. */
  method SelectLeast(I: array<int>, V: array<int>, k: nat, hi: nat, h: nat,
                     ghost r: int, ghost s: seq<Byte>, ghost P: seq<int>)
    returns (j: nat, ghost P': seq<int>)
    requires I != V && SplitPre(s, h, I[..], V[..], P, k, hi, r) && k < hi
    modifies I, V
    ensures 0 < j <= hi - k && SplitPost(s, h, I[..], V[..], P', k, k + j, r) &&
            SplitPre(s, h, I[..], V[..], P', k + j, hi, r)
    ensures Elsewhere(old(I[..]), old(V[..]), P, I[..], V[..], P', k, hi)
  {
    ghost var I0, V0 := I[..], V[..];
    j, P' := GatherLeast(I, V, k, hi, h, P, Span(P, k, hi));
    RearrangedGroup(s, V0, P, P', k, k, hi, r);
    GatheredElsewhere(I0, I[..], V0, P, P', k, hi, Span(P, k, hi));
    LeastReady(s, h, V0, P, P', k, j, hi, r);
    hide *;
    ghost var I1 := I[..];
    RankFront(I, V, k, j, hi, r, s, h, P');
    ElsewhereTwice(I0, V0, P, I1, V0, P', I[..], V[..], P', k, hi, k, k + j);
  }

  lemma GatheredElsewhere(I: seq<int>, I': seq<int>, V: seq<int>, P: seq<int>, P': seq<int>, k: int, hi: int,
      S: set<int>)
    requires |I| == |V| == |P| == |I'| == |P'| && Perm(P, |P| - 1) && Perm(P', |P| - 1)
    requires Rearranged(P, P', k, hi, S) && forall m :: 0 <= m < |P| && !(k <= m < hi) ==> I'[m] == I[m]
    ensures Elsewhere(I, V, P, I', V, P', k, hi)
  {
  }

  lemma LeastReady(s: seq<Byte>, h: nat, V: seq<int>, P: seq<int>, P': seq<int>, k: nat, j: nat, hi: nat, r: int)
    requires Ready(s, h, V, P) && Perm(P', |s|) && 0 < j && k + j <= hi <= r + 1 <= |P| == |P'|
    requires Group(V, P', k, r) && Ahead(s, P', k, hi, r)
    requires forall m :: k <= m < hi ==> P'[m] + h < |P|
    requires forall m :: k <= m < k + j ==> V[P'[m] + h] == V[P'[k] + h]
    requires forall m :: k + j <= m < hi ==> V[P'[m] + h] > V[P'[k] + h]
    ensures Ready(s, h, V, P') && Front(s, h, P', k, j, r) && Ahead(s, P', k + j, hi, r)
  {
    hide Sound, Refined;
    LeastIsFront(s, h, V, P', k, j, hi, r);
  }

  /** Ranks a finished front; what follows it is then ready to be split. */
  method RankFront(I: array<int>, V: array<int>, k: nat, j: nat, ghost hi: nat, ghost r: int,
                   ghost s: seq<Byte>, ghost h: nat, ghost P: seq<int>)
    requires I != V && I.Length == V.Length == |P| == |s| + 1 && Ready(s, h, V[..], P) && 0 < j &&
             k + j <= hi <= r + 1 <= |P|
    requires Group(V[..], P, k, r) && Front(s, h, P, k, j, r) && Ahead(s, P, k + j, hi, r) && Listed(I[..], P, k, hi, h)
    modifies I, V
    ensures SplitPost(s, h, I[..], V[..], P, k, k + j, r) && SplitPre(s, h, I[..], V[..], P, k + j, hi, r)
    ensures Elsewhere(old(I[..]), old(V[..]), P, I[..], V[..], P, k, k + j)
  {
    hide Sound, Group, Refined, Blocks, Coded, Front, Ahead;
    ghost var I0, V0 := I[..], V[..];
    assert forall m :: k <= m < k + j ==> I0[m] == P[m];
    Cut(I, V, k, j, r, s, h, P);
    ListedLater(I0, I[..], P, k, j, hi, h);
    hide Listed;
  }

  lemma ListedLater(I: seq<int>, I': seq<int>, P: seq<int>, k: nat, j: nat, hi: nat, h: nat)
    requires Listed(I, P, k, hi, h) && k + j <= hi <= |P| == |I| == |I'|
    requires forall m :: 0 <= m < |P| && !(k <= m < k + j) ==> I'[m] == I[m]
    ensures Listed(I', P, k + j, hi, h)
  {
  }

  /** Splitting lo..mid and then mid..hi splits lo..hi. */
  lemma Join(s: seq<Byte>, h: nat, I: seq<int>, V: seq<int>, P: seq<int>, I': seq<int>, V': seq<int>, P': seq<int>,
             lo: nat, mid: nat, hi: nat, end: nat, r: int)
    requires SplitPost(s, h, I, V, P, lo, mid, r) && SplitPost(s, h, I', V', P', mid, hi, r) && hi <= end
    requires Elsewhere(I, V, P, I', V', P', mid, end)
    ensures SplitPost(s, h, I', V', P', lo, hi, r)
  {
    var Q := Inverse(P', |s|);
    forall x, y | 0 <= x <= |s| && 0 <= y <= |s| && lo <= V'[x] == V'[y] < hi
      ensures Agree(s, x, y, 2 * h)
    {
      assert P'[Q[x]] == x && P'[Q[y]] == y;
    }
    JoinCoded(I, V, P, I', V', P', lo, mid, hi, end, 2 * h);
  }

  lemma JoinCoded(I: seq<int>, V: seq<int>, P: seq<int>, I': seq<int>, V': seq<int>, P': seq<int>,
                  lo: nat, mid: nat, hi: nat, end: nat, h: nat)
    requires lo <= mid <= hi <= end && Elsewhere(I, V, P, I', V', P', mid, end) && hi <= |P|
    requires Coded(I, V, P, lo, mid, h) && Coded(I', V', P', mid, hi, h)
    ensures Coded(I', V', P', lo, hi, h)
  {
    hide Coded;
    CodedFrame(I, V, P, I', V', P', lo, mid, end, h);
    hide Elsewhere;
    CodedJoin(I', V', P', lo, mid, hi, h);
  }

  /** What is changed only from mid on leaves the coding before it as it is. */
  lemma CodedFrame(I: seq<int>, V: seq<int>, P: seq<int>, I': seq<int>, V': seq<int>, P': seq<int>, lo: nat, mid: nat,
      end: nat, h: nat)
    requires Elsewhere(I, V, P, I', V', P', mid, end) && Coded(I, V, P, lo, mid, h)
    ensures Coded(I', V', P', lo, mid, h)
  {
    forall m | lo <= m < mid
      ensures Single(V, P, m) ==> Single(V', P', m)
    {
    }
    hide Single, Perm;
  }

  lemma CodedJoin(I: seq<int>, V: seq<int>, P: seq<int>, lo: nat, mid: nat, hi: nat, h: nat)
    requires Coded(I, V, P, lo, mid, h) && Coded(I, V, P, mid, hi, h)
    ensures Coded(I, V, P, lo, hi, h)
  {
    hide Single, Perm;
  }

  lemma ElsewhereTwice(I: seq<int>, V: seq<int>, P: seq<int>, I1: seq<int>, V1: seq<int>, P1: seq<int>,
                       I2: seq<int>, V2: seq<int>, P2: seq<int>, lo: int, hi: int, lo': int, hi': int)
    requires lo <= lo' && hi' <= hi
    requires Elsewhere(I, V, P, I1, V1, P1, lo, hi) && Elsewhere(I1, V1, P1, I2, V2, P2, lo', hi')
    ensures Elsewhere(I, V, P, I2, V2, P2, lo, hi)
  {
  }

  lemma SplitNothing(s: seq<Byte>, h: nat, I: seq<int>, V: seq<int>, P: seq<int>, lo: nat, hi: nat, r: int)
    requires SplitPre(s, h, I, V, P, lo, hi, r)
    ensures SplitPost(s, h, I, V, P, lo, lo, r) && Elsewhere(I, V, P, I, V, P, lo, hi)
  {
  }

  /** The selection-sort branch of split, for fewer than 16 indices (bsdiff.c:64-81). */
  method SplitSmall(I: array<int>, V: array<int>, start: nat, len: nat, h: nat,
                    ghost r: int, ghost s: seq<Byte>, ghost P: seq<int>)
    returns (ghost P': seq<int>)
    requires I != V && SplitPre(s, h, I[..], V[..], P, start, start + len, r)
    modifies I, V
    ensures SplitPost(s, h, I[..], V[..], P', start, start + len, r)
    ensures Elsewhere(old(I[..]), old(V[..]), P, I[..], V[..], P', start, start + len)
  {
    hide *;
    P' := P;
    SplitNothing(s, h, I[..], V[..], P, start, start + len, r);
    var k := start;
    while k < start + len
      invariant start <= k <= start + len
      invariant SplitPost(s, h, I[..], V[..], P', start, k, r) && SplitPre(s, h, I[..], V[..], P', k, start + len, r)
      invariant Elsewhere(old(I[..]), old(V[..]), P, I[..], V[..], P', start, start + len)
    {
      ghost var I1, V1, P1 := I[..], V[..], P';
      var j;
      j, P' := SelectLeast(I, V, k, start + len, h, r, s, P');
      Join(s, h, I1, V1, P1, I[..], V[..], P', start, k, k + j, start + len, r);
      ElsewhereTwice(old(I[..]), old(V[..]), P, I1, V1, P1, I[..], V[..], P', start, start + len, k, start + len);
      k := k + j;
    }
  }

  // ---------------------------------------------------------------- three-way partition

  /** Where the key of p stands against the pivot x: 0 below, 1 equal, 2 above. */
  ghost function Colour(V: seq<int>, h: int, x: int, p: int): (c: int)
    requires 0 <= p + h < |V|
  {
    if V[p + h] < x then 0 else if V[p + h] == x then 1 else 2
  }

  /** C colours the indices lo..hi of P. */
  ghost predicate Coloured(V: seq<int>, P: seq<int>, C: seq<int>, lo: int, hi: int, h: int, x: int)
  {
    && |V| == |P| && 0 <= lo <= hi <= |P| && |C| == hi
    && (forall m :: lo <= m < hi ==> 0 <= P[m] + h < |P| && C[m] == Colour(V, h, x, P[m]))
    && (forall m :: 0 <= m < lo ==> C[m] == 3)
  }

  lemma SwapColours(V: seq<int>, P: seq<int>, C: seq<int>, lo: int, hi: int, h: int, x: int, a: int, b: int)
    requires Coloured(V, P, C, lo, hi, h, x) && lo <= a < hi && lo <= b < hi
    ensures Coloured(V, Swapped(P, a, b), Swapped(C, a, b), lo, hi, h, x)
    ensures multiset(Swapped(C, a, b)) == multiset(C)
  {
  }

  /** Counts the keys below and equal to the pivot (bsdiff.c:84-89). */
  method CountKeys(I: array<int>, V: array<int>, lo: nat, hi: nat, h: nat, x: int, ghost P: seq<int>, ghost C: seq<int>)
    returns (jj: nat, kk: nat)
    requires I.Length == V.Length == |P| && lo <= hi <= |P| && Listed(I[..], P, lo, hi, h)
    requires Coloured(V[..], P, C, lo, hi, h, x)
    ensures lo <= jj <= kk <= hi
    ensures multiset(C)[0] == jj - lo && multiset(C)[1] == kk - jj && multiset(C)[2] == hi - kk
  {
    ColouredSize(V[..], P, C, lo, hi, h, x);
    jj, kk := 0, 0;
    ghost var above := 0;
    var i := lo;
    Uniform(C[..lo], 3);
    hide Listed, Coloured;
    while i < hi
      invariant lo <= i <= hi == |C| && jj + kk + above == i - lo && above >= 0
      invariant multiset(C[..i])[0] == jj && multiset(C[..i])[1] == kk && multiset(C[..i])[2] == above
    {
      CountOne(C, i);
      KeyColour(I[..], V[..], P, C, lo, hi, h, x, i);
      if V[I[i] + h] < x { jj := jj + 1; }
      if V[I[i] + h] == x { kk := kk + 1; }
      if V[I[i] + h] > x { above := above + 1; }
      i := i + 1;
    }
    assert C[..hi] == C;
    jj := jj + lo;
    kk := kk + jj;
  }

  lemma CountOne(C: seq<int>, i: nat)
    requires i < |C|
    ensures multiset(C[..i + 1])[0] == multiset(C[..i])[0] + if C[i] == 0 then 1 else 0
    ensures multiset(C[..i + 1])[1] == multiset(C[..i])[1] + if C[i] == 1 then 1 else 0
    ensures multiset(C[..i + 1])[2] == multiset(C[..i])[2] + if C[i] == 2 then 1 else 0
  {
    assert C[..i + 1] == C[..i] + [C[i]];
  }

  lemma KeyColour(I: seq<int>, V: seq<int>, P: seq<int>, C: seq<int>, lo: nat, hi: nat, h: nat, x: int, i: nat)
    requires |I| == |V| == |P| && Listed(I, P, lo, hi, h) && Coloured(V, P, C, lo, hi, h, x) && lo <= i < hi
    ensures 0 <= I[i] + h < |V| && |C| == hi
    ensures C[i] == if V[I[i] + h] < x then 0 else if V[I[i] + h] == x then 1 else 2
  {
  }

  lemma ColouredSize(V: seq<int>, P: seq<int>, C: seq<int>, lo: nat, hi: nat, h: nat, x: int)
    requires Coloured(V, P, C, lo, hi, h, x)
    ensures |C| == hi && forall i :: 0 <= i < lo && i < |C| ==> C[i] == 3
  {
  }

  /** I is I0 with the indices lo..hi rearranged, and C colours them. */
  ghost predicate Shuffled(I0: seq<int>, I: seq<int>, V: seq<int>, P0: seq<int>, P: seq<int>, C: seq<int>, S: set<int>,
                           lo: int, hi: int, h: int, x: int)
  {
    && |I0| == |I| == |V| == |P|
    && Rearranged(P0, P, lo, hi, S) && Listed(I, P, lo, hi, h) && Coloured(V, P, C, lo, hi, h, x)
    && (forall m :: 0 <= m < |I| && !(lo <= m < hi) ==> I[m] == I0[m])
  }

  /** There are jj - lo, kk - jj and hi - kk places of the three colours; i - lo, j and k of them are final. */
  ghost predicate Sorted(C: seq<int>, lo: int, hi: int, jj: int, kk: int, i: int, j: int, k: int)
  {
    && 0 <= lo <= i <= jj <= jj + j <= kk <= kk + k <= hi == |C|
    && multiset(C)[0] == jj - lo && multiset(C)[1] == kk - jj && multiset(C)[2] == hi - kk
    && (forall m :: lo <= m < i ==> C[m] == 0)
    && (forall m :: jj <= m < jj + j ==> C[m] == 1)
    && (forall m :: kk <= m < kk + k ==> C[m] == 2)
  }

  /** The partition in progress. */
  ghost predicate Parting(I0: seq<int>, I: seq<int>, V: seq<int>, P0: seq<int>, P: seq<int>, C: seq<int>, S: set<int>,
                          lo: int, hi: int, h: int, x: int, jj: int, kk: int, i: int, j: int, k: int)
  {
    Shuffled(I0, I, V, P0, P, C, S, lo, hi, h, x) && Sorted(C, lo, hi, jj, kk, i, j, k)
  }

  /** Looking at a place not yet final: what its key says, and that its colour has a place waiting. */
  lemma Inspect(I0: seq<int>, I: seq<int>, V: seq<int>, P0: seq<int>, P: seq<int>, C: seq<int>, S: set<int>,
                lo: int, hi: int, h: int, x: int, jj: int, kk: int, i: int, j: int, k: int, m: int)
    requires Parting(I0, I, V, P0, P, C, S, lo, hi, h, x, jj, kk, i, j, k)
    requires i == m < jj || (i == jj && jj + j == m < kk)
    ensures 0 <= m < |I| && 0 <= I[m] + h < |V|
    ensures C[m] == if V[I[m] + h] < x then 0 else if V[I[m] + h] == x then 1 else 2
    ensures i == jj ==> C[m] != 0
    ensures m < jj && C[m] == 1 ==> jj + j < kk
    ensures C[m] == 2 ==> kk + k < hi
  {
    if i == jj && C[m] == 0 { Crowded(C, 0, lo, jj, m); }
    if m < jj && C[m] == 1 { Crowded(C, 1, jj, jj + j, m); }
    if C[m] == 2 { Crowded(C, 2, kk, kk + k, m); }
  }

  /** Swapping a misplaced colour into the place waiting for it. */
  lemma Placed(I0: seq<int>, I: seq<int>, V: seq<int>, P0: seq<int>, P: seq<int>, C: seq<int>, S: set<int>,
               lo: int, hi: int, h: int, x: int, jj: int, kk: int, i: int, j: int, k: int, m: int, c: int)
    requires Parting(I0, I, V, P0, P, C, S, lo, hi, h, x, jj, kk, i, j, k)
    requires i == m < jj || (i == jj && jj + j == m < kk)
    requires C[m] == c && ((c == 1 && m < jj && jj + j < kk) || (c == 2 && kk + k < hi))
    ensures var b := if c == 1 then jj + j else kk + k;
            Parting(I0, Swapped(I, m, b), V, P0, Swapped(P, m, b), Swapped(C, m, b), S, lo, hi, h, x, jj, kk, i,
                    if c == 1 then j + 1 else j, if c == 1 then k else k + 1)
  {
    hide Shuffled, Sorted;
    Passed(I0, I, V, P0, P, C, S, lo, hi, h, x, jj, kk, i, j, k);
    var b := if c == 1 then jj + j else kk + k;
    SwapShuffled(I0, I, V, P0, P, C, S, lo, hi, h, x, m, b);
    SwapSorted(C, lo, hi, jj, kk, i, j, k, m, b, c);
  }

  lemma SwapShuffled(I0: seq<int>, I: seq<int>, V: seq<int>, P0: seq<int>, P: seq<int>, C: seq<int>, S: set<int>,
                     lo: int, hi: int, h: int, x: int, a: int, b: int)
    requires Shuffled(I0, I, V, P0, P, C, S, lo, hi, h, x) && lo <= a < hi && lo <= b < hi
    ensures Shuffled(I0, Swapped(I, a, b), V, P0, Swapped(P, a, b), Swapped(C, a, b), S, lo, hi, h, x)
  {
    SwapColours(V, P, C, lo, hi, h, x, a, b);
    SwapRearranges(P0, P, a, b, lo, hi, S);
  }

  lemma SwapSorted(C: seq<int>, lo: int, hi: int, jj: int, kk: int, i: int, j: int, k: int, m: int, b: int, c: int)
    requires Sorted(C, lo, hi, jj, kk, i, j, k) && (i == m < jj || (i == jj && jj + j == m < kk)) && C[m] == c
    requires (c == 1 && m < jj && b == jj + j < kk) || (c == 2 && b == kk + k < hi)
    ensures Sorted(Swapped(C, m, b), lo, hi, jj, kk, i, if c == 1 then j + 1 else j, if c == 1 then k else k + 1)
  {
  }

  lemma Passed(I0: seq<int>, I: seq<int>, V: seq<int>, P0: seq<int>, P: seq<int>, C: seq<int>, S: set<int>,
               lo: int, hi: int, h: int, x: int, jj: int, kk: int, i: int, j: int, k: int)
    requires Parting(I0, I, V, P0, P, C, S, lo, hi, h, x, jj, kk, i, j, k)
    ensures i < jj && C[i] == 0 ==> Parting(I0, I, V, P0, P, C, S, lo, hi, h, x, jj, kk, i + 1, j, k)
    ensures jj + j < kk && C[jj + j] == 1 ==> Parting(I0, I, V, P0, P, C, S, lo, hi, h, x, jj, kk, i, j + 1, k)
    ensures |C| == hi && 0 <= lo <= i <= jj <= jj + j <= kk <= kk + k <= hi <= |I| == |I0| == |P|
  {
  }

  /** The three-assignment swap of split. */
  method SwapEntries(I: array<int>, a: nat, b: nat)
    requires a < I.Length && b < I.Length
    modifies I
    ensures I[..] == Swapped(old(I[..]), a, b)
  {
    var tmp := I[a];
    I[a] := I[b];
    I[b] := tmp;
  }

  /** Fills lo..jj with the keys below the pivot (bsdiff.c:91-102). */
  method PartLow(I: array<int>, V: array<int>, lo: nat, hi: nat, h: nat, x: int, jj: nat, kk: nat,
                 ghost P: seq<int>, ghost C: seq<int>, ghost S: set<int>)
    returns (j: int, k: int, ghost P': seq<int>, ghost C': seq<int>)
    requires I != V && Parting(I[..], I[..], V[..], P, P, C, S, lo, hi, h, x, jj, kk, lo, 0, 0)
    modifies I
    ensures Parting(old(I[..]), I[..], V[..], P, P', C', S, lo, hi, h, x, jj, kk, jj, j, k)
  {
    hide *;
    P', C' := P, C;
    var i := lo;
    j, k := 0, 0;
    ghost var I0 := I[..];
    Passed(I0, I[..], V[..], P, P', C', S, lo, hi, h, x, jj, kk, i, j, k);
    while i < jj
      invariant lo <= i <= jj && Parting(I0, I[..], V[..], P, P', C', S, lo, hi, h, x, jj, kk, i, j, k)
      decreases jj - i + kk - jj - j + hi - kk - k
    {
      Passed(I0, I[..], V[..], P, P', C', S, lo, hi, h, x, jj, kk, i, j, k);
      Inspect(I0, I[..], V[..], P, P', C', S, lo, hi, h, x, jj, kk, i, j, k, i);
      if V[I[i] + h] < x {
        i := i + 1;
      } else if V[I[i] + h] == x {
        Placed(I0, I[..], V[..], P, P', C', S, lo, hi, h, x, jj, kk, i, j, k, i, 1);
        P', C' := Swapped(P', i, jj + j), Swapped(C', i, jj + j);
        SwapEntries(I, i, jj + j);
        j := j + 1;
      } else {
        Placed(I0, I[..], V[..], P, P', C', S, lo, hi, h, x, jj, kk, i, j, k, i, 2);
        P', C' := Swapped(P', i, kk + k), Swapped(C', i, kk + k);
        SwapEntries(I, i, kk + k);
        k := k + 1;
      }
    }
  }

  /** Fills jj..kk with the keys equal to the pivot (bsdiff.c:104-111). */
  method PartMiddle(I: array<int>, V: array<int>, lo: nat, hi: nat, h: nat, x: int, jj: nat, kk: nat, j0: int, k0: int,
                    ghost I0: seq<int>, ghost P: seq<int>, ghost P1: seq<int>, ghost C: seq<int>, ghost S: set<int>)
    returns (ghost P': seq<int>, ghost C': seq<int>, ghost k: int)
    requires I != V && Parting(I0, I[..], V[..], P, P1, C, S, lo, hi, h, x, jj, kk, jj, j0, k0)
    modifies I
    ensures Parting(I0, I[..], V[..], P, P', C', S, lo, hi, h, x, jj, kk, jj, kk - jj, k)
  {
    hide *;
    P', C' := P1, C;
    var j, n := j0, k0;
    Passed(I0, I[..], V[..], P, P', C', S, lo, hi, h, x, jj, kk, jj, j, n);
    while jj + j < kk
      invariant jj + j <= kk && Parting(I0, I[..], V[..], P, P', C', S, lo, hi, h, x, jj, kk, jj, j, n)
      decreases kk - jj - j + hi - kk - n
    {
      Passed(I0, I[..], V[..], P, P', C', S, lo, hi, h, x, jj, kk, jj, j, n);
      Inspect(I0, I[..], V[..], P, P', C', S, lo, hi, h, x, jj, kk, jj, j, n, jj + j);
      if V[I[jj + j] + h] == x {
        j := j + 1;
      } else {
        Placed(I0, I[..], V[..], P, P', C', S, lo, hi, h, x, jj, kk, jj, j, n, jj + j, 2);
        P', C' := Swapped(P', jj + j, kk + n), Swapped(C', jj + j, kk + n);
        SwapEntries(I, jj + j, kk + n);
        n := n + 1;
      }
    }
    k := n;
  }

  /** What the partition leaves: jj..kk a front of jj..r, and kk..hi ahead of the rest of the group. */
  ghost predicate Parted(s: seq<Byte>, h: int, I: seq<int>, P: seq<int>, jj: int, kk: int, hi: int, r: int)
  {
    && 0 <= jj < kk <= hi <= r + 1 <= |P| == |I|
    && Front(s, h, P, jj, kk - jj, r) && Ahead(s, P, kk, hi, r) && Listed(I, P, jj, hi, h)
  }

  lemma ColourPair(s: seq<Byte>, h: nat, V: seq<int>, P: seq<int>, C: seq<int>, x: int, lo: nat, hi: nat, r: int,
      m: nat, m': nat)
    requires Ready(s, h, V, P) && Group(V, P, lo, r) && Coloured(V, P, C, lo, hi, h, x)
    requires lo <= m < hi <= r + 1 && lo <= m' < hi
    ensures C[m] < C[m'] ==> Less(s, P[m], P[m'])
    ensures C[m] == 1 == C[m'] ==> Agree(s, P[m], P[m'], 2 * h)
  {
    if m != m' { KeyOrder(s, V, h, P[m], P[m']); }
  }

  /** Colours, once sorted, are suffix order. */
  lemma ColoursOrder(s: seq<Byte>, h: nat, V: seq<int>, P: seq<int>, C: seq<int>, x: int,
                     lo: nat, jj: nat, kk: nat, hi: nat, r: int)
    requires Ready(s, h, V, P) && Group(V, P, lo, r) && Ahead(s, P, lo, hi, r) && Coloured(V, P, C, lo, hi, h, x)
    requires lo <= jj < kk <= hi == |C|
    requires forall m :: lo <= m < jj ==> C[m] == 0
    requires forall m :: jj <= m < kk ==> C[m] == 1
    requires forall m :: kk <= m < hi ==> C[m] == 2
    ensures Ahead(s, P, lo, jj, r) && Front(s, h, P, jj, kk - jj, r) && Ahead(s, P, kk, hi, r)
  {
    hide Ready, Group, Coloured, Less, Agree;
    forall m, m' | lo <= m < hi && lo <= m' < hi
      ensures C[m] < C[m'] ==> Less(s, P[m], P[m'])
      ensures C[m] == 1 == C[m'] ==> Agree(s, P[m], P[m'], 2 * h)
    {
      ColourPair(s, h, V, P, C, x, lo, hi, r, m, m');
    }
  }

  lemma ColoursFinal(C: seq<int>, lo: int, hi: int, jj: int, kk: int, k: int)
    requires Sorted(C, lo, hi, jj, kk, jj, kk - jj, k) && 0 <= lo < hi
    requires forall m :: lo <= m < hi ==> 0 <= C[m] <= 2
    ensures forall m :: lo <= m < jj ==> C[m] == 0
    ensures forall m :: jj <= m < kk ==> C[m] == 1
    ensures forall m :: kk <= m < hi ==> C[m] == 2
  {
    Exhausted(C, 0, lo, jj);
    Exhausted(C, 1, jj, kk);
  }

  lemma PartingDone(s: seq<Byte>, h: nat, I0: seq<int>, I: seq<int>, V: seq<int>, P0: seq<int>, P: seq<int>,
      C: seq<int>, x: int, lo: nat, jj: nat, kk: nat, hi: nat, r: int, k: int)
    requires SplitPre(s, h, I0, V, P0, lo, hi, r) && lo < hi && jj < kk
    requires Parting(I0, I, V, P0, P, C, Span(P0, lo, hi), lo, hi, h, x, jj, kk, jj, kk - jj, k)
    ensures SplitPre(s, h, I, V, P, lo, jj, r) && Parted(s, h, I, P, jj, kk, hi, r) &&
            Elsewhere(I0, V, P0, I, V, P, lo, hi)
  {
    RearrangedGroup(s, V, P0, P, lo, lo, hi, r);
    ColoursFinal(C, lo, hi, jj, kk, k);
    ColoursOrder(s, h, V, P, C, x, lo, jj, kk, hi, r);
  }

  lemma PartingStarts(I: seq<int>, V: seq<int>, P: seq<int>, C: seq<int>, lo: nat, hi: nat, h: nat, x: int, jj: nat,
      kk: nat)
    requires |I| == |V| == |P| && Coloured(V, P, C, lo, hi, h, x) && Listed(I, P, lo, hi, h) && lo <= jj <= kk <= hi
    requires multiset(C)[0] == jj - lo && multiset(C)[1] == kk - jj && multiset(C)[2] == hi - kk
    ensures Parting(I, I, V, P, P, C, Span(P, lo, hi), lo, hi, h, x, jj, kk, lo, 0, 0)
  {
  }

  /** The colours of lo..hi under pivot x. */
  ghost function ColoursOf(V: seq<int>, P: seq<int>, lo: nat, hi: nat, h: nat, x: int): (C: seq<int>)
    requires |V| == |P| && lo <= hi <= |P| && (forall m :: lo <= m < hi ==> 0 <= P[m] + h < |P|)
    ensures Coloured(V, P, C, lo, hi, h, x)
  {
    seq(hi, m requires 0 <= m < hi => if m < lo then 3 else Colour(V, h, x, P[m]))
  }

  /** The three-way partition around the middle key (bsdiff.c:83-111). */
  method Partition(I: array<int>, V: array<int>, lo: nat, hi: nat, h: nat, ghost r: int, ghost s: seq<Byte>,
      ghost P: seq<int>)
    returns (jj: nat, kk: nat, ghost P': seq<int>)
    requires I != V && SplitPre(s, h, I[..], V[..], P, lo, hi, r) && lo < hi
    modifies I
    ensures lo <= jj < kk <= hi && SplitPre(s, h, I[..], V[..], P', lo, jj, r) && Parted(s, h, I[..], P', jj, kk, hi, r)
    ensures Elsewhere(old(I[..]), old(V[..]), P, I[..], V[..], P', lo, hi)
  {
    hide Group, Ahead, Ready, Rearranged, Elsewhere, Parted;
    var mid := lo + (hi - lo) / 2;
    var x := V[I[mid] + h];
    ghost var C := ColoursOf(V[..], P, lo, hi, h, x);
    jj, kk := CountKeys(I, V, lo, hi, h, x, P, C);
    assert jj < kk by { assert C[mid] == 1; assert 1 in multiset(C); }
    PartingStarts(I[..], V[..], P, C, lo, hi, h, x, jj, kk);
    hide *;
    var j, k;
    j, k, P', C := PartLow(I, V, lo, hi, h, x, jj, kk, P, C, Span(P, lo, hi));
    ghost var n;
    P', C, n := PartMiddle(I, V, lo, hi, h, x, jj, kk, j, k, old(I[..]), P, P', C, Span(P, lo, hi));
    PartingDone(s, h, old(I[..]), I[..], V[..], P, P', C, x, lo, jj, kk, hi, r, n);
  }

  lemma PartedKept(s: seq<Byte>, h: nat, I: seq<int>, V: seq<int>, P: seq<int>, I': seq<int>, V': seq<int>,
      P': seq<int>, lo: nat, jj: nat, kk: nat, hi: nat, r: int)
    requires Parted(s, h, I, P, jj, kk, hi, r) && Elsewhere(I, V, P, I', V', P', lo, jj)
    ensures Parted(s, h, I', P', jj, kk, hi, r)
  {
  }

  /** Ranks the keys equal to the pivot and hands on what is above it (bsdiff.c:115-118). */
  method RankMiddle(I: array<int>, V: array<int>, ghost lo: nat, jj: nat, kk: nat, ghost hi: nat, ghost h: nat,
                    ghost r: int, ghost s: seq<Byte>, ghost P: seq<int>)
    requires I != V && SplitPost(s, h, I[..], V[..], P, lo, jj, r) && Parted(s, h, I[..], P, jj, kk, hi, r)
    modifies I, V
    ensures SplitPost(s, h, I[..], V[..], P, jj, kk, r) && SplitPre(s, h, I[..], V[..], P, kk, hi, r)
    ensures Elsewhere(old(I[..]), old(V[..]), P, I[..], V[..], P, jj, kk)
  {
    hide Sound, Group, Refined, Blocks, Coded, Front, Ahead, Listed, Elsewhere;
    RankFront(I, V, jj, kk - jj, hi, r, s, h, P);
  }

  /**
   split (bsdiff.c:60-119): orders the indices start..start+len by the rank h bytes further on,
   while the ranks it reads are themselves being rewritten.
   */
  method Split(I: array<int>, V: array<int>, start: nat, len: nat, h: nat,
               ghost r: int, ghost s: seq<Byte>, ghost P: seq<int>)
    returns (ghost P': seq<int>)
    requires I != V && SplitPre(s, h, I[..], V[..], P, start, start + len, r)
    modifies I, V
    ensures SplitPost(s, h, I[..], V[..], P', start, start + len, r)
    ensures Elsewhere(old(I[..]), old(V[..]), P, I[..], V[..], P', start, start + len)
    decreases len
  {
    hide *;
    if len < 16 {
      P' := SplitSmall(I, V, start, len, h, r, s, P);
      return;
    }
    ghost var hi := start + len;
    ghost var I0, V0 := I[..], V[..];
    var jj, kk;
    jj, kk, P' := Partition(I, V, start, start + len, h, r, s, P);
    SplitNothing(s, h, I[..], V[..], P', start, jj, r);
    ghost var I1, V1, P1 := I[..], V[..], P';
    if jj > start {
      P' := Split(I, V, start, jj - start, h, r, s, P');
    }
    PartedKept(s, h, I1, V1, P1, I[..], V[..], P', start, jj, kk, hi, r);
    ElsewhereTwice(I0, V0, P, I1, V1, P1, I[..], V[..], P', start, hi, start, jj);
    I1, V1, P1 := I[..], V[..], P';
    RankMiddle(I, V, start, jj, kk, hi, h, r, s, P');
    Join(s, h, I1, V1, P1, I[..], V[..], P', start, jj, kk, kk, r);
    ElsewhereTwice(I0, V0, P, I1, V1, P1, I[..], V[..], P', start, hi, jj, kk);
    if start + len > kk {
      I1, V1, P1 := I[..], V[..], P';
      P' := Split(I, V, kk, start + len - kk, h, r, s, P');
      Join(s, h, I1, V1, P1, I[..], V[..], P', start, kk, hi, hi, r);
      ElsewhereTwice(I0, V0, P, I1, V1, P1, I[..], V[..], P', start, hi, kk, hi);
    }
  }

  // ---------------------------------------------------------------- qsufsort

  /** A pass with step h has refined the groups below index i, the last len of them a run of single positions. */
  ghost predicate PassInv(s: seq<Byte>, h: int, I: seq<int>, V: seq<int>, P: seq<int>, i: int, len: int)
  {
    && Ready(s, h, V, P) && |I| == |V| && 0 <= len <= i <= |P|
    && Blocks(V, P, 0, i) && Blocks(V, P, i, |P|) && Refined(s, V, 0, i, 2 * h)
    && Coded(I, V, P, 0, i - len, 2 * h) && Coded(I, V, P, i - len, i, 2 * h) && Coded(I, V, P, i, |P|, h)
    && (forall m :: i - len <= m < i ==> I[m] < 0 && Single(V, P, m))
  }

  /** Between passes: groups agree on h bytes, and I encodes them. */
  ghost predicate PassStart(s: seq<Byte>, h: int, I: seq<int>, V: seq<int>, P: seq<int>)
  {
    Ready(s, h, V, P) && |I| == |V| && Blocks(V, P, 0, |P|) && Coded(I, V, P, 0, |P|, h)
  }

  /** A run of single positions carries over to any step, and cuts its surroundings in two. */
  lemma CodedRun(I: seq<int>, V: seq<int>, P: seq<int>, lo: nat, hi: nat, h: nat, h': nat)
    requires Coded(I, V, P, lo, hi, h) && lo < hi && I[lo] < 0
    ensures Coded(I, V, P, lo, lo - I[lo], h') && Coded(I, V, P, lo - I[lo], hi, h)
    ensures forall m :: lo <= m < lo - I[lo] ==> I[m] < 0 && Single(V, P, m)
    ensures lo - I[lo] <= |P| == |V|
  {
    hide Single, Perm;
    var e := lo - I[lo];
    assert forall m :: lo <= m < e ==> I[m] < 0 && Single(V, P, m) && m - I[m] <= e;
  }

  lemma SingleRanks(V: seq<int>, P: seq<int>, lo: nat, hi: nat)
    requires forall m :: lo <= m < hi ==> Single(V, P, m)
    ensures forall m :: lo <= m < hi && m < |P| == |V| ==> 0 <= P[m] < |P| && V[P[m]] == m
  {
    forall m | lo <= m < hi && m < |P| == |V|
      ensures 0 <= P[m] < |P| && V[P[m]] == m
    {
      assert Single(V, P, m);
    }
  }

  lemma BlocksRun(V: seq<int>, P: seq<int>, i: nat, e: nat)
    requires Blocks(V, P, 0, i) && Blocks(V, P, i, |P|) && i <= e <= |P| && forall m :: i <= m < e ==> V[P[m]] == m
    ensures Blocks(V, P, 0, e) && Blocks(V, P, e, |P|)
  {
  }

  lemma RefinedRun(s: seq<Byte>, V: seq<int>, P: seq<int>, i: nat, e: nat, h: nat)
    requires |V| == |s| + 1 && Refined(s, V, 0, i, h) && Blocks(V, P, 0, e) && i <= e && Blocks(V, P, e, |P|)
    requires forall m :: i <= m < e ==> Single(V, P, m)
    ensures Refined(s, V, 0, e, h)
  {
    var Q := Inverse(P, |s|);
    forall x, y | 0 <= x <= |s| && 0 <= y <= |s| && 0 <= V[x] == V[y] < e
      ensures Agree(s, x, y, h)
    {
      assert P[Q[x]] == x && P[Q[y]] == y;
      if V[x] >= i { assert Single(V, P, V[x]); }
    }
  }

  /** Stepping over a run of single positions (bsdiff.c:142-144). */
  lemma SkipRun(s: seq<Byte>, h: nat, I: seq<int>, V: seq<int>, P: seq<int>, i: nat, len: nat)
    requires PassInv(s, h, I, V, P, i, len) && i < |P| && I[i] < 0
    ensures PassInv(s, h, I, V, P, i - I[i], len - I[i])
  {
    hide Blocks, Refined, Coded, Ready, Single;
    CodedRun(I, V, P, i, |P|, h, 2 * h);
    CodedJoin(I, V, P, i - len, i, i - I[i], 2 * h);
    SingleRanks(V, P, i, i - I[i]);
    BlocksRun(V, P, i, i - I[i]);
    assert |V| == |s| + 1 by { ReadySizes(s, h, V, P); }
    RefinedRun(s, V, P, i, i - I[i], 2 * h);
  }

  lemma ReadySizes(s: seq<Byte>, h: nat, V: seq<int>, P: seq<int>)
    requires Ready(s, h, V, P)
    ensures |V| == |P| == |s| + 1
  {
  }

  /** Writing a merged run's length at its head (bsdiff.c:146 and 153). */
  lemma MergeRun(s: seq<Byte>, h: nat, I: seq<int>, V: seq<int>, P: seq<int>, i: nat, len: nat)
    requires PassInv(s, h, I, V, P, i, len)
    ensures PassInv(s, h, if len > 0 then I[i - len := 0 - len] else I, V, P, i, 0)
  {
    hide Blocks, Refined, Coded, Ready, Single;
    ReadySizes(s, h, V, P);
    if len > 0 {
      CodedHead(I, V, P, 0, i - len, i - len, 2 * h, 0 - len);
      CodedHead(I, V, P, i, |P|, i - len, h, 0 - len);
      MergedCoded(I, V, P, i - len, i, 2 * h);
      CodedJoin(I[i - len := 0 - len], V, P, 0, i - len, i, 2 * h);
      CodedNothing(I[i - len := 0 - len], V, P, 0, i, 2 * h);
    }
  }

  lemma CodedHead(I: seq<int>, V: seq<int>, P: seq<int>, lo: nat, hi: nat, a: nat, h: nat, x: int)
    requires Coded(I, V, P, lo, hi, h) && a < |I| && !(lo <= a < hi)
    ensures Coded(I[a := x], V, P, lo, hi, h)
  {
  }

  lemma CodedNothing(I: seq<int>, V: seq<int>, P: seq<int>, lo: nat, hi: nat, h: nat)
    requires Coded(I, V, P, lo, hi, h)
    ensures Coded(I, V, P, hi, hi, h)
  {
  }

  lemma MergedCoded(I: seq<int>, V: seq<int>, P: seq<int>, lo: nat, hi: nat, h: nat)
    requires Coded(I, V, P, lo, hi, h) && lo < hi && forall m :: lo <= m < hi ==> I[m] < 0 && Single(V, P, m)
    ensures Coded(I[lo := lo - hi], V, P, lo, hi, h)
  {
  }

  /** A non-negative entry heads a group listed in full (bsdiff.c:147). */
  lemma StartSplit(s: seq<Byte>, h: nat, I: seq<int>, V: seq<int>, P: seq<int>, i: nat)
    requires PassInv(s, h, I, V, P, i, 0) && i < |P| && I[i] >= 0
    ensures I[i] == P[i] < |V| && i <= V[P[i]] < |P| && SplitPre(s, h, I, V, P, i, V[P[i]] + 1, V[P[i]])
    ensures SplitPost(s, h, I, V, P, 0, i, V[P[i]])
  {
  }

  lemma EndSplit(s: seq<Byte>, h: nat, I: seq<int>, V: seq<int>, P: seq<int>, I': seq<int>, V': seq<int>, P': seq<int>,
      i: nat, r: nat)
    requires PassInv(s, h, I, V, P, i, 0) && i <= r < |P| && SplitPost(s, h, I, V, P, 0, i, r)
    requires SplitPost(s, h, I', V', P', i, r + 1, r) && Elsewhere(I, V, P, I', V', P', i, r + 1)
    ensures PassInv(s, h, I', V', P', r + 1, 0)
  {
    Join(s, h, I, V, P, I', V', P', 0, i, r + 1, r + 1, r);
    TailKept(I, V, P, I', V', P', i, r, h);
    CodedNothing(I', V', P', 0, r + 1, 2 * h);
    hide Blocks, Refined, Coded, Ready, Single, Elsewhere, Group;
  }

  lemma TailKept(I: seq<int>, V: seq<int>, P: seq<int>, I': seq<int>, V': seq<int>, P': seq<int>, i: nat, r: nat,
      h: nat)
    requires i <= r < |P| && Blocks(V, P, i, |P|) && Coded(I, V, P, i, |P|, h)
    requires Group(V, P, i, r) && Blocks(V', P', i, r + 1) && Elsewhere(I, V, P, I', V', P', i, r + 1)
    ensures Blocks(V', P', r + 1, |P|) && Coded(I', V', P', r + 1, |P|, h)
  {
    TailBlocks(I, V, P, I', V', P', i, r);
    assert V'[P'[r]] <= r;
    hide Blocks;
    forall m | r < m < |P|
      ensures Single(V, P, m) ==> Single(V', P', m)
    {
    }
    hide Single, Group;
  }

  lemma TailBlocks(I: seq<int>, V: seq<int>, P: seq<int>, I': seq<int>, V': seq<int>, P': seq<int>, i: nat, r: nat)
    requires i <= r < |P| && Blocks(V, P, i, |P|) && Group(V, P, i, r) && Elsewhere(I, V, P, I', V', P', i, r + 1)
    ensures Blocks(V', P', r + 1, |P|)
  {
  }

  lemma PassBegins(s: seq<Byte>, h: nat, I: seq<int>, V: seq<int>, P: seq<int>)
    requires PassStart(s, h, I, V, P)
    ensures PassInv(s, h, I, V, P, 0, 0) && |I| == |P| == |s| + 1
  {
  }

  lemma PassEnds(s: seq<Byte>, h: nat, I: seq<int>, V: seq<int>, P: seq<int>)
    requires PassInv(s, h, I, V, P, |P|, 0)
    ensures PassStart(s, 2 * h, I, V, P)
  {
  }

  lemma PassBounds(s: seq<Byte>, h: nat, I: seq<int>, V: seq<int>, P: seq<int>, i: nat, len: nat)
    requires PassInv(s, h, I, V, P, i, len)
    ensures 0 <= len <= i <= |P| == |I| == |V| == |s| + 1
    ensures i < |P| ==> i - I[i] <= |P| || I[i] >= 0
    ensures len > 0 ==> I[i - len] < 0
  {
  }

  /**
   One pass of the outer loop of qsufsort (bsdiff.c:140-153): every group is split by the ranks h bytes further on.
   */
  method Pass(I: array<int>, V: array<int>, n: nat, h: nat, ghost s: seq<Byte>, ghost P: seq<int>)
    returns (ghost P': seq<int>)
    requires I != V && n == |s| && PassStart(s, h, I[..], V[..], P) && I.Length == V.Length == n + 1
    modifies I, V
    ensures PassStart(s, 2 * h, I[..], V[..], P')
    ensures (forall m :: 0 <= m <= n ==> old(I[m]) < 0) ==> I[0] == -(n + 1)
  {
    hide *;
    P' := P;
    ghost var runs := forall m :: 0 <= m <= n ==> I[m] < 0;
    var i, len := 0, 0;
    PassBegins(s, h, I[..], V[..], P);
    while i < n + 1
      invariant 0 <= len <= i <= n + 1 && PassInv(s, h, I[..], V[..], P', i, len)
      invariant runs ==> len == i && forall m :: 0 <= m <= n ==> I[m] < 0
      decreases n + 1 - i
    {
      PassBounds(s, h, I[..], V[..], P', i, len);
      if I[i] < 0 {
        SkipRun(s, h, I[..], V[..], P', i, len);
        len, i := len - I[i], i - I[i];
      } else {
        MergeRun(s, h, I[..], V[..], P', i, len);
        if len != 0 {
          I[i - len] := -len;
        }
        StartSplit(s, h, I[..], V[..], P', i);
        len := V[I[i]] + 1 - i;
        ghost var I1, V1, P1 := I[..], V[..], P';
        P' := Split(I, V, i, len, h, i + len - 1, s, P');
        EndSplit(s, h, I1, V1, P1, I[..], V[..], P', i, i + len - 1);
        PassBounds(s, h, I[..], V[..], P', i + len, 0);
        i := i + len;
        len := 0;
      }
    }
    PassBounds(s, h, I[..], V[..], P', i, len);
    MergeRun(s, h, I[..], V[..], P', i, len);
    if len != 0 {
      I[i - len] := -len;
    }
    PassEnds(s, h, I[..], V[..], P');
  }
}
