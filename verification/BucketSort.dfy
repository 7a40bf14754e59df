/**
 The counting sort that starts qsufsort: positions are dealt into one bucket per
 leading byte, after the single slot of the empty suffix.
 */
module BucketSort {
  import opened Bytes
  import opened SuffixOrder
  import opened SuffixSort

  /** Starts(c)[b] is the number of occurrences, under the counts c, of bytes below b. */
  ghost function Starts(counts: multiset<Byte>, b: nat): (L: seq<int>)
    ensures |L| == b + 1 && L[0] == 0
    ensures forall i {:trigger counts[i]} :: 0 <= i < b && i < 256 ==> L[i + 1] == L[i] + counts[i]
    ensures forall i, j :: 0 <= i <= j <= b ==> L[i] <= L[j]
  {
    if b == 0 then [0]
    else var L := Starts(counts, b - 1);
         L + [L[b - 1] + if b <= 256 then counts[b - 1] else 0]
  }

  ghost function Slots(s: seq<Byte>): (L: seq<int>)
    ensures |L| == 257 && L[0] == 0 && L[256] == |s|
    ensures forall i, j :: 0 <= i <= j <= 256 ==> L[i] <= L[j]
    ensures forall i {:trigger multiset(s)[i]} :: 0 <= i < 256 ==> L[i + 1] == L[i] + multiset(s)[i]
  {
    TotalCount(s);
    Starts(multiset(s), 256)
  }

  lemma {:induction false} TotalCount(s: seq<Byte>)
    ensures Starts(multiset(s), 256)[256] == |s|
  {
    if s == [] {
      StartsEmpty(256);
    } else {
      var t := s[..|s| - 1];
      TotalCount(t);
      assert s == t + [s[|s| - 1]];
      StartsAdd(multiset(t), s[|s| - 1], 256);
      assert multiset(s) == multiset(t) + multiset{s[|s| - 1]};
    }
  }

  lemma {:induction false} StartsEmpty(b: nat)
    ensures Starts(multiset{}, b)[b] == 0
  {
    if b > 0 { StartsEmpty(b - 1); }
  }

  lemma {:induction false} StartsAdd(counts: multiset<Byte>, x: Byte, b: nat)
    ensures Starts(counts + multiset{x}, b)[b] == Starts(counts, b)[b] + if x < b then 1 else 0
  {
    if b > 0 {
      StartsAdd(counts, x, b - 1);
      StartsLast(counts, b);
      StartsLast(counts + multiset{x}, b);
      hide Starts;
    }
  }

  lemma StartsLast(counts: multiset<Byte>, b: nat)
    requires b > 0
    ensures Starts(counts, b)[b] == Starts(counts, b - 1)[b - 1] + if b <= 256 then counts[b - 1] else 0
  {
  }

  /** Occurrences of each byte (bsdiff.c:126-127). */
  method CountBytes(s: seq<Byte>) returns (buckets: array<int>)
    ensures fresh(buckets) && buckets.Length == 256
    ensures forall c :: 0 <= c < 256 ==> buckets[c] == multiset(s)[c]
  {
    buckets := new int[256];
    for i := 0 to 256
      invariant forall c :: 0 <= c < i ==> buckets[c] == 0
    {
      buckets[i] := 0;
    }
    for i := 0 to |s|
      invariant forall c :: 0 <= c < 256 ==> buckets[c] == multiset(s[..i])[c]
    {
      assert s[..i + 1] == s[..i] + [s[i]];
      buckets[s[i]] := buckets[s[i]] + 1;
    }
    assert s[..|s|] == s;
  }

  /** Turns counts into the slot before each bucket (bsdiff.c:128-130). */
  method Accumulate(buckets: array<int>, ghost L: seq<int>)
    requires buckets.Length == 256 && |L| == 257 && L[0] == 0
    requires forall c :: 0 <= c < 256 ==> L[c + 1] == L[c] + buckets[c]
    modifies buckets
    ensures forall c :: 0 <= c < 256 ==> buckets[c] == L[c]
  {
    ghost var B := buckets[..];
    var i := 1;
    assert L[1] == L[0] + B[0];
    while i < 256
      invariant 1 <= i <= 256
      invariant forall c :: 0 <= c < i ==> buckets[c] == L[c + 1]
      invariant forall c :: i <= c < 256 ==> buckets[c] == B[c]
    {
      assert L[i + 1] == L[i] + B[i];
      buckets[i] := buckets[i] + buckets[i - 1];
      i := i + 1;
    }
    i := 255;
    while i > 0
      invariant 0 <= i <= 255
      invariant forall c :: i < c < 256 ==> buckets[c] == L[c]
      invariant forall c :: 0 <= c <= i ==> buckets[c] == L[c + 1]
    {
      buckets[i] := buckets[i - 1];
      i := i - 1;
    }
    buckets[0] := 0;
  }

  /** Bucket c ends where the bytes c among the first i fill it. */
  ghost predicate Ends(s: seq<Byte>, L: seq<int>, ends: seq<int>, i: int)
  {
    && |L| == 257 && |ends| == 256 && 0 <= i <= |s|
    && (forall c :: 0 <= c < 256 ==> 0 <= L[c] <= ends[c] <= |s| && ends[c] == L[c] + multiset(s[..i])[c])
  }

  /** Slots L[c]+1 .. ends[c] of I hold increasing positions below i whose byte is c. */
  ghost predicate Holding(s: seq<Byte>, L: seq<int>, ends: seq<int>, I: seq<int>, i: int)
  {
    && |L| == 257 && |ends| == 256 && |I| == |s| + 1 && 0 <= i <= |s|
    && (forall c :: 0 <= c < 256 ==> 0 <= L[c] <= ends[c] <= |s|)
    && (forall c, m :: 0 <= c < 256 && L[c] < m <= ends[c] ==> 0 <= I[m] < i && s[I[m]] == c)
    && (forall c, m, m' :: 0 <= c < 256 && L[c] < m < m' <= ends[c] ==> I[m] < I[m'])
  }

  ghost predicate Dealt(s: seq<Byte>, L: seq<int>, ends: seq<int>, I: seq<int>, i: int)
  {
    Ends(s, L, ends, i) && Holding(s, L, ends, I, i)
  }

  lemma PrefixCount(s: seq<Byte>, i: nat)
    requires i < |s|
    ensures multiset(s[..i])[s[i]] < multiset(s)[s[i]]
    ensures multiset(s[..i + 1]) == multiset(s[..i]) + multiset{s[i]}
  {
    assert s == s[..i] + s[i..];
    assert s[i..][0] == s[i];
    assert s[..i + 1] == s[..i] + [s[i]];
  }

  /** Dealing position i into its bucket. */
  lemma DealOne(s: seq<Byte>, L: seq<int>, ends: seq<int>, I: seq<int>, i: nat)
    requires i < |s| && L == Slots(s) && Dealt(s, L, ends, I, i)
    ensures 0 <= ends[s[i]] + 1 < |I|
    ensures Dealt(s, L, ends[s[i] := ends[s[i]] + 1], I[ends[s[i]] + 1 := i], i + 1)
  {
    EndsOne(s, L, ends, i);
    hide Ends;
    HoldOne(s, L, ends, I, i);
  }

  lemma EndsOne(s: seq<Byte>, L: seq<int>, ends: seq<int>, i: nat)
    requires i < |s| && L == Slots(s) && Ends(s, L, ends, i)
    ensures 0 <= ends[s[i]] + 1 <= |s| && Ends(s, L, ends[s[i] := ends[s[i]] + 1], i + 1)
    ensures forall c :: 0 <= c < 256 && c != s[i] ==> !(L[c] < ends[s[i]] + 1 <= ends[c])
  {
    var x := s[i];
    PrefixCount(s, i);
    RoomLeft(s, L, x);
    forall c | 0 <= c < 256 && c != x
      ensures !(L[c] < ends[x] + 1 <= ends[c])
    {
      CountAtMost(s, i, c);
      RoomLeft(s, L, c);
      SlotsGap(s, L, c, x);
    }
    hide Slots;
    EndsGrow(s, L, ends, i);
  }

  lemma EndsGrow(s: seq<Byte>, L: seq<int>, ends: seq<int>, i: nat)
    requires i < |s| && Ends(s, L, ends, i) && ends[s[i]] < |s|
    ensures Ends(s, L, ends[s[i] := ends[s[i]] + 1], i + 1)
  {
    PrefixCount(s, i);
    var x := s[i];
    forall c: Byte
      ensures multiset(s[..i + 1])[c] == multiset(s[..i])[c] + if c == x then 1 else 0
    {
    }
  }

  lemma RoomLeft(s: seq<Byte>, L: seq<int>, c: Byte)
    requires L == Slots(s)
    ensures L[c + 1] == L[c] + multiset(s)[c] <= |s|
  {
    assert L[c + 1] <= L[256];
  }

  lemma HoldOne(s: seq<Byte>, L: seq<int>, ends: seq<int>, I: seq<int>, i: nat)
    requires i < |s| && Holding(s, L, ends, I, i) && 0 <= ends[s[i]] + 1 <= |s|
    requires forall c :: 0 <= c < 256 && c != s[i] ==> !(L[c] < ends[s[i]] + 1 <= ends[c])
    ensures Holding(s, L, ends[s[i] := ends[s[i]] + 1], I[ends[s[i]] + 1 := i], i + 1)
  {
  }

  lemma CountAtMost(s: seq<Byte>, i: nat, c: Byte)
    requires i <= |s|
    ensures multiset(s[..i])[c] <= multiset(s)[c]
  {
    assert s == s[..i] + s[i..];
  }

  lemma NothingDealt(s: seq<Byte>, L: seq<int>, ends: seq<int>, I: seq<int>)
    requires L == Slots(s) && ends == L[..256] && |I| == |s| + 1
    ensures Dealt(s, L, ends, I, 0)
  {
    assert s[..0] == [];
    assert forall c :: 0 <= c <= 256 ==> L[0] <= L[c] <= L[256];
  }

  /** Deals every position into its bucket (bsdiff.c:132). */
  method Distribute(I: array<int>, s: seq<Byte>, buckets: array<int>, ghost L: seq<int>)
    requires I != buckets && I.Length == |s| + 1 && buckets.Length == 256 && L == Slots(s)
    requires forall c :: 0 <= c < 256 ==> buckets[c] == L[c]
    modifies I, buckets
    ensures Dealt(s, L, buckets[..], I[..], |s|)
  {
    assert buckets[..] == L[..256];
    NothingDealt(s, L, buckets[..], I[..]);
    hide Dealt, Slots;
    var i := 0;
    while i < |s|
      invariant 0 <= i <= |s| && Dealt(s, L, buckets[..], I[..], i)
    {
      DealOne(s, L, buckets[..], I[..], i);
      buckets[s[i]] := buckets[s[i]] + 1;
      I[buckets[s[i]]] := i;
      i := i + 1;
    }
  }

  /** Every slot belongs to the bucket of its position's byte. */
  ghost predicate InBucket(s: seq<Byte>, L: seq<int>, P: seq<int>)
  {
    && |L| == 257 && |P| == |s| + 1 && P[0] == |s|
    && (forall m :: 1 <= m <= |s| ==> 0 <= P[m] < |s| && L[s[P[m]]] < m <= L[s[P[m]] + 1])
  }

  lemma {:induction false} BucketOf(L: seq<int>, b: nat, m: int) returns (c: nat)
    requires b < |L| && L[0] < m <= L[b]
    ensures c < b && L[c] < m <= L[c + 1]
  {
    if m > L[b - 1] { c := b - 1; } else { c := BucketOf(L, b - 1, m); }
  }

  lemma AllDealt(s: seq<Byte>, L: seq<int>, ends: seq<int>, I: seq<int>)
    requires L == Slots(s) && Dealt(s, L, ends, I, |s|)
    ensures InBucket(s, L, I[0 := |s|]) && Perm(I[0 := |s|], |s|)
    ensures forall c :: 0 <= c < 256 ==> ends[c] == L[c + 1]
  {
    EndsFull(s, L, ends);
    hide Ends, Holding, InBucket;
    HoldingBuckets(s, L, ends, I);
    DealtDistinct(s, L, ends, I);
  }

  lemma HoldingBuckets(s: seq<Byte>, L: seq<int>, ends: seq<int>, I: seq<int>)
    requires Holding(s, L, ends, I, |s|) && L[0] == 0 && L[256] == |s| &&
             forall c :: 0 <= c < 256 ==> ends[c] == L[c + 1]
    ensures InBucket(s, L, I[0 := |s|])
  {
    forall m | 1 <= m <= |s|
      ensures 0 <= I[m] < |s| && L[s[I[m]]] < m <= L[s[I[m]] + 1]
    {
      var c := BucketOf(L, 256, m);
      assert L[c] < m <= ends[c] && s[I[m]] == c;
    }
  }

  lemma EndsFull(s: seq<Byte>, L: seq<int>, ends: seq<int>)
    requires L == Slots(s) && Ends(s, L, ends, |s|)
    ensures forall c :: 0 <= c < 256 ==> ends[c] == L[c + 1]
  {
    assert s[..|s|] == s;
    forall c | 0 <= c < 256
      ensures ends[c] == L[c + 1]
    {
      RoomLeft(s, L, c);
    }
  }

  lemma DealtDistinct(s: seq<Byte>, L: seq<int>, ends: seq<int>, I: seq<int>)
    requires Holding(s, L, ends, I, |s|) && InBucket(s, L, I[0 := |s|]) &&
             forall c :: 0 <= c < 256 ==> ends[c] == L[c + 1]
    ensures Perm(I[0 := |s|], |s|)
  {
    forall j, k | 1 <= j < k <= |s|
      ensures I[j] != I[k]
    {
      var c := s[I[0 := |s|][j]];
      if c == s[I[0 := |s|][k]] { assert L[c] < j < k <= ends[c]; }
    }
  }

  /** Ranks every position by the last slot of its bucket (bsdiff.c:134-135). */
  method InitialRanks(V: array<int>, s: seq<Byte>, buckets: array<int>, ghost L: seq<int>)
    requires V != buckets && V.Length == |s| + 1 && buckets.Length == 256 && |L| == 257
    requires forall c :: 0 <= c < 256 ==> buckets[c] == L[c + 1]
    modifies V
    ensures V[|s|] == 0 && forall x :: 0 <= x < |s| ==> V[x] == L[s[x] + 1]
  {
    for i := 0 to |s|
      invariant forall x :: 0 <= x < i ==> V[x] == L[s[x] + 1]
    {
      V[i] := buckets[s[i]];
    }
    V[|s|] := 0;
  }

  /** Marks the buckets of one, except that of byte 0, and the empty suffix (bsdiff.c:136-137). */
  method MarkSingles(I: array<int>, buckets: array<int>, ghost L: seq<int>)
    requires I != buckets && buckets.Length == 256 && |L| == 257 && 0 < I.Length && L[256] < I.Length
    requires forall i, j :: 0 <= i <= j <= 256 ==> 0 <= L[i] <= L[j]
    requires forall c :: 0 <= c < 256 ==> buckets[c] == L[c + 1]
    modifies I
    ensures I[0] == -1
    ensures forall m :: 0 < m < I.Length ==>
              I[m] == old(I[m]) || (I[m] == -1 && exists c :: 0 <= c < 256 && L[c] + 1 == m == L[c + 1])
  {
    var i := 1;
    while i < 256
      invariant 1 <= i <= 256
      invariant forall m :: 0 < m < I.Length ==>
                I[m] == old(I[m]) || (I[m] == -1 && exists c :: 0 <= c < 256 && L[c] + 1 == m == L[c + 1])
    {
      if buckets[i] == buckets[i - 1] + 1 {
        I[buckets[i]] := -1;
      }
      i := i + 1;
    }
    I[0] := -1;
  }

  /** V ranks positions by leading byte. */
  ghost predicate ByByte(s: seq<Byte>, L: seq<int>, V: seq<int>)
  {
    |L| == 257 && |V| == |s| + 1 && V[|s|] == 0 && forall x :: 0 <= x < |s| ==> V[x] == L[s[x] + 1]
  }

  lemma ByByteOrder(s: seq<Byte>, L: seq<int>, V: seq<int>, x: nat, y: nat)
    requires L == Slots(s) && ByByte(s, L, V) && x < |s| && y < |s|
    ensures 0 < V[x] <= |s|
    ensures V[x] < V[y] ==> s[x] < s[y]
    ensures V[x] == V[y] ==> s[x] == s[y]
  {
    assert s[x] in multiset(s) && s[y] in multiset(s);
    SlotsGap(s, L, s[x], s[y]);
  }

  /** Ranks by leading byte are sound, and complete to one byte. */
  lemma BucketRanks(s: seq<Byte>, L: seq<int>, V: seq<int>, P: seq<int>)
    requires L == Slots(s) && InBucket(s, L, P) && Perm(P, |s|)
    requires ByByte(s, L, V)
    ensures Ready(s, 1, V, P) && Blocks(V, P, 0, |P|)
  {
    hide InBucket;
    forall x, y | 0 <= x <= |s| && 0 <= y <= |s|
      ensures 0 <= V[x] <= |s|
      ensures V[x] < V[y] ==> Less(s, x, y)
      ensures V[x] == V[y] ==> Agree(s, x, y, 1)
    {
      if x < |s| && y < |s| {
        ByByteOrder(s, L, V, x, y);
        assert s[x..x + 1] == [s[x]] && s[y..y + 1] == [s[y]];
      } else if x < |s| {
        ByByteOrder(s, L, V, x, x);
      } else if y < |s| {
        ByByteOrder(s, L, V, y, y);
      }
    }
    BucketBlocks(s, L, V, P);
  }

  lemma SlotsGap(s: seq<Byte>, L: seq<int>, a: Byte, b: Byte)
    requires L == Slots(s)
    ensures a < b ==> L[a + 1] <= L[b]
    ensures b < a ==> L[b + 1] <= L[a]
    ensures a <= b ==> L[a] <= L[b]
  {
  }

  lemma BucketBlocks(s: seq<Byte>, L: seq<int>, V: seq<int>, P: seq<int>)
    requires L == Slots(s) && InBucket(s, L, P) && Perm(P, |s|)
    requires ByByte(s, L, V)
    ensures Blocks(V, P, 0, |P|)
  {
    forall m, m' | 1 <= m <= m' <= |s| && m' <= V[P[m]]
      ensures V[P[m']] == V[P[m]]
    {
      SlotsGap(s, L, s[P[m]], s[P[m']]);
    }
  }

  lemma SinglesCoded(s: seq<Byte>, L: seq<int>, V: seq<int>, P: seq<int>, I: seq<int>)
    requires L == Slots(s) && InBucket(s, L, P) && Perm(P, |s|) && |I| == |P|
    requires ByByte(s, L, V)
    requires I[0] == -1
    requires forall m :: 0 < m <= |s| ==>
              I[m] == P[m] || (I[m] == -1 && exists c :: 0 <= c < 256 && L[c] + 1 == m == L[c + 1])
    ensures Coded(I, V, P, 0, |P|, 1)
  {
    forall m | 0 <= m <= |s| && I[m] < 0
      ensures I[m] == -1 && Single(V, P, m)
    {
      SingleSlot(s, L, V, P, m);
    }
    OthersInReach(s, L, P);
    hide *;
    CodedSingles(I, V, P);
  }

  lemma OthersInReach(s: seq<Byte>, L: seq<int>, P: seq<int>)
    requires InBucket(s, L, P)
    ensures forall m :: 0 < m <= |s| ==> 0 <= P[m] && P[m] + 1 < |P|
  {
  }

  lemma CodedSingles(I: seq<int>, V: seq<int>, P: seq<int>)
    requires |I| == |V| == |P| && Perm(P, |P| - 1) && I[0] < 0
    requires forall m :: 0 <= m < |I| && I[m] < 0 ==> I[m] == -1 && Single(V, P, m)
    requires forall m :: 0 < m < |I| && I[m] >= 0 ==> I[m] == P[m] && P[m] + 1 < |P|
    ensures Coded(I, V, P, 0, |P|, 1)
  {
    hide Single;
  }

  lemma SingleSlot(s: seq<Byte>, L: seq<int>, V: seq<int>, P: seq<int>, m: nat)
    requires L == Slots(s) && InBucket(s, L, P) && Perm(P, |s|) && ByByte(s, L, V) && m <= |s|
    requires m == 0 || exists c :: 0 <= c < 256 && L[c] + 1 == m == L[c + 1]
    ensures Single(V, P, m)
  {
    if m > 0 {
      var c :| 0 <= c < 256 && L[c] + 1 == m == L[c + 1];
      SlotsGap(s, L, c, s[P[m]]);
      if m > 1 { SlotsGap(s, L, c, s[P[m - 1]]); }
    }
  }

  /** The counting sort as a whole (bsdiff.c:123-137). */
  method Deal(I: array<int>, V: array<int>, s: seq<Byte>) returns (ghost P: seq<int>)
    requires I != V && I.Length == V.Length == |s| + 1
    modifies I, V
    ensures PassStart(s, 1, I[..], V[..], P)
  {
    hide Dealt, Starts, InBucket;
    ghost var L := Slots(s);
    var buckets := CountBytes(s);
    Accumulate(buckets, L);
    Distribute(I, s, buckets, L);
    AllDealt(s, L, buckets[..], I[..]);
    I[0] := |s|;
    P := I[..];
    InitialRanks(V, s, buckets, L);
    MarkSingles(I, buckets, L);
    BucketRanks(s, L, V[..], P);
    SinglesCoded(s, L, V[..], P, I[..]);
  }

  /** Passes still to come: none once I is one run, one once I is all runs, else bounded by the step. */
  ghost function Measure(I: seq<int>, n: nat, h: nat): (r: int)
    requires |I| == n + 1
  {
    if I[0] == -(n + 1) then 0
    else if forall m :: 0 <= m <= n ==> I[m] < 0 then 1
    else n + 2 - h
  }

  /** A step longer than the text leaves no group of two. */
  lemma MeasureBounded(s: seq<Byte>, h: nat, I: seq<int>, V: seq<int>, P: seq<int>)
    requires PassStart(s, h, I, V, P)
    ensures |I| == |s| + 1
    ensures 0 <= Measure(I, |s|, h)
    ensures !(forall m :: 0 <= m <= |s| ==> I[m] < 0) ==> Measure(I, |s|, h) == |s| + 2 - h >= 2
  {
  }

  lemma AllSingle(s: seq<Byte>, h: nat, I: seq<int>, V: seq<int>, P: seq<int>)
    requires PassStart(s, h, I, V, P) && I[0] == -(|s| + 1)
    ensures Perm(P, |s|) && Sound(s, V) && |V| == |s| + 1 && forall m :: 0 <= m <= |s| ==> V[P[m]] == m
  {
    forall m | 0 <= m <= |s|
      ensures V[P[m]] == m
    {
      assert Single(V, P, m);
    }
  }

  /** Inverting final ranks gives the suffix array. */
  lemma RanksInvert(s: seq<Byte>, V: seq<int>, P: seq<int>, I: seq<int>)
    requires Perm(P, |s|) && Sound(s, V) && |I| == |V| == |s| + 1 && forall m :: 0 <= m <= |s| ==> V[P[m]] == m
    requires forall x :: 0 <= x <= |s| ==> 0 <= V[x] <= |s| && I[V[x]] == x
    ensures IsSuffixArray(s, I)
  {
    assert I == P by {
      forall m | 0 <= m <= |s|
        ensures I[m] == P[m]
      {
        assert I[V[P[m]]] == P[m];
      }
    }
    forall j, k | 0 <= j < k <= |s|
      ensures Less(s, I[j], I[k])
    {
      assert V[P[j]] < V[P[k]];
    }
  }

  /** Lists the positions by rank (bsdiff.c:156). */
  method InvertRanks(I: array<int>, V: array<int>, ghost s: seq<Byte>, ghost P: seq<int>)
    requires I != V && I.Length == V.Length == |s| + 1
    requires Perm(P, |s|) && Sound(s, V[..]) && forall m :: 0 <= m <= |s| ==> V[P[m]] == m
    modifies I
    ensures IsSuffixArray(s, I[..])
  {
    ghost var Q := Inverse(P, |s|);
    assert forall x :: 0 <= x <= |s| ==> V[x] == Q[x];
    var i := 0;
    while i < V.Length
      invariant 0 <= i <= V.Length
      invariant forall x :: 0 <= x < i ==> I[V[x]] == x
    {
      I[V[i]] := i;
      i := i + 1;
    }
    RanksInvert(s, V[..], P, I[..]);
  }

  /**
   qsufsort (bsdiff.c:121-157): for every byte string, terminates with I listing all its suffixes,
   the empty one included, in strictly increasing order.
   */
  method QSufSort(I: array<int>, V: array<int>, s: seq<Byte>)
    requires I != V && I.Length == V.Length == |s| + 1
    modifies I, V
    ensures IsSuffixArray(s, I[..])
  {
    hide PassStart, IsSuffixArray, Sound, Perm;
    ghost var P := Deal(I, V, s);
    var n, h := |s|, 1;
    while I[0] != -(n + 1)
      invariant h > 0 && PassStart(s, h, I[..], V[..], P)
      decreases Measure(I[..], n, h)
    {
      MeasureBounded(s, h, I[..], V[..], P);
      P := Pass(I, V, n, h, s, P);
      h := h + h;
      MeasureBounded(s, h, I[..], V[..], P);
    }
    AllSingle(s, h, I[..], V[..], P);
    InvertRanks(I, V, s, P);
  }
}
