/**
 The order on the suffixes of a byte string, and the order-theoretic facts the
 suffix sorter relies on.  A position p stands for the suffix s[p..]; position
 |s| stands for the empty suffix, which comes before all others.
 */
module SuffixOrder {
  import opened Bytes

  /** Suffix p comes strictly before suffix q in byte order, a proper prefix coming first. */
  ghost predicate Less(s: seq<Byte>, p: int, q: int)
    decreases |s| - p
  {
    && 0 <= p <= |s| && 0 <= q < |s|
    && (p == |s| || s[p] < s[q] || (s[p] == s[q] && Less(s, p + 1, q + 1)))
  }

  /** Suffixes p and q share their first h bytes. */
  ghost predicate Agree(s: seq<Byte>, p: int, q: int, h: int)
  {
    || p == q
    || (0 <= p <= p + h <= |s| && 0 <= q <= q + h <= |s| && s[p..p + h] == s[q..q + h])
  }

  /** p is a permutation of 0..n, both ends included. */
  ghost predicate Perm(P: seq<int>, n: int)
  {
    && 0 <= n && |P| == n + 1
    && (forall k :: 0 <= k <= n ==> 0 <= P[k] <= n)
    && (forall j, k :: 0 <= j < k <= n ==> P[j] != P[k])
  }

  /** I lists every suffix of s exactly once, in strictly increasing order. */
  ghost predicate IsSuffixArray(s: seq<Byte>, I: seq<int>)
  {
    Perm(I, |s|) && forall j, k :: 0 <= j < k <= |s| ==> Less(s, I[j], I[k])
  }

  lemma {:induction false} AgreeThenLess(s: seq<Byte>, p: int, q: int, h: nat)
    requires p != q && Agree(s, p, q, h) && Less(s, p + h, q + h)
    ensures Less(s, p, q)
    decreases h
  {
    if h > 0 {
      assert s[p] == s[p..p + h][0] && s[q] == s[q..q + h][0];
      assert s[p + 1..p + h] == s[p..p + h][1..] && s[q + 1..q + h] == s[q..q + h][1..];
      AgreeThenLess(s, p + 1, q + 1, h - 1);
    }
  }

  lemma AgreeCompose(s: seq<Byte>, p: int, q: int, h: nat, g: nat)
    requires p != q && Agree(s, p, q, h) && Agree(s, p + h, q + h, g)
    ensures Agree(s, p, q, h + g)
  {
    assert s[p..p + h + g] == s[p..p + h] + s[p + h..p + h + g];
    assert s[q..q + h + g] == s[q..q + h] + s[q + h..q + h + g];
  }

  lemma AgreeStep(s: seq<Byte>, p: int, q: int, g: nat)
    requires 0 <= p < |s| && 0 <= q < |s| && p != q && s[p] == s[q] && Agree(s, p + 1, q + 1, g)
    ensures Agree(s, p, q, g + 1)
  {
    assert s[p..p + 1] == [s[p]] && s[q..q + 1] == [s[q]];
    AgreeCompose(s, p, q, 1, g);
  }

  /** Less is the lexicographic order: the suffixes differ after a common prefix, or p runs out first. */
  lemma {:induction false} LessIsLexicographic(s: seq<Byte>, p: int, q: int)
    requires 0 <= p <= |s| && 0 <= q <= |s|
    ensures Less(s, p, q) <==>
            exists k: nat :: Agree(s, p, q, k) && q + k < |s| && p != q && p + k <= |s| &&
                (p + k == |s| || s[p + k] < s[q + k])
    decreases |s| - p
  {
    if Less(s, p, q) {
      LessIrreflexive(s, p);
      var k := FirstDifference(s, p, q);
    } else if k: nat :|
        Agree(s, p, q, k) && q + k < |s| && p != q && p + k <= |s| && (p + k == |s| || s[p + k] < s[q + k]) {
      AgreeThenLess(s, p, q, k);
    }
  }

  lemma {:induction false} LessIrreflexive(s: seq<Byte>, p: int)
    ensures !Less(s, p, p)
    decreases |s| - p
  {
    if 0 <= p < |s| { LessIrreflexive(s, p + 1); }
  }

  lemma {:induction false} FirstDifference(s: seq<Byte>, p: int, q: int) returns (k: nat)
    requires Less(s, p, q) && p != q
    ensures Agree(s, p, q, k) && q + k < |s| && p + k <= |s| && (p + k == |s| || s[p + k] < s[q + k])
    decreases |s| - p
  {
    if p == |s| || s[p] < s[q] {
      k := 0;
    } else {
      hide Agree;
      var k' := FirstDifference(s, p + 1, q + 1);
      k := k' + 1;
      AgreeStep(s, p, q, k');
    }
  }

  /** A permutation of 0..n has an inverse. */
  lemma Inverse(P: seq<int>, n: int) returns (Q: seq<int>)
    requires Perm(P, n)
    ensures |Q| == n + 1
    ensures forall x :: 0 <= x <= n ==> 0 <= Q[x] <= n && P[Q[x]] == x
  {
    Onto(P, n);
    Q := seq(n + 1, x requires 0 <= x <= n => assert x in P; var k :| 0 <= k <= n && P[k] == x; k);
  }

  /** Pigeonhole: n + 1 distinct numbers between 0 and n leave none out. */
  lemma Onto(P: seq<int>, n: int)
    requires Perm(P, n)
    ensures forall x :: 0 <= x <= n ==> x in P
  {
    var hit := set x | x in P;
    DistinctSize(P);
    hide Below;
    forall x | 0 <= x <= n
      ensures x in P
    {
      var others := Below(n + 1) - {x};
      if hit <= others { SubsetSize(hit, others); }
    }
  }

  ghost function Below(n: nat): (r: set<int>)
    ensures |r| == n && forall x :: x in r <==> 0 <= x < n
  {
    if n == 0 then {} else Below(n - 1) + {n - 1}
  }

  lemma SubsetSize(a: set<int>, b: set<int>)
    requires a <= b
    ensures |a| <= |b|
  {
    assert b == a + (b - a);
  }

  lemma {:induction false} DistinctSize(P: seq<int>)
    requires forall j, k :: 0 <= j < k < |P| ==> P[j] != P[k]
    ensures |set x | x in P| == |P|
  {
    if P != [] {
      var init := P[..|P| - 1];
      DistinctSize(init);
      assert (set x | x in P) == (set x | x in init) + {P[|P| - 1]};
    }
  }
}
