/**
 Counting arguments behind the three-way partition of split.  A colour is 0, 1 or 2
 according to whether a key is below, equal to or above the pivot.
 */
module Tricolour {

  /** Where lo..hi holds only c, c occurs hi - lo times at least, and once more for each further place. */
  lemma Crowded(C: seq<int>, c: int, lo: nat, hi: nat, i: nat)
    requires lo <= hi <= |C| && (forall m :: lo <= m < hi ==> C[m] == c)
    requires i < |C| && !(lo <= i < hi) && C[i] == c
    ensures multiset(C)[c] > hi - lo
  {
    var a, b, d := C[..lo], C[lo..hi], C[hi..];
    assert C == a + b + d;
    Uniform(b, c);
    if i < lo { assert a[i] in a; } else { assert d[i - hi] in d; }
  }

  lemma {:induction false} Uniform(C: seq<int>, c: int)
    requires forall m :: 0 <= m < |C| ==> C[m] == c
    ensures multiset(C)[c] == |C|
  {
    if C != [] {
      Uniform(C[1..], c);
      assert C == [C[0]] + C[1..];
    }
  }

  /** Once lo..hi holds every c, no other place does. */
  lemma Exhausted(C: seq<int>, c: int, lo: nat, hi: nat)
    requires lo <= hi <= |C| && (forall m :: lo <= m < hi ==> C[m] == c) && multiset(C)[c] <= hi - lo
    ensures forall m :: 0 <= m < |C| && !(lo <= m < hi) ==> C[m] != c
  {
    forall m | 0 <= m < |C| && !(lo <= m < hi)
      ensures C[m] != c
    {
      if C[m] == c { Crowded(C, c, lo, hi, m); }
    }
  }
}
