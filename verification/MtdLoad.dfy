/**
 LoadMTDContents (applypatch.c:101-259): finding how much of a partition is the file, by trying the given
 (size, digest) pairs in order of increasing size with one running digest.
 */
module MtdLoad {
  import opened Bytes
  import opened Wrappers
  import opened Sha1Text

  /** A pair from the file name. */
  datatype Expected = Expected(size: nat, sha1: string)

  /** index is what qsort makes of 0..n: every pair once, sizes never decreasing, equal sizes in any order. */
  ghost predicate SortedIndex(index: seq<nat>, pairs: seq<Expected>)
  {
    && (forall k :: 0 <= k < |index| ==> index[k] < |pairs|)
    && (forall i :: 0 <= i < |pairs| ==> i in index)
    && (forall k, l :: 0 <= k <= l < |index| ==> pairs[index[k]].size <= pairs[index[l]].size)
  }

  /** The partition starts with a file of that size and digest. */
  predicate Matches(data: seq<Byte>, e: Expected, sha: seq<Byte> -> seq<Byte>)
  {
    e.size <= |data| && Parse(e.sha1) == Some(sha(data[..e.size]))
  }

  /** n is the size of a matching pair, and no smaller pair matches. */
  ghost predicate SmallestMatch(data: seq<Byte>, pairs: seq<Expected>, sha: seq<Byte> -> seq<Byte>, n: nat)
  {
    && (exists i :: 0 <= i < |pairs| && pairs[i].size == n && Matches(data, pairs[i], sha))
    && (forall i :: 0 <= i < |pairs| && pairs[i].size < n ==> !Matches(data, pairs[i], sha))
  }

  ghost predicate AllParse(pairs: seq<Expected>)
  {
    forall i :: 0 <= i < |pairs| ==> Parse(pairs[i].sha1).Some?
  }

  /**
   The loop (applypatch.c:143-241) over a partition that reads as data.  What it loads is the smallest matching
   prefix; when all digests are well-formed and no size is zero, it loads something exactly when a pair matches.
   */
  method LoadContents(data: seq<Byte>, pairs: seq<Expected>, index: seq<nat>, sha: seq<Byte> -> seq<Byte>)
    returns (r: Option<seq<Byte>>)
    requires SortedIndex(index, pairs)
    ensures r.Some? ==> r.value <= data && SmallestMatch(data, pairs, sha, |r.value|)
    ensures AllParse(pairs) && (forall i :: 0 <= i < |pairs| ==> pairs[i].size > 0) ==>
              (r.Some? <==> exists i :: 0 <= i < |pairs| && Matches(data, pairs[i], sha))
  {
    var i := 0;
    while i < |pairs|
      invariant i <= |pairs| && forall k :: 0 <= k < i ==> pairs[k].size > 0
    {
      if pairs[i].size == 0 {
        return None;
      }
      i := i + 1;
    }
    var file: seq<Byte> := [];
    i := 0;
    while i < |index|
      invariant i <= |index| && |file| <= |data| && file == data[..|file|]
      invariant file == [] || (i > 0 && |file| == pairs[index[i - 1]].size)
      invariant forall k :: 0 <= k < i ==> !Matches(data, pairs[index[k]], sha)
    {
      var e := pairs[index[i]];
      assert |file| <= e.size;
      var next := e.size - |file|;
      if next > |data| - |file| {
        TooLong(data, pairs, index, sha, i);
        return None; // short read
      }
      file := file + data[|file|..|file| + next];
      assert file == data[..e.size];
      var parsed := ParseSha1(e.sha1);
      if parsed.None? {
        return None;
      }
      if sha(file) == parsed.value {
        assert Matches(data, e, sha);
        SmallerComeFirst(pairs, index, i);
        return Some(file);
      }
      i := i + 1;
    }
    NoneLeft(data, pairs, index, sha);
    r := None;
  }

  lemma Increasing(pairs: seq<Expected>, index: seq<nat>, i: nat, k: nat)
    requires SortedIndex(index, pairs) && i < |index| && k < |index|
    ensures i <= k ==> pairs[index[i]].size <= pairs[index[k]].size
  {
  }

  lemma SmallerComeFirst(pairs: seq<Expected>, index: seq<nat>, i: nat)
    requires SortedIndex(index, pairs) && i < |index|
    ensures forall j :: 0 <= j < |pairs| && pairs[j].size < pairs[index[i]].size ==>
              exists k :: 0 <= k < i && index[k] == j
  {
    forall j | 0 <= j < |pairs| && pairs[j].size < pairs[index[i]].size
      ensures exists k :: 0 <= k < i && index[k] == j
    {
      assert j in index;
      var k :| 0 <= k < |index| && index[k] == j;
      Increasing(pairs, index, i, k);
    }
  }

  lemma TooLong(data: seq<Byte>, pairs: seq<Expected>, index: seq<nat>, sha: seq<Byte> -> seq<Byte>, i: nat)
    requires SortedIndex(index, pairs) && i < |index| && pairs[index[i]].size > |data|
    requires forall k :: 0 <= k < i ==> !Matches(data, pairs[index[k]], sha)
    ensures forall j :: 0 <= j < |pairs| ==> !Matches(data, pairs[j], sha)
  {
    SmallerComeFirst(pairs, index, i);
  }

  lemma NoneLeft(data: seq<Byte>, pairs: seq<Expected>, index: seq<nat>, sha: seq<Byte> -> seq<Byte>)
    requires SortedIndex(index, pairs)
    requires forall k :: 0 <= k < |index| ==> !Matches(data, pairs[index[k]], sha)
    ensures forall j :: 0 <= j < |pairs| ==> !Matches(data, pairs[j], sha)
  {
    forall j | 0 <= j < |pairs|
      ensures !Matches(data, pairs[j], sha)
    {
      assert j in index;
    }
  }
}
