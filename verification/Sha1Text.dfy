/** SHA-1 digests as text (ParseSha1 and FindMatchingPatch, applypatch.c:358-398). */
module Sha1Text {
  import opened Bytes
  import opened Wrappers

  const SHA_DIGEST_SIZE := 20

  predicate IsHex(c: char)
  {
    '0' <= c <= '9' || 'a' <= c <= 'f' || 'A' <= c <= 'F'
  }

  function HexValue(c: char): (d: int)
    requires IsHex(c)
    ensures 0 <= d < 16
  {
    if '0' <= c <= '9' then (c - '0') as int
    else if 'a' <= c <= 'f' then (c - 'a') as int + 10
    else (c - 'A') as int + 10
  }

  predicate IsSha1Text(s: string)
  {
    |s| == 2 * SHA_DIGEST_SIZE && forall i :: 0 <= i < |s| ==> IsHex(s[i])
  }

  /** The digest a text spells: exactly forty hex digits and nothing after them. */
  function Parse(s: string): (r: Option<seq<Byte>>)
    ensures r.Some? ==> |r.value| == SHA_DIGEST_SIZE
  {
    if IsSha1Text(s) then
      Some(seq<Byte>(SHA_DIGEST_SIZE,
          i requires 0 <= i < SHA_DIGEST_SIZE => 16 * HexValue(s[2 * i]) + HexValue(s[2 * i + 1])))
    else None
  }

  /** ParseSha1, digit by digit; the end of the string reads as a character that is no digit. */
  method ParseSha1(s: string) returns (r: Option<seq<Byte>>)
    ensures r == Parse(s)
  {
    var digest: seq<Byte> := [];
    var high := 0;
    var i := 0;
    while i < SHA_DIGEST_SIZE * 2
      invariant 0 <= i <= SHA_DIGEST_SIZE * 2 && i <= |s| && |digest| == i / 2
      invariant forall k :: 0 <= k < i ==> IsHex(s[k])
      invariant forall k :: 0 <= k < |digest| ==> digest[k] == 16 * HexValue(s[2 * k]) + HexValue(s[2 * k + 1])
      invariant i % 2 == 1 ==> high == 16 * HexValue(s[i - 1])
    {
      if i == |s| || !IsHex(s[i]) { return None; }
      if i % 2 == 0 {
        high := 16 * HexValue(s[i]);
      } else {
        digest := digest + [high + HexValue(s[i])];
      }
      i := i + 1;
    }
    if |s| != i { return None; }
    assert digest == Parse(s).value;
    return Some(digest);
  }

  function HexDigit(d: int): (c: char)
    requires 0 <= d < 16
    ensures IsHex(c) && HexValue(c) == d
  {
    if d < 10 then '0' + d as char else 'a' + (d - 10) as char
  }

  function ToText(digest: seq<Byte>): (s: string)
    ensures |s| == 2 * |digest| && forall i :: 0 <= i < |s| ==> IsHex(s[i])
  {
    seq(2 * |digest|, i requires 0 <= i < 2 * |digest| =>
      if i % 2 == 0 then HexDigit(digest[i / 2] / 16) else HexDigit(digest[i / 2] % 16))
  }

  lemma TextDigits(digest: seq<Byte>, i: nat)
    requires i < |digest|
    ensures ToText(digest)[2 * i] == HexDigit(digest[i] / 16) && ToText(digest)[2 * i + 1] == HexDigit(digest[i] % 16)
  {
    assert (2 * i) / 2 == i && (2 * i + 1) / 2 == i && (2 * i) % 2 == 0 && (2 * i + 1) % 2 == 1;
  }

  /** Every digest has a text that parses to it. */
  lemma ParseText(digest: seq<Byte>)
    requires |digest| == SHA_DIGEST_SIZE
    ensures Parse(ToText(digest)) == Some(digest)
  {
    hide ToText, IsHex, HexValue, HexDigit;
    var s := ToText(digest);
    var d := Parse(s).value;
    forall i | 0 <= i < SHA_DIGEST_SIZE
      ensures d[i] == digest[i]
    {
      TextDigits(digest, i);
      assert d[i] == 16 * HexValue(s[2 * i]) + HexValue(s[2 * i + 1]);
    }
    assert d == digest;
  }

  const DIGITS := "0123456789abcdef"

  function Lower(c: char): (l: char)
  {
    if 'A' <= c <= 'F' then 'a' + (c - 'A') else c
  }

  /** One of sixteen characters, in either case. */
  predicate IsDigit(c: char)
  {
    Lower(c) in DIGITS
  }

  /** The high half of b is the place of the first character among the digits, its low half that of the second. */
  predicate Spells(b: Byte, high: char, low: char)
  {
    DIGITS[b / 16] == Lower(high) && DIGITS[b % 16] == Lower(low)
  }

  lemma DigitPlace(c: char)
    ensures IsHex(c) <==> IsDigit(c)
    ensures |DIGITS| == 16 && (IsHex(c) ==> DIGITS[HexValue(c)] == Lower(c))
  {
    if IsHex(c) { assert DIGITS[HexValue(c)] == Lower(c); }
  }

  lemma PairSpells(high: char, low: char)
    requires IsHex(high) && IsHex(low)
    ensures Spells(16 * HexValue(high) + HexValue(low), high, low)
  {
    hide IsHex, HexValue, Lower, DIGITS;
    DigitPlace(high);
    DigitPlace(low);
    SpellsHalves(HexValue(high), HexValue(low), high, low);
  }

  lemma SpellsHalves(h: int, l: int, high: char, low: char)
    requires 0 <= h < |DIGITS| == 16 && 0 <= l < 16 && DIGITS[h] == Lower(high) && DIGITS[l] == Lower(low)
    ensures Spells(16 * h + l, high, low)
  {
    hide DIGITS, Lower;
    assert (16 * h + l) / 16 == h && (16 * h + l) % 16 == l;
  }

  /** A text is read exactly if it is forty digits, and each byte is what its two digits spell. */
  lemma DigestDigits(s: string)
    ensures Parse(s).Some? <==> |s| == 40 && forall i :: 0 <= i < 40 ==> IsDigit(s[i])
    ensures Parse(s).Some? ==> forall k :: 0 <= k < 20 ==> Spells(Parse(s).value[k], s[2 * k], s[2 * k + 1])
  {
    hide IsHex, HexValue, IsDigit, Spells;
    forall i | 0 <= i < |s|
      ensures IsHex(s[i]) <==> IsDigit(s[i])
    {
      DigitPlace(s[i]);
    }
    if Parse(s).Some? {
      forall k | 0 <= k < 20
        ensures Spells(Parse(s).value[k], s[2 * k], s[2 * k + 1])
      {
        PairSpells(s[2 * k], s[2 * k + 1]);
        assert Parse(s).value[k] == 16 * HexValue(s[2 * k]) + HexValue(s[2 * k + 1]);
      }
    }
  }

  /** Contrary to the comment above ParseSha1, a digest followed by anything is refused. */
  lemma SuffixRefused(digest: seq<Byte>, rest: string)
    requires |digest| == SHA_DIGEST_SIZE && rest != ""
    ensures Parse(ToText(digest) + rest) == None
  {
  }

  /** Some text in the list spells this digest. */
  ghost predicate Accepted(sha1: seq<Byte>, texts: seq<string>)
  {
    exists i :: 0 <= i < |texts| && Parse(texts[i]) == Some(sha1)
  }

  /** FindMatchingPatch: the first text that spells sha1, or -1. */
  method FindMatchingPatch(sha1: seq<Byte>, texts: seq<string>) returns (r: int)
    ensures -1 <= r < |texts| && (r >= 0 <==> Accepted(sha1, texts))
    ensures r >= 0 ==> Parse(texts[r]) == Some(sha1) && forall i :: 0 <= i < r ==> Parse(texts[i]) != Some(sha1)
  {
    var i := 0;
    while i < |texts|
      invariant 0 <= i <= |texts|
      invariant forall k :: 0 <= k < i ==> Parse(texts[k]) != Some(sha1)
    {
      var p := ParseSha1(texts[i]);
      if p == Some(sha1) { return i; }
      i := i + 1;
    }
    return -1;
  }
}
