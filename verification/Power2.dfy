/** The bit tricks of the hash table: rounding up to a power of two, and masking (Hash.c:35-46 and 156-158). */
module Power2 {

  function Pow2(k: nat): (r: nat)
    ensures r > 0
  {
    if k == 0 then 1 else 2 * Pow2(k - 1)
  }

  ghost predicate IsPow2(n: int)
  {
    exists k: nat :: n == Pow2(k)
  }

  /** The number whose bits these are, least significant first. */
  function Value(b: seq<bool>): (n: nat)
    ensures n < Pow2(|b|)
  {
    if b == [] then 0 else (if b[0] then 1 else 0) + 2 * Value(b[1..])
  }

  /** The low k bits of n. */
  function BitsOf(n: nat, k: nat): (b: seq<bool>)
    ensures |b| == k
  {
    if k == 0 then [] else [n % 2 == 1] + BitsOf(n / 2, k - 1)
  }

  lemma {:induction false} ValueOfBits(n: nat, k: nat)
    requires n < Pow2(k)
    ensures Value(BitsOf(n, k)) == n
  {
    if k > 0 {
      ValueOfBits(n / 2, k - 1);
      assert BitsOf(n, k)[1..] == BitsOf(n / 2, k - 1);
    }
  }

  /** v | (v >> d) */
  function OrShift(b: seq<bool>, d: nat): (r: seq<bool>)
    ensures |r| == |b|
  {
    seq(|b|, i requires 0 <= i < |b| => b[i] || (i + d < |b| && b[i + d]))
  }

  /** v & w */
  function And(b: seq<bool>, c: seq<bool>): (r: seq<bool>)
    requires |b| == |c|
    ensures |r| == |b|
  {
    seq(|b|, i requires 0 <= i < |b| => b[i] && c[i])
  }

  const WORD := 32

  /** The five or-and-shift steps. */
  function Smear(v: seq<bool>): (r: seq<bool>)
    ensures |r| == |v|
  {
    OrShift(OrShift(OrShift(OrShift(OrShift(v, 1), 2), 4), 8), 16)
  }

  /** roundUpPower2 on 32-bit unsigned integers. */
  function RoundUpPower2(val: nat): (r: nat)
    requires val < Pow2(WORD)
  {
    (Value(Smear(BitsOf((val - 1) % Pow2(WORD), WORD))) + 1) % Pow2(WORD)
  }

  /** Bit i of v is set when one of the bits i..i+w of b is. */
  ghost predicate Spread(b: seq<bool>, v: seq<bool>, w: nat)
  {
    |v| == |b| && forall i :: 0 <= i < |b| ==> (v[i] <==> exists j :: i <= j < |b| && j < i + w && b[j])
  }

  /** Each or-and-shift doubles how far a set bit has spread downwards. */
  lemma SpreadDoubles(b: seq<bool>, v: seq<bool>, w: nat)
    requires Spread(b, v, w) && w > 0
    ensures Spread(b, OrShift(v, w), 2 * w)
  {
    var r := OrShift(v, w);
    forall i | 0 <= i < |b|
      ensures r[i] <==> exists j :: i <= j < |b| && j < i + 2 * w && b[j]
    {
      if j :| i <= j < |b| && j < i + 2 * w && b[j] {
        if j < i + w { assert v[i]; } else { assert v[i + w]; }
      }
    }
  }

  lemma {:induction false} ValueOnes(b: seq<bool>, k: nat)
    requires k <= |b| && forall i :: 0 <= i < |b| ==> (b[i] <==> i < k)
    ensures Value(b) == Pow2(k) - 1
  {
    if k > 0 { ValueOnes(b[1..], k - 1); } else { ValueZero(b); }
  }

  lemma {:induction false} ValueZero(b: seq<bool>)
    requires forall i :: 0 <= i < |b| ==> !b[i]
    ensures Value(b) == 0
  {
    if b != [] { ValueZero(b[1..]); }
  }

  /** A number whose highest set bit is k - 1. */
  lemma {:induction false} ValueTop(b: seq<bool>, k: nat)
    requires k <= |b| && (forall i :: k <= i < |b| ==> !b[i]) && (k > 0 ==> b[k - 1])
    ensures Value(b) < Pow2(k) && (k > 0 ==> Pow2(k - 1) <= Value(b))
  {
    if k == 0 { ValueZero(b); }
    else if k == 1 { ValueZero(b[1..]); }
    else { ValueTop(b[1..], k - 1); }
  }

  lemma {:induction false} TopBit(b: seq<bool>) returns (k: nat)
    ensures k <= |b| && (forall i :: k <= i < |b| ==> !b[i]) && (k > 0 ==> b[k - 1])
  {
    if b == [] {
      k := 0;
    } else if b[|b| - 1] {
      k := |b|;
    } else {
      k := TopBit(b[..|b| - 1]);
    }
  }

  lemma Pow2Grows(j: nat, k: nat)
    requires j <= k
    ensures Pow2(j) <= Pow2(k)
  {
    if j < k { Pow2Grows(j, k - 1); }
  }

  /** Within range, the result is the least power of two not below val. */
  lemma RoundUpIsLeast(val: nat)
    requires 1 <= val <= Pow2(WORD - 1)
    ensures val < Pow2(WORD) && IsPow2(RoundUpPower2(val)) && val <= RoundUpPower2(val) < 2 * val
  {
    hide Smear, BitsOf, Value, Pow2;
    var n := val - 1;
    Pow2Doubles(WORD - 1);
    SmallMod(n, Pow2(WORD));
    var b := BitsOf(n, WORD);
    ValueOfBits(n, WORD);
    var k := TopBit(b);
    ValueTop(b, k);
    assert k > 0 ==> Pow2(k - 1) <= n;
    SmearFills(b, k);
    ValueOnes(Smear(b), k);
    Pow2Grows(k, WORD - 1);
    SmallMod(Pow2(k), Pow2(WORD));
    if k > 0 { Pow2Doubles(k - 1); } else { Pow2Zero(); }
  }

  lemma Pow2Doubles(k: nat)
    ensures Pow2(k + 1) == 2 * Pow2(k)
  {
  }

  lemma Pow2Zero()
    ensures Pow2(0) == 1
  {
  }

  lemma SmallMod(x: nat, d: nat)
    requires x < d
    ensures x % d == x
  {
  }

  /** Once smeared, every bit below the top one is set. */
  lemma SmearFills(b: seq<bool>, k: nat)
    requires |b| == WORD && k <= |b| && (forall i :: k <= i < |b| ==> !b[i]) && (k > 0 ==> b[k - 1])
    ensures forall i :: 0 <= i < WORD ==> (Smear(b)[i] <==> i < k)
  {
    hide OrShift;
    var v1 := OrShift(b, 1);
    var v2 := OrShift(v1, 2);
    var v4 := OrShift(v2, 4);
    var v8 := OrShift(v4, 8);
    assert Spread(b, b, 1);
    SpreadDoubles(b, b, 1);
    SpreadDoubles(b, v1, 2);
    SpreadDoubles(b, v2, 4);
    SpreadDoubles(b, v4, 8);
    SpreadDoubles(b, v8, 16);
    assert Spread(b, Smear(b), 32);
  }

  lemma Pow2Strict(j: nat, k: nat)
    ensures j < k ==> Pow2(j) < Pow2(k)
  {
    if j < k {
      Pow2Grows(j + 1, k);
      Pow2Doubles(j);
    }
  }

  /** Masking with size - 1 is the remainder by size, for a power of two. */
  lemma MaskIsMod(x: nat, k: nat)
    requires x < Pow2(WORD) && k <= WORD
    ensures Pow2(k) - 1 < Pow2(WORD)
    ensures Value(And(BitsOf(x, WORD), BitsOf(Pow2(k) - 1, WORD))) == x % Pow2(k)
  {
    Pow2Grows(k, WORD);
    MaskBits(x, k, WORD);
  }

  lemma {:induction false} MaskBits(x: nat, k: nat, w: nat)
    requires x < Pow2(w) && k <= w
    ensures Value(And(BitsOf(x, w), BitsOf(Pow2(k) - 1, w))) == x % Pow2(k)
    decreases w
  {
    hide And, BitsOf, Value, Pow2;
    if k == 0 {
      Pow2Zero();
      MaskNone(x, w);
    } else {
      var p := Pow2(k - 1);
      Pow2Doubles(k - 1);
      Pow2Doubles(w - 1);
      MaskBits(x / 2, k - 1, w - 1);
      OddMask(p);
      AndTail(x, 2 * p - 1, w);
      MaskStep(Value(And(BitsOf(x, w), BitsOf(2 * p - 1, w))), Value(And(BitsOf(x / 2, w - 1), BitsOf(p - 1, w - 1))),
          x, p);
    }
  }

  lemma MaskNone(x: nat, w: nat)
    ensures Value(And(BitsOf(x, w), BitsOf(0, w))) == 0
  {
    ZeroBits(w);
    ValueZero(And(BitsOf(x, w), BitsOf(0, w)));
  }

  lemma MaskStep(v: nat, half: nat, x: nat, p: nat)
    requires p > 0 && v == (if x % 2 == 1 then 1 else 0) + 2 * half && half == (x / 2) % p
    ensures v == x % (2 * p)
  {
    HalveMod(x, p);
  }

  lemma OddMask(p: nat)
    requires p > 0
    ensures (2 * p - 1) / 2 == p - 1 && (2 * p - 1) % 2 == 1
  {
  }

  /** The lowest bit and the rest of a bitwise and. */
  lemma AndTail(x: nat, y: nat, w: nat)
    requires w > 0
    ensures Value(And(BitsOf(x, w), BitsOf(y, w))) ==
            (if x % 2 == 1 && y % 2 == 1 then 1 else 0) + 2 * Value(And(BitsOf(x / 2, w - 1), BitsOf(y / 2, w - 1)))
  {
    var r := And(BitsOf(x, w), BitsOf(y, w));
    assert r[0] == (x % 2 == 1 && y % 2 == 1);
    assert r[1..] == And(BitsOf(x / 2, w - 1), BitsOf(y / 2, w - 1));
  }

  lemma HalveMod(x: nat, p: nat)
    requires p > 0
    ensures x % (2 * p) == x % 2 + 2 * ((x / 2) % p)
  {
    var q, r := (x / 2) / p, (x / 2) % p;
    assert x / 2 == p * q + r;
    assert x == (2 * p) * q + (2 * r + x % 2);
    RemainderIs(x, 2 * p, q, 2 * r + x % 2);
  }

  lemma RemainderIs(x: nat, d: nat, q: nat, r: nat)
    requires d > 0 && x == d * q + r && r < d
    ensures x % d == r
  {
    Distribute(d, q, x / d);
    SmallMultiple(d, q - x / d);
  }

  lemma Distribute(d: int, a: int, b: int)
    ensures d * a - d * b == d * (a - b)
  {
  }

  lemma SmallMultiple(d: int, m: int)
    requires d > 0 && -d < d * m < d
    ensures m == 0
  {
    assert m >= 1 ==> d * m >= d * 1;
    assert m <= -1 ==> d * m <= d * -1;
  }

  lemma {:induction false} ZeroBits(w: nat)
    ensures forall i :: 0 <= i < w ==> !BitsOf(0, w)[i]
  {
    if w > 0 { ZeroBits(w - 1); }
  }
}
