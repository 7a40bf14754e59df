/**
 Fixed-width integers as the patch formats store them: two's complement little-endian
 (utils.c) and the sign-and-magnitude form of bsdiff (offtout in bsdiff.c, offtin in bspatch.c).
 */
module Codec {
  import opened Bytes

  function Pow256(k: nat): (r: nat)
    ensures r > 0
  {
    if k == 0 then 1 else 256 * Pow256(k - 1)
  }

  /** The k low bytes of n, least significant first. */
  function Le(n: nat, k: nat): (b: seq<Byte>)
    ensures |b| == k
  {
    if k == 0 then [] else [n % 256] + Le(n / 256, k - 1)
  }

  function LeValue(b: seq<Byte>): (n: nat)
    ensures n < Pow256(|b|)
  {
    if b == [] then 0 else b[0] + 256 * LeValue(b[1..])
  }

  lemma {:induction false} LeRoundTrip(n: nat, k: nat)
    requires n < Pow256(k)
    ensures LeValue(Le(n, k)) == n
  {
    if k > 0 {
      LeRoundTrip(n / 256, k - 1);
      assert Le(n, k)[1..] == Le(n / 256, k - 1);
    }
  }

  lemma {:induction false} LeInjective(a: seq<Byte>, b: seq<Byte>)
    requires |a| == |b| && LeValue(a) == LeValue(b)
    ensures a == b
  {
    if a != [] {
      LeInjective(a[1..], b[1..]);
      assert a == [a[0]] + a[1..] && b == [b[0]] + b[1..];
    }
  }

  lemma Widths()
    ensures Pow256(4) == 0x1_0000_0000 && Pow256(7) == 0x100_0000_0000_0000 && Pow256(8) == 0x1_0000_0000_0000_0000
  {
    assert Pow256(1) == 256 && Pow256(2) == 0x1_0000 && Pow256(3) == 0x100_0000;
    assert Pow256(4) == 0x1_0000_0000 && Pow256(5) == 0x100_0000_0000 && Pow256(6) == 0x1_0000_0000_0000;
  }

  /** The first byte is the least significant. */
  lemma Value2(a: Byte, b: Byte)
    ensures LeValue([a, b]) == a + 0x100 * b
  {
    LeFirst([a, b]);
    LeFirst([b]);
    assert [a, b][1..] == [b] && [b][1..] == [] && LeValue([]) == 0;
  }

  lemma Value4(a: Byte, b: Byte, c: Byte, d: Byte)
    ensures LeValue([a, b, c, d]) == a + 0x100 * b + 0x1_0000 * c + 0x100_0000 * d
  {
    Value2(c, d);
    LeFirst([a, b, c, d]);
    LeFirst([b, c, d]);
    assert [a, b, c, d][1..] == [b, c, d] && [b, c, d][1..] == [c, d];
  }

  // ---------------------------------------------------------------- utils.c

  const TWO31: int := 0x8000_0000
  const TWO63: int := 0x8000_0000_0000_0000

  /** Write4 (utils.c:22-27). */
  function Write4(value: int): (b: seq<Byte>)
    ensures |b| == 4
  {
    Le(value % (2 * TWO31), 4)
  }

  /** Write8 (utils.c:30-39). */
  function Write8(value: int): (b: seq<Byte>)
    ensures |b| == 8
  {
    Le(value % (2 * TWO63), 8)
  }

  /** Read4 (utils.c:47-53). */
  function Read4(b: seq<Byte>): (value: int)
    requires |b| == 4
  {
    if LeValue(b) < TWO31 then LeValue(b) else LeValue(b) - 2 * TWO31
  }

  /** Read8 (utils.c:55-65). */
  function Read8(b: seq<Byte>): (value: int)
    requires |b| == 8
  {
    if LeValue(b) < TWO63 then LeValue(b) else LeValue(b) - 2 * TWO63
  }

  /** A value survives being written and read exactly when it fits the field. */
  lemma Fixed4(value: int)
    ensures Read4(Write4(value)) == value <==> -TWO31 <= value < TWO31
  {
    Widths();
    LeRoundTrip(value % (2 * TWO31), 4);
  }

  /** Four bytes read as a length below two to the 31st exactly if they are that number. */
  lemma LengthBytes(size: seq<Byte>, n: nat)
    requires |size| == 4 && n < TWO31
    ensures Read4(size) == n <==> size == Le(n, 4)
  {
    Widths();
    LeRoundTrip(n, 4);
    if Read4(size) == n { LeInjective(size, Le(n, 4)); }
  }

  lemma Fixed8(value: int)
    ensures Read8(Write8(value)) == value <==> -TWO63 <= value < TWO63
  {
    Widths();
    LeRoundTrip(value % (2 * TWO63), 8);
  }

  // ---------------------------------------------------------------- offtout and offtin

  /** offtout (bsdiff.c:195-211): magnitude in eight bytes, sign in the top bit. */
  function OfftOut(x: int): (buf: seq<Byte>)
    ensures |buf| == 8
  {
    var y := if x < 0 then -x else x;
    var buf := Le(y, 8);
    if x < 0 && buf[7] < 128 then buf[7 := buf[7] + 128] else buf
  }

  /** offtin (bspatch.c:66-82). */
  function OfftIn(buf: seq<Byte>): (x: int)
    requires |buf| == 8
  {
    var y := LeValue(buf[..7]) + Pow256(7) * (buf[7] % 128);
    if buf[7] >= 128 then -y else y
  }

  /** A field with its top bit clear reads as the number its bytes spell; with it set, as minus what the rest spells. */
  lemma OfftSign(buf: seq<Byte>)
    requires |buf| == 8
    ensures buf[7] < 128 ==> OfftIn(buf) == LeValue(buf)
    ensures buf[7] >= 128 ==> OfftIn(buf) == 0 - LeValue(buf[7 := buf[7] - 128])
  {
    hide LeValue, Pow256;
    var low := if buf[7] < 128 then buf else buf[7 := buf[7] - 128];
    TopByte(low);
    assert low[..7] == buf[..7] && low[7] == buf[7] % 128;
  }

  lemma TopByte(b: seq<Byte>)
    requires |b| == 8
    ensures LeValue(b) == LeValue(b[..7]) + Pow256(7) * b[7]
  {
    LeSplit(b, 7);
    assert b[7..] == [b[7]];
    LeFirst([b[7]]);
    assert [b[7]][1..] == [] && LeValue([]) == 0;
    hide LeValue, Pow256;
  }

  /** Sizes and lengths are stored as plain little-endian numbers. */
  lemma OfftPlain(n: nat)
    requires n < TWO63
    ensures OfftOut(n) == Le(n, 8) && OfftIn(Le(n, 8)) == n
  {
    OfftRoundTrip(n);
    hide Pow256, LeValue;
  }

  lemma {:induction false} LeSplit(b: seq<Byte>, k: nat)
    requires k <= |b|
    ensures LeValue(b) == LeValue(b[..k]) + Pow256(k) * LeValue(b[k..])
  {
    if k == 0 {
      assert b[..0] == [] && b[0..] == b;
    } else {
      LeSplit(b[1..], k - 1);
      assert b[1..][..k - 1] == b[..k][1..] && b[1..][k - 1..] == b[k..];
      LeFirst(b);
      LeFirst(b[..k]);
      assert Pow256(k) == 256 * Pow256(k - 1);
      hide LeValue, Pow256;
      Regroup(LeValue(b[..k][1..]), Pow256(k - 1), LeValue(b[k..]));
    }
  }

  lemma LeFirst(b: seq<Byte>)
    requires b != []
    ensures LeValue(b) == b[0] + 256 * LeValue(b[1..])
  {
  }

  lemma Regroup(a: int, p: int, v: int)
    ensures 256 * (a + p * v) == 256 * a + (256 * p) * v
  {
  }

  /** Seeks and lengths survive the encoding exactly when their magnitude is below two to the 63rd. */
  lemma OfftRoundTrip(x: int)
    ensures OfftIn(OfftOut(x)) == x <==> -TWO63 < x < TWO63
  {
    var y := if x < 0 then -x else x;
    var buf := Le(y, 8);
    OfftReads(x);
    LeSplit(buf, 7);
    assert buf[7..] == [buf[7]];
    LeFirst([buf[7]]);
    assert [buf[7]][1..] == [] && LeValue([]) == 0;
    if y < Pow256(8) { LeRoundTrip(y, 8); }
    hide *;
    OfftSigned(x, y, LeValue(buf[..7]), buf[7]);
  }

  /** What is read back, in terms of the bytes of the magnitude. */
  lemma OfftReads(x: int)
    ensures var buf := Le(if x < 0 then -x else x, 8);
            var v := LeValue(buf[..7]) + Pow256(7) * (buf[7] % 128);
            OfftIn(OfftOut(x)) == if x < 0 || buf[7] >= 128 then -v else v
  {
    hide LeValue, Pow256;
    var buf := Le(if x < 0 then -x else x, 8);
    assert OfftOut(x)[..7] == buf[..7];
  }

  lemma OfftSigned(x: int, y: int, low: nat, top: Byte)
    requires y == (if x < 0 then -x else x) && low < Pow256(7) && (y < Pow256(8) ==> y == low + Pow256(7) * top)
    ensures var v := low + Pow256(7) * (top % 128);
            (if x < 0 || top >= 128 then -v else v) == x <==> y < TWO63
  {
    Widths();
  }
}
