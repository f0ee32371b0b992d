/** `java.util.UUID` as its two signed 64-bit halves, its natural order
    (`UUID.compareTo`) and its text form (`UUID.toString`). */
module Uuids {

  const TWO_63: int := 0x8000_0000_0000_0000
  const TWO_64: int := 0x1_0000_0000_0000_0000

  /** Java `long`. */
  type Int64 = x: int | -TWO_63 <= x < TWO_63

  datatype Uuid = Uuid(mostSigBits: Int64, leastSigBits: Int64)

  /** `Long.compare`: the sign of x - y. */
  function CompareLong(x: Int64, y: Int64): (c: int)
    ensures c == -1 || c == 0 || c == 1
    ensures c < 0 <==> x < y
    ensures c == 0 <==> x == y
  {
    if x < y then -1 else if x == y then 0 else 1
  }

  /** `UUID.compareTo`: the high halves compared as signed longs, then the low halves. */
  function CompareTo(a: Uuid, b: Uuid): (c: int)
    ensures c == -1 || c == 0 || c == 1
    ensures c == 0 <==> a == b
  {
    var high := CompareLong(a.mostSigBits, b.mostSigBits);
    if high != 0 then high else CompareLong(a.leastSigBits, b.leastSigBits)
  }

  /** a sorts strictly before b under `UUID.compareTo`. */
  predicate Precedes(a: Uuid, b: Uuid) {
    CompareTo(a, b) < 0
  }

  /** Precedes is a strict total order: irreflexive, asymmetric, transitive and
      connected, which is what a lock order must be. */
  lemma PrecedesIsStrictTotalOrder(a: Uuid, b: Uuid, c: Uuid)
    ensures !Precedes(a, a)
    ensures Precedes(a, b) ==> !Precedes(b, a)
    ensures Precedes(a, b) && Precedes(b, c) ==> Precedes(a, c)
    ensures a != b ==> Precedes(a, b) || Precedes(b, a)
  {
  }

  /** compareTo is antisymmetric in sign. */
  lemma CompareToAntisymmetric(a: Uuid, b: Uuid)
    ensures CompareTo(a, b) == -CompareTo(b, a)
  {
  }

  /** The 64-bit pattern `bits` read as a signed long (two's complement). */
  function SignedLong(bits: nat): (x: Int64)
    requires bits < TWO_64
    ensures x == bits || x == bits - TWO_64
  {
    if bits < TWO_63 then bits else bits - TWO_64
  }

  /** The 64-bit pattern of a signed long. */
  function UnsignedLong(x: Int64): (bits: nat)
    ensures bits < TWO_64
    ensures SignedLong(bits) == x
  {
    if x >= 0 then x else x + TWO_64
  }

  /** The UUID whose 128 bits are hi (upper half) followed by lo, as written in its text form. */
  function FromBits(hi: nat, lo: nat): (u: Uuid)
    requires hi < TWO_64 && lo < TWO_64
    ensures UnsignedLong(u.mostSigBits) == hi && UnsignedLong(u.leastSigBits) == lo
  {
    Uuid(SignedLong(hi), SignedLong(lo))
  }

  /** The order of the text form, hex digit by hex digit: the unsigned
      comparison of the high halves, then of the low halves. */
  function CompareText(a: Uuid, b: Uuid): int {
    var ah, bh := UnsignedLong(a.mostSigBits), UnsignedLong(b.mostSigBits);
    var al, bl := UnsignedLong(a.leastSigBits), UnsignedLong(b.leastSigBits);
    if ah != bh then (if ah < bh then -1 else 1)
    else if al != bl then (if al < bl then -1 else 1)
    else 0
  }

  function HexDigit(d: nat): (c: char)
    requires d < 16
    ensures IsHexDigit(c) && HexDigitValue(c) == d
  {
    "0123456789abcdef"[d]
  }

  /** A lower-case hexadecimal digit, as `UUID.toString` writes them. */
  predicate IsHexDigit(c: char) {
    '0' <= c <= '9' || 'a' <= c <= 'f'
  }

  function HexDigitValue(c: char): (d: nat)
    requires IsHexDigit(c)
    ensures d < 16
  {
    if c <= '9' then c as int - '0' as int else c as int - 'a' as int + 10
  }

  function Pow16(n: nat): (p: nat)
    ensures p >= 1
  {
    if n == 0 then 1 else 16 * Pow16(n - 1)
  }

  /** The number a string of hexadecimal digits spells, most significant first. */
  function HexValue(s: string): nat
    requires forall i :: 0 <= i < |s| ==> IsHexDigit(s[i])
  {
    if s == [] then 0 else HexValue(s[..|s| - 1]) * 16 + HexDigitValue(s[|s| - 1])
  }

  /** The low `width` hexadecimal digits of n, zero-padded. */
  function Hex(n: nat, width: nat): (s: string)
    ensures |s| == width
    decreases width
  {
    if width == 0 then [] else Hex(n / 16, width - 1) + [HexDigit(n % 16)]
  }

  /** The digits Hex writes spell n modulo 16^width. */
  lemma {:induction false} HexReadsBack(n: nat, width: nat)
    ensures forall i :: 0 <= i < width ==> IsHexDigit(Hex(n, width)[i])
    ensures HexValue(Hex(n, width)) == n % Pow16(width)
    decreases width
  {
    if width > 0 {
      var s := Hex(n, width);
      HexReadsBack(n / 16, width - 1);
      assert s[..|s| - 1] == Hex(n / 16, width - 1);
      assert forall i :: 0 <= i < width - 1 ==> s[i] == Hex(n / 16, width - 1)[i];
      LowDigits(n, Pow16(width - 1));
    }
  }

  /** Taking the low digit off n and the next k digits off the rest gives
      the low k + 1 digits of n. */
  lemma LowDigits(n: nat, p: nat)
    requires p >= 1
    ensures ((n / 16) % p) * 16 + n % 16 == n % (16 * p)
  {
    var q, r := n / 16, n % 16;
    var k, m := q / p, q % p;
    assert n == 16 * q + r;
    assert q == p * k + m;
    assert n == (16 * p) * k + (m * 16 + r);
    DivisionUnique(n, 16 * p, k, m * 16 + r);
  }

  lemma DivisionUnique(n: int, d: int, k: int, x: int)
    requires d > 0 && 0 <= x < d && n == d * k + x
    ensures n % d == x
  {
    var k', x' := n / d, n % d;
    assert n == d * k' + x';
    if k' > k {
      assert d * k' >= d * (k + 1) by { MulMore(d, k + 1, k'); }
    } else if k' < k {
      assert d * k >= d * (k' + 1) by { MulMore(d, k' + 1, k); }
    }
  }

  lemma MulMore(d: int, a: int, b: int)
    requires d > 0 && a <= b
    ensures d * a <= d * b
  {
  }

  lemma {:induction false} Pow16Add(a: nat, b: nat)
    ensures Pow16(a) * Pow16(b) == Pow16(a + b)
    decreases a
  {
    if a > 0 {
      Pow16Add(a - 1, b);
      var p, q := Pow16(a - 1), Pow16(b);
      assert Pow16(a) * q == 16 * (p * q);
    }
  }

  /** The 32 hexadecimal digits of an id's text, hyphens removed. */
  function TextDigits(s: string): string
    requires |s| == 36
  {
    s[..8] + s[9..13] + s[14..18] + s[19..23] + s[24..]
  }

  /** 32 hexadecimal digits cut 8-4-4-4-12 by hyphens. */
  function Hyphenate(t: string): (s: string)
    requires |t| == 32
    ensures |s| == 36
    ensures s[8] == '-' && s[13] == '-' && s[18] == '-' && s[23] == '-'
    ensures TextDigits(s) == t
  {
    var s := t[..8] + "-" + t[8..12] + "-" + t[12..16] + "-" + t[16..20] + "-" + t[20..];
    assert s[..8] == t[..8] && s[9..13] == t[8..12] && s[14..18] == t[12..16];
    assert s[19..23] == t[16..20] && s[24..] == t[20..];
    assert t == t[..8] + t[8..12] + t[12..16] + t[16..20] + t[20..];
    s
  }

  /** `UUID.toString`: the 16 lower-case hexadecimal digits of the high half
      and the 16 of the low half, cut 8-4-4-4-12 by hyphens. Read without the
      hyphens they are exactly those 32 digits. */
  function ToString(u: Uuid): (s: string)
    ensures |s| == 36
    ensures s[8] == '-' && s[13] == '-' && s[18] == '-' && s[23] == '-'
    ensures TextDigits(s) == Hex(UnsignedLong(u.mostSigBits), 16) + Hex(UnsignedLong(u.leastSigBits), 16)
  {
    Hyphenate(Hex(UnsignedLong(u.mostSigBits), 16) + Hex(UnsignedLong(u.leastSigBits), 16))
  }

  /** Different ids have different texts: the text names the id. */
  lemma ToStringInjective(a: Uuid, b: Uuid)
    requires ToString(a) == ToString(b)
    ensures a == b
  {
    var ha, la := UnsignedLong(a.mostSigBits), UnsignedLong(a.leastSigBits);
    var hb, lb := UnsignedLong(b.mostSigBits), UnsignedLong(b.leastSigBits);
    SameDigits(Hex(ha, 16), Hex(la, 16), Hex(hb, 16), Hex(lb, 16));
    Pow16Is2To64();
    SameHalf(ha, hb, 16);
    SameHalf(la, lb, 16);
  }

  lemma SameDigits(ha: string, la: string, hb: string, lb: string)
    requires |ha| == |hb| && ha + la == hb + lb
    ensures ha == hb && la == lb
  {
    assert ha == (ha + la)[..|ha|] && hb == (hb + lb)[..|hb|];
    assert la == (ha + la)[|ha|..] && lb == (hb + lb)[|hb|..];
  }

  /** Two numbers below 16^width with the same `width` hexadecimal digits are equal. */
  lemma SameHalf(x: nat, y: nat, width: nat)
    requires x < Pow16(width) && y < Pow16(width) && Hex(x, width) == Hex(y, width)
    ensures x == y
  {
    HexReadsBack(x, width);
    HexReadsBack(y, width);
    DivisionUnique(x, Pow16(width), 0, x);
    DivisionUnique(y, Pow16(width), 0, y);
  }

  lemma Pow16Is2To64()
    ensures Pow16(16) == TWO_64
  {
    assert Pow16(4) == 0x1_0000;
    Pow16Add(4, 4);
    Pow16Add(8, 8);
  }
}
