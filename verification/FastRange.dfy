/** Range reduction without division (src/util/fastrange.h). */
module FastRange {
  import opened Arithmetic

  /** Fast range reduction of a 32-bit hash. */
  function FastRange32(x: nat, n: nat): nat {
    x * n / 0x1_0000_0000
  }

  type Hash = x: int | 0 <= x < 0x1_0000_0000

  lemma FastRangeBelow(x: Hash, n: nat)
    requires n > 0
    ensures FastRange32(x, n) < n
  {
    MulMono(n, 0, x);
    MulMono(n, x, 0xFFFF_FFFF);
    QuotientBelow(x * n, n, 0x1_0000_0000);
  }

  type Hash64 = x: int | 0 <= x < 0x1_0000_0000_0000_0000

  /** Fast range reduction of a 64-bit hash, where there are 128-bit numbers. */
  function FastRange64(x: nat, n: nat): nat {
    x * n / 0x1_0000_0000_0000_0000
  }

  lemma FastRange64Below(x: Hash64, n: nat)
    requires n > 0
    ensures FastRange64(x, n) < n
  {
    MulMono(n, 0, x);
    MulMono(n, x, 0xFFFF_FFFF_FFFF_FFFF);
    QuotientBelow(x * n, n, 0x1_0000_0000_0000_0000);
  }

  /** The same, where there are not: from the products of 32-bit halves. */
  function FastRange64Split(x: Hash64, n: Hash64): nat {
    var xh, xl, nh, nl := x / 0x1_0000_0000, x % 0x1_0000_0000, n / 0x1_0000_0000, n % 0x1_0000_0000;
    UpperHalf(xh * nh, xh * nl, xl * nh, xl * nl)
  }

  function UpperHalf(ac: int, ad: int, bc: int, bd: int): int {
    var mid34 := bd / 0x1_0000_0000 + bc % 0x1_0000_0000 + ad % 0x1_0000_0000;
    ac + bc / 0x1_0000_0000 + ad / 0x1_0000_0000 + mid34 / 0x1_0000_0000
  }

  /** Carrying the middle products up gives the upper half of the whole product. */
  lemma UpperHalfIs(ac: int, ad: int, bc: int, bd: int)
    ensures (0x1_0000_0000_0000_0000 * ac + 0x1_0000_0000 * (ad + bc) + bd) / 0x1_0000_0000_0000_0000 == UpperHalf(ac, ad, bc, bd)
  {
    var mid34 := bd / 0x1_0000_0000 + bc % 0x1_0000_0000 + ad % 0x1_0000_0000;
    DivModIs(0x1_0000_0000_0000_0000 * ac + 0x1_0000_0000 * (ad + bc) + bd, 0x1_0000_0000_0000_0000,
             UpperHalf(ac, ad, bc, bd), 0x1_0000_0000 * (mid34 % 0x1_0000_0000) + bd % 0x1_0000_0000);
  }

  lemma Halves(xh: int, xl: int, nh: int, nl: int)
    ensures (0x1_0000_0000 * xh + xl) * (0x1_0000_0000 * nh + nl)
            == 0x1_0000_0000_0000_0000 * (xh * nh) + 0x1_0000_0000 * (xh * nl + xl * nh) + xl * nl
  {
    Distribute(0x1_0000_0000 * xh + xl, 0x1_0000_0000 * nh, nl);
  }

  /** Both compute the same. */
  lemma SplitIsFastRange(x: Hash64, n: Hash64)
    ensures FastRange64Split(x, n) == FastRange64(x, n)
  {
    var xh, xl, nh, nl := x / 0x1_0000_0000, x % 0x1_0000_0000, n / 0x1_0000_0000, n % 0x1_0000_0000;
    Halves(xh, xl, nh, nl);
    UpperHalfIs(xh * nh, xh * nl, xl * nh, xl * nl);
  }
}
