/** Page, address and page-table-index arithmetic (the helpers at the end of src/pager.cc
    and the index extraction of find_table_entry). Addresses are 64-bit values held in `nat`. */
module PageArith {

  /** First address of the page holding `a`. */
  function PageBegin(a: nat): (r: nat)
    ensures r % 0x1000 == 0 && r <= a < r + 0x1000
  {
    a - a % 0x1000
  }

  lemma PageAndOffset(a: nat, off: nat)
    requires a % 0x1000 == 0 && off < 0x1000
    ensures PageBegin(a + off) == a && (a + off) % 0x1000 == off
  {
  }

  /** First address of the page after the one holding `a`. */
  function NextPage(a: nat): (r: nat)
    ensures r % 0x1000 == 0 && a < r <= a + 0x1000
  {
    PageBegin(a) + 0x1000
  }

  function OffsetInPage(a: nat): nat { a % 0x1000 }

  /** Bytes from `a` to the end of its page, a whole page when `a` is aligned. */
  function PageRemain(a: nat): (r: nat)
    ensures 0 < r <= 0x1000 && (a + r) % 0x1000 == 0
  {
    0x1000 - a % 0x1000
  }

  /** Least number of pages that hold `size` bytes. */
  function PagesFromSize(size: nat): (r: nat)
    ensures size <= r * 0x1000 < size + 0x1000
  {
    if size % 0x1000 != 0 then size / 0x1000 + 1 else size / 0x1000
  }

  /** The value of an int that gets the low 32 bits of n. */
  function AsInt(n: nat): int {
    var w := n % 0x1_0000_0000;
    if w < 0x8000_0000 then w else w - 0x1_0000_0000
  }

  /** pages_from_size returns an int: it is the page count if and only if the size is at most 2^31 - 1
      pages. */
  lemma PagesFromSizeFits(size: nat)
    ensures AsInt(PagesFromSize(size)) == PagesFromSize(size) <==> size <= 0x1000 * 0x7FFF_FFFF
  {
    var n := PagesFromSize(size);
    assert n < 0x8000_0000 <==> size <= 0x1000 * 0x7FFF_FFFF;
  }

  /** Least multiple of the page size that is at least `size`. */
  function PagesizeAlign(size: nat): (r: nat)
    ensures r % 0x1000 == 0 && size <= r < size + 0x1000
    ensures r == 0x1000 * PagesFromSize(size)
  {
    if size % 0x1000 != 0 then PageBegin(size) + 0x1000 else size
  }

  /** The 36-bit page number that the four-level walk looks at: bits 12 to 47. */
  function Vpn(gva: nat): (v: nat)
    ensures v < 0x10_0000_0000
  {
    gva / 0x1000 % 0x10_0000_0000
  }

  /** Bits 48 to 63 repeat bit 47. */
  predicate Canonical(gva: nat) {
    gva < 0x8000_0000_0000 || 0xFFFF_8000_0000_0000 <= gva < 0x1_0000_0000_0000_0000
  }

  lemma CanonicalPage(g: nat)
    requires Canonical(g)
    ensures g / 0x1000 == if Vpn(g) < 0x8_0000_0000 then Vpn(g) else Vpn(g) + 0xF_FFF0_0000_0000
  {
    var n := g / 0x1000;
    assert n < 0x8_0000_0000 || 0xF_FFF8_0000_0000 <= n < 0x10_0000_0000_0000;
  }

  /** On canonical addresses the page number loses nothing. */
  lemma VpnInjective(a: nat, b: nat)
    requires Canonical(a) && Canonical(b) && Vpn(a) == Vpn(b)
    ensures PageBegin(a) == PageBegin(b)
  {
    CanonicalPage(a);
    CanonicalPage(b);
  }

  /** Index of page number `v` in the table of `level`: 3 is the PML4, 0 the page table. */
  function Digit(v: nat, level: nat): (d: nat)
    ensures d < 512
  {
    if level == 0 then v % 512 else Digit(v / 512, level - 1)
  }

  /** The four digits determine a 36-bit page number. */
  lemma DigitsInjective(v: nat, u: nat)
    requires v < 0x10_0000_0000 && u < 0x10_0000_0000
    requires forall k | 0 <= k < 4 :: Digit(v, k) == Digit(u, k)
    ensures v == u
  {
    DigitsDiffer(v, u, 4);
  }

  function Pow512(n: nat): (p: nat)
    ensures p > 0
  {
    if n == 0 then 1 else 512 * Pow512(n - 1)
  }

  lemma {:induction false} DigitsDiffer(v: nat, u: nat, n: nat)
    requires v < Pow512(n) && u < Pow512(n)
    requires forall k | 0 <= k < n :: Digit(v, k) == Digit(u, k)
    ensures v == u
    decreases n
  {
    if n > 0 {
      assert Digit(v, 0) == Digit(u, 0);
      forall k | 0 <= k < n - 1
        ensures Digit(v / 512, k) == Digit(u / 512, k)
      {
        assert Digit(v, k + 1) == Digit(u, k + 1);
      }
      DigitsDiffer(v / 512, u / 512, n - 1);
    }
  }

  function Pow2(n: nat): (p: nat)
    ensures p > 0
  {
    if n == 0 then 1 else 2 * Pow2(n - 1)
  }

  lemma {:induction false} Pow2Add(m: nat, n: nat)
    ensures Pow2(m + n) == Pow2(m) * Pow2(n)
  {
    if m > 0 {
      Pow2Add(m - 1, n);
      assert Pow2(m) * Pow2(n) == 2 * (Pow2(m - 1) * Pow2(n));
    }
  }

  lemma DivModUnique(a: nat, b: nat, q: nat, r: nat)
    requires r < b && a == q * b + r
    ensures a / b == q && a % b == r
  {
    var d := a / b - q;
    assert d * b == r - a % b by {
      assert a == (a / b) * b + a % b;
    }
    assert d >= 1 ==> d * b >= b;
    assert d <= -1 ==> d * b + b <= 0;
  }

  /** 64-bit logical shifts. */
  function Shl(a: int, k: nat): int { a * Pow2(k) % 0x1_0000_0000_0000_0000 }
  function Shr(a: int, k: nat): int { a / Pow2(k) }

  /** find_table_entry's index: left by 63 - high, dropping what leaves the word, then right
      by (63 - high) + low. */
  function ShiftIndex(addr: nat, low: nat, high: nat): int
    requires low <= high <= 63
  {
    Shr(Shl(addr, 63 - high), (63 - high) + low)
  }

  /** The shift pair extracts exactly the bits low..high. */
  lemma ShiftExtractsBits(addr: nat, low: nat, high: nat)
    requires low <= high <= 63
    ensures ShiftIndex(addr, low, high) == addr / Pow2(low) % Pow2(high - low + 1)
  {
    var P, Q, R := Pow2(63 - high), Pow2(low), Pow2(high - low + 1);
    Pow2Add(low, high - low + 1);
    Pow2Add(63 - high, high + 1);
    Pow2Add(63 - high, low);
    Pow2Of64();
    KeepLow(addr, P, Q * R);
    DropLow(addr % (Q * R), P, Q);
    MiddleBits(addr, Q, R);
  }

  lemma Pow2Of64()
    ensures Pow2(64) == 0x1_0000_0000_0000_0000
  {
    assert Pow2(8) == 0x100;
    Pow2Add(8, 8);
    Pow2Add(16, 16);
    Pow2Add(32, 32);
  }

  lemma KeepLow(a: nat, P: nat, M: nat)
    requires P > 0 && M > 0
    ensures P * M > 0 && a * P % (P * M) == (a % M) * P
  {
    var q, r := a / M, a % M;
    assert a * P == q * (P * M) + r * P by {
      assert a == q * M + r;
      assert (q * M + r) * P == q * M * P + r * P;
      assert q * M * P == q * (P * M);
    }
    assert r * P < P * M by { assert r + 1 <= M; assert (r + 1) * P <= M * P; }
    DivModUnique(a * P, P * M, q, r * P);
  }

  lemma DropLow(a: nat, P: nat, Q: nat)
    requires P > 0 && Q > 0
    ensures P * Q > 0 && a * P / (P * Q) == a / Q
  {
    var q, r := a / Q, a % Q;
    assert a * P == q * (P * Q) + r * P by {
      assert a == q * Q + r;
      assert (q * Q + r) * P == q * Q * P + r * P;
      assert q * Q * P == q * (P * Q);
    }
    assert r * P < P * Q by { assert r + 1 <= Q; assert (r + 1) * P <= Q * P; }
    DivModUnique(a * P, P * Q, q, r * P);
  }

  lemma MiddleBits(a: nat, Q: nat, R: nat)
    requires Q > 0 && R > 0
    ensures Q * R > 0 && a % (Q * R) / Q == a / Q % R
  {
    var n := a / Q;
    MiddleBitsOf(a, Q, R, n / R, n % R, a % Q);
  }

  lemma MiddleBitsOf(a: nat, Q: nat, R: nat, q: nat, hi: nat, lo: nat)
    requires hi < R && lo < Q && a == (q * R + hi) * Q + lo
    ensures Q * R > 0 && a % (Q * R) / Q == hi
  {
    Regroup(q, hi, lo, Q, R);
    DivModUnique(a, Q * R, q, hi * Q + lo);
    DivModUnique(hi * Q + lo, Q, hi, lo);
  }

  lemma Regroup(q: nat, hi: nat, lo: nat, Q: nat, R: nat)
    requires lo < Q && hi < R
    ensures (q * R + hi) * Q + lo == q * (Q * R) + (hi * Q + lo)
    ensures hi * Q + lo < Q * R
  {
    assert (q * R + hi) * Q == q * R * Q + hi * Q;
    assert q * R * Q == q * (Q * R);
    LessPairs(hi, lo, Q, R);
  }

  lemma LessPairs(hi: nat, lo: nat, Q: nat, R: nat)
    requires lo < Q && hi < R
    ensures hi * Q + lo < Q * R
  {
    assert (R - hi - 1) * Q >= 0;
    assert R * Q == hi * Q + Q + (R - hi - 1) * Q;
  }

  lemma DivDiv(a: nat, b: nat, c: nat)
    requires b > 0 && c > 0
    ensures b * c > 0 && a / b / c == a / (b * c)
  {
    var n, lo := a / b, a % b;
    assert a == n * b + lo && n == n / c * c + n % c;
    DivDivOf(a, b, c, n / c, n % c, lo);
  }

  lemma DivDivOf(a: nat, b: nat, c: nat, q: nat, r: nat, lo: nat)
    requires r < c && lo < b && a == (q * c + r) * b + lo
    ensures b * c > 0 && a / (b * c) == q
  {
    Regroup(q, r, lo, b, c);
    DivModUnique(a, b * c, q, r * b + lo);
  }

  /** The four index extractions of both walks are the digits of the page number. */
  lemma WalkIndexIsDigit(gva: nat, level: nat)
    requires level < 4
    ensures ShiftIndex(gva, 12 + 9 * level, 20 + 9 * level) == Digit(Vpn(gva), level)
  {
    ShiftExtractsBits(gva, 12 + 9 * level, 20 + 9 * level);
    PowersOf512(level);
    DigitOfVpn(gva, level);
  }

  lemma PowersOf512(level: nat)
    requires level < 4
    ensures Pow2(9) == 512
    ensures Pow2(12 + 9 * level) == [0x1000, 0x20_0000, 0x4000_0000, 0x80_0000_0000][level]
  {
    assert Pow2(9) == 512 && Pow2(12) == 0x1000;
    Pow2Add(9, 12);
    Pow2Add(9, 21);
    Pow2Add(9, 30);
  }

  lemma DigitOfVpn(gva: nat, level: nat)
    requires level < 4
    ensures Digit(Vpn(gva), level) == gva / [0x1000, 0x20_0000, 0x4000_0000, 0x80_0000_0000][level] % 512
  {
    var n := gva / 0x1000;
    assert Pow512(4) == 0x10_0000_0000;
    DigitOfLow(n, level, 4);
    DivDiv(gva, 0x1000, 512);
    DivDiv(gva, 0x20_0000, 512);
    DivDiv(gva, 0x4000_0000, 512);
    assert Digit(n, 1) == Digit(n / 512, 0);
    assert Digit(n, 2) == Digit(n / 512, 1) == Digit(n / 512 / 512, 0);
    assert Digit(n, 3) == Digit(n / 512, 2) == Digit(n / 512 / 512, 1) == Digit(n / 512 / 512 / 512, 0);
  }

  lemma {:induction false} DigitOfLow(n: nat, level: nat, k: nat)
    requires level < k
    ensures Digit(n % Pow512(k), level) == Digit(n, level)
  {
    MiddleBits(n, 512, Pow512(k - 1));
    if level == 0 {
      KeepMod(n, Pow512(k - 1));
    } else {
      DigitOfLow(n / 512, level - 1, k - 1);
    }
  }

  lemma KeepMod(n: nat, M: nat)
    requires M > 0
    ensures n % (512 * M) % 512 == n % 512
  {
    var q := n / (512 * M);
    assert n == q * (512 * M) + n % (512 * M);
    assert q * (512 * M) == 512 * (q * M);
  }
}
