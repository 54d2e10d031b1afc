/** Ranges of consecutive pages of the page map, as map_region and unmap_region treat them. */
module PagerRanges {
  import opened PageArith
  import opened PageEntry
  import T = PageTables
  import opened Pager

  predicate InRange(v: nat, n: nat, u: nat) { v <= u < v + n }

  predicate Between(lo: nat, hi: nat, u: nat) { lo <= u < hi }

  ghost function Range(v: nat, n: nat): set<nat> { set u: nat | u < v + n && InRange(v, n, u) }

  /** Every page of the range is free or already has the host page it is to get. */
  ghost predicate RangeOk(m: PageMap, v: nat, host: nat, n: nat) {
    forall u | u in m && InRange(v, n, u) :: m[u].host == host + 0x1000 * (u - v)
  }

  lemma FreeRange(m: PageMap, v: nat, host: nat, n: nat)
    requires Range(v, n) !! m.Keys
    ensures RangeOk(m, v, host, n)
  {
    forall u | u in m ensures !InRange(v, n, u) {
      assert u !in Range(v, n);
    }
  }

  /** m with n pages from v on mapped linearly to host. */
  ghost function Overlay(m: PageMap, v: nat, host: nat, n: nat, opts: Opts): PageMap {
    m + map u: nat | u < v + n && InRange(v, n, u) :: Page(host + 0x1000 * (u - v), opts.write, opts.exec)
  }

  lemma OverlayEmpty(m: PageMap, v: nat, host: nat, opts: Opts)
    ensures Overlay(m, v, host, 0, opts) == m
  {
  }

  /** One more page of a range that is being mapped. */
  lemma OverlayNext(m: PageMap, v: nat, host: nat, n: nat, opts: Opts)
    ensures var m1, p := Overlay(m, v, host, n, opts), Page(host + 0x1000 * n, opts.write, opts.exec);
            && (MapOk(m1, v + n, p.host) <==> MapOk(m, v + n, p.host))
            && m1[v + n := p] == Overlay(m, v, host, n + 1, opts)
  {
  }

  /** Page k is the first one of the range that is not present. */
  ghost predicate FirstAbsent(m: PageMap, v: nat, n: nat, k: nat) { k < n && v + k !in m && Range(v, k) <= m.Keys }

  lemma RangeEmpty(m: PageMap, v: nat)
    ensures Range(v, 0) == {} && m - Range(v, 0) == m
  {
    assert Range(v, 0) == {};
  }

  lemma RangeIs(v: nat, n: nat, u: nat)
    ensures u in Range(v, n) <==> InRange(v, n, u)
  {
  }

  lemma RangeHas(v: nat, i: nat, n: nat)
    requires i < n
    ensures v + i in Range(v, n)
  {
    assert InRange(v, n, v + i);
  }

  /** One more page of a range that is being unmapped. */
  lemma RangeNext(m: PageMap, v: nat, n: nat)
    ensures v + n in m - Range(v, n) <==> v + n in m
    ensures m - Range(v, n) - {v + n} == m - Range(v, n + 1)
    ensures Range(v, n + 1) == Range(v, n) + {v + n}
  {
    assert Range(v, n + 1) == Range(v, n) + {v + n};
  }

  // ----- page tables and the pool

  predicate Touches(v: nat, n: nat, b: nat) { n > 0 && v / 512 <= b <= (v + n - 1) / 512 }

  /** The blocks of 512 pages, one page table each, that n pages from v on touch. */
  ghost function Touched(v: nat, n: nat): set<nat> { set b: nat | b <= v + n && Touches(v, n, b) }

  lemma TouchedHas(v: nat, n: nat, u: nat)
    requires InRange(v, n, u)
    ensures u / 512 in Touched(v, n)
  {
    assert Touches(v, n, u / 512);
  }

  /** A part of a range touches no other blocks. */
  lemma TouchedPart(v: nat, n: nat, lo: nat, len: nat)
    requires lo <= v && v + n <= lo + len
    ensures Touched(v, n) <= Touched(lo, len)
  {
    forall b | b in Touched(v, n) ensures b in Touched(lo, len) {
      assert Touches(v, n, b);
      assert Touches(lo, len, b);
    }
  }

  /** The blocks without a page table. */
  ghost function Missing(pt: T.PT, blocks: set<nat>): set<nat> { set b | b in blocks && T.TableOf(pt, 512 * b, 0) < 0 }

  /** Pool pages in use and still to come if pages of these blocks are mapped: three for each
      block that has no page table yet. */
  ghost function Need(pt: T.PT, blocks: set<nat>): nat { |pt.tables| + 3 * |Missing(pt, blocks)| }

  lemma SubsetSize(a: set<nat>, b: set<nat>)
    requires a <= b
    ensures |a| <= |b|
  {
    assert b == a + (b - a);
  }

  /** Tables that stay where they are leave no more to come. */
  lemma NeedStays(pt: T.PT, pt': T.PT, blocks: set<nat>)
    requires |pt'.tables| <= |pt.tables| && forall u: nat | T.TableOf(pt, u, 0) >= 0 :: T.TableOf(pt', u, 0) >= 0
    ensures Need(pt', blocks) <= Need(pt, blocks)
  {
    hide T.TableOf;
    SubsetSize(Missing(pt', blocks), Missing(pt, blocks));
  }

  lemma BlockTable(pt: T.PT, v: nat)
    ensures T.TableOf(pt, 512 * (v / 512), 0) == T.TableOf(pt, v, 0)
  {
    forall k | 0 < k <= 3 ensures Digit(512 * (v / 512), k) == Digit(v, k) {
    }
    T.SameUpperDigits(pt, 512 * (v / 512), v, 0);
  }

  /** What a map of page v takes from the pool is what its block was charged for, once. */
  lemma NeedStep(pt: T.PT, pt': T.PT, v: nat, blocks: set<nat>)
    requires v / 512 in blocks && T.TableOf(pt', v, 0) >= 0
    requires |pt'.tables| <= |pt.tables| + if T.TableOf(pt, v, 0) >= 0 then 0 else 3
    requires forall u: nat | T.TableOf(pt, u, 0) >= 0 :: T.TableOf(pt', u, 0) >= 0
    ensures Need(pt', blocks) <= Need(pt, blocks)
    ensures |pt.tables| + (if T.TableOf(pt, v, 0) >= 0 then 0 else 3) <= Need(pt, blocks)
  {
    hide T.TableOf;
    BlockTable(pt, v);
    BlockTable(pt', v);
    var b, a, a' := v / 512, Missing(pt, blocks), Missing(pt', blocks);
    if T.TableOf(pt, v, 0) >= 0 {
      SubsetSize(a', a);
    } else {
      assert b in a && b !in a';
      SubsetSize(a', a - {b});
    }
  }

  lemma {:induction false} RangeSize(v: nat, n: nat)
    ensures |Range(v, n)| == n
  {
    if n == 0 {
      assert Range(v, n) == {};
    } else {
      RangeSize(v, n - 1);
      assert Range(v, n) == Range(v, n - 1) + {v + n - 1};
    }
  }

  lemma TouchedSize(v: nat, n: nat)
    ensures |Touched(v, n)| <= n / 512 + 2
  {
    RangeSize(v / 512, n / 512 + 2);
    forall b | b in Touched(v, n) ensures b in Range(v / 512, n / 512 + 2) {
      assert Touches(v, n, b);
      assert InRange(v / 512, n / 512 + 2, b);
    }
    SubsetSize(Touched(v, n), Range(v / 512, n / 512 + 2));
  }

  /** What the tables of some blocks can take at most. */
  lemma NeedBound(pt: T.PT, blocks: set<nat>)
    ensures Need(pt, blocks) <= |pt.tables| + 3 * |blocks|
  {
    SubsetSize(Missing(pt, blocks), blocks);
  }

  lemma UnionSize(a: set<nat>, b: set<nat>)
    ensures |a + b| <= |a| + |b|
  {
    SubsetSize(a + b - a, b);
    assert a + b == a + (a + b - a);
  }
}
