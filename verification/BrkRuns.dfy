/** brk (src/heap.cc: brk, grow, shrink, free_unused_mappings and the slice_end they use), and
    what every run of page-aligned brk calls keeps. */
module BrkRuns {
  import opened PageArith
  import opened PageEntry
  import C = Chunks
  import P = Pager
  import A = Allocator
  import R = PagerRanges
  import opened Mappings

  const RW: Prot := Prot(true, true, false)

  // ----- the operations

  function Last(s: Heap): Mapping requires |s.brk| > 0 { s.brk[|s.brk| - 1] }

  function LastRef(s: Heap): Ref requires |s.brk| > 0 { InBrk(|s.brk| - 1) }

  /** One round of free_unused_mappings. */
  ghost function PopLast(s: Heap): Heap
    requires |s.brk| > 0 && CanUnmap(s, LastRef(s), Last(s).addr, Last(s).pages)
  {
    Unmap(s, LastRef(s), Last(s).addr, Last(s).pages)
  }

  /** slice_end on the last brk mapping. */
  ghost function TrimLast(s: Heap, base: nat): Heap
    requires |s.brk| > 0 && base <= Last(s).addr + Last(s).length
    requires CanUnmap(s, LastRef(s), base, PagesFromSize(Last(s).addr + Last(s).length - base))
  {
    var x := Last(s);
    var s1 := Unmap(s, LastRef(s), base, PagesFromSize(x.addr + x.length - base));
    if |s1.brk| == |s.brk| && base >= x.addr then Set(s1, LastRef(s), SetLength(Last(s1), base - x.addr)) else s1
  }

  /** The first half of brk beyond the region: grow_to_fill and map. */
  ghost function FillLast(s: Heap): Heap
    requires |s.brk| > 0 && Last(s).region < |s.a.regions|
  {
    var y := GrowToFill(s.a, Last(s));
    MapIn(Set(s, LastRef(s), y), y)
  }

  /** HeapManager::grow from `from` to newbrk, given the allocation. */
  ghost function Append(s: Heap, from: nat, newbrk: nat, r: A.Allocated): Heap
    requires from < newbrk && r.h < |r.s.regions|
  {
    var y := NewMapping(r.s, r.h, from, newbrk - from, RW, true, 0, 0);
    MapIn(s.(brk := s.brk + [y], a := A.SetAddr(r.s, r.h, y.addr)), y)
  }

  /** brk inside the region of the last mapping. */
  ghost function GrowLast(s: Heap, newbrk: nat): Heap
    requires |s.brk| > 0 && Last(s).region < |s.a.regions| && s.curbrk <= newbrk
  {
    var y := Grow(s.a, Last(s), Last(s).length + (newbrk - s.curbrk));
    MapIn(Set(s, LastRef(s), y), y).(curbrk := newbrk)
  }

  // ----- the invariant

  function RegionOf(s: Heap, x: Mapping): A.Region requires x.region < |s.a.regions| { s.a.regions[x.region] }

  /** A brk mapping and its region agree. */
  ghost predicate Locked(s: Heap, x: Mapping) {
    && x.region in s.a.used && x.region < |s.a.regions|
    && RegionOf(s, x).host == x.host && RegionOf(s, x).addr == x.addr
    && x.addr > 0 && x.addr % 0x1000 == 0 && 0 < x.length <= RegionOf(s, x).size
    && x.pages == PagesFromSize(x.length) && x.prot == RW
  }

  /** Each of its pages is present and translates to host base plus offset. */
  ghost predicate Linear(m: P.PageMap, x: Mapping) {
    forall p: nat | R.InRange(Pg(x.addr), x.pages, p) ::
      p in m && m[p] == P.Page(x.host + 0x1000 * (p - Pg(x.addr)), true, false)
  }

  /** Mapping i is full and the next one starts where it ends. */
  ghost predicate Linked(s: Heap, i: nat)
    requires i + 1 < |s.brk|
  {
    s.brk[i].region < |s.a.regions| && s.brk[i].length == RegionOf(s, s.brk[i]).size
        && s.brk[i + 1].addr == s.brk[i].addr + s.brk[i].length
  }

  /** The mappings from position k on are locked, linear and contiguous from `base` on. */
  ghost predicate ChainOk(s: Heap, k: nat, base: nat) {
    && A.Inv(s.a) && k < |s.brk| && s.brk[k].addr == base
    && (forall i | 0 <= i < |s.brk| :: s.brk[i].pages > 0)
    && (forall i | k <= i < |s.brk| :: Locked(s, s.brk[i]) && Linear(s.m, s.brk[i]))
    && (forall i | k <= i < |s.brk| - 1 :: Linked(s, i))
    && (forall i, j | k <= i < j < |s.brk| :: s.brk[i].region != s.brk[j].region)
  }

  /** They end at `top`; only a mapping that fills its region may have an unaligned length. */
  ghost predicate TopOk(s: Heap, limit: nat, top: nat) {
    && |s.brk| > 0 && Last(s).region < |s.a.regions|
    && top == Last(s).addr + PagesizeAlign(Last(s).length) <= limit
    && (Last(s).length % 0x1000 != 0 ==> PagesizeAlign(Last(s).length) == RegionOf(s, Last(s)).size)
  }

  /** Of the pages from base to limit exactly those below top are present. */
  ghost predicate PagesOk(m: P.PageMap, base: nat, limit: nat, top: nat) {
    forall p: nat | R.Between(Pg(base), Pg(limit), p) :: p in m <==> p < Pg(top)
  }

  ghost predicate BrkOk(s: Heap, k: nat, base: nat, limit: nat, top: nat) {
    ChainOk(s, k, base) && TopOk(s, limit, top) && PagesOk(s.m, base, limit, top)
  }

  /** The pages from base to `to` translate in m' as they do in m. */
  ghost predicate Survive(m: P.PageMap, m': P.PageMap, base: nat, to: nat) {
    forall p: nat | R.Between(Pg(base), Pg(to), p) :: p in m && p in m' && m'[p] == m[p]
  }

  // ----- arithmetic of aligned addresses

  lemma PgAligned(a: nat, n: nat)
    requires a % 0x1000 == 0
    ensures a == 0x1000 * Pg(a) && Pg(a + 0x1000 * n) == Pg(a) + n
  {
  }

  /** The end of a mapping in pages. */
  lemma EndOf(x: Mapping)
    requires x.addr % 0x1000 == 0 && x.pages == PagesFromSize(x.length)
    ensures Pg(x.addr + PagesizeAlign(x.length)) == Pg(x.addr) + x.pages
    ensures x.addr + PagesizeAlign(x.length) == x.addr + 0x1000 * x.pages
    ensures x.length > 0 ==> x.pages > 0 && Contains(x, x.addr) && Contains(x, x.addr + (x.pages - 1) * 0x1000)
  {
    PgAligned(x.addr, x.pages);
  }

  // ----- free_unused_mappings

  lemma CanPop(s: Heap, k: nat, base: nat)
    requires ChainOk(s, k, base)
    ensures CanUnmap(s, LastRef(s), Last(s).addr, Last(s).pages)
  {
    var x := Last(s);
    assert Locked(s, x) && Linear(s.m, x);
    EndOf(x);
    forall p | p in R.Range(Pg(x.addr), x.pages) ensures p in s.m {
      assert R.InRange(Pg(x.addr), x.pages, p);
    }
  }

  /** The value of PopLast, with the erased mapping spelled out. */
  lemma PopLastValue(s: Heap, k: nat, base: nat)
    requires ChainOk(s, k, base)
    ensures CanUnmap(s, LastRef(s), Last(s).addr, Last(s).pages)
    ensures PopLast(s) == s.(brk := s.brk[..|s.brk| - 1], m := s.m - R.Range(Pg(Last(s).addr), Last(s).pages),
                             a := A.FreeRegion(s.a, Last(s).region))
  {
    CanPop(s, k, base);
    var n, x := |s.brk| - 1, Last(s);
    var y := x.(pages := 0);
    var l := s.brk[n := y];
    FindEmptied(l, n);
    assert Erase(l, n) == s.brk[..n];
  }

  /** An earlier mapping ends before a later one starts. */
  lemma {:induction false} ChainOrder(s: Heap, k: nat, base: nat, i: nat, j: nat)
    requires ChainOk(s, k, base) && k <= i < j < |s.brk|
    ensures s.brk[i].addr + 0x1000 * s.brk[i].pages <= s.brk[j].addr
    ensures Pg(s.brk[i].addr) + s.brk[i].pages <= Pg(s.brk[j].addr)
    ensures s.brk[i].length % 0x1000 == 0
    decreases j - i
  {
    var x := s.brk[i];
    assert Locked(s, x) && Linked(s, i);
    assert A.WellFormed(RegionOf(s, x));
    EndOf(x);
    if i + 1 < j {
      ChainOrder(s, k, base, i + 1, j);
      assert Locked(s, s.brk[i + 1]);
    }
    PgBound(x.addr, x.pages, s.brk[j].addr);
  }

  lemma PgBound(a: nat, n: nat, b: nat)
    requires a % 0x1000 == 0 && a + 0x1000 * n <= b
    ensures Pg(a) + n <= Pg(b)
  {
    PgAligned(a, n);
  }

  /** Mappings below the last keep lock and translation when the last one is taken away. */
  lemma PopChain(s: Heap, k: nat, base: nat, s': Heap)
    requires ChainOk(s, k, base) && |s.brk| - 1 > k && A.Inv(s'.a)
    requires s'.brk == s.brk[..|s.brk| - 1] && s'.m == s.m - R.Range(Pg(Last(s).addr), Last(s).pages)
    requires |s'.a.regions| == |s.a.regions|
    requires forall g: nat | g < |s.a.regions| && g != Last(s).region :: s'.a.regions[g] == s.a.regions[g]
    requires forall g | g in s.a.used && g != Last(s).region :: g in s'.a.used
    ensures ChainOk(s', k, base)
  {
    hide A.Inv, Pg;
    var n := |s.brk| - 1;
    forall i | k <= i < n ensures Locked(s', s'.brk[i]) && Linear(s'.m, s'.brk[i]) {
      assert Locked(s, s.brk[i]) && Linear(s.m, s.brk[i]);
      ChainOrder(s, k, base, i, n);
    }
    forall i | k <= i < n - 1 ensures Linked(s', i) {
      assert Linked(s, i) && Locked(s, s.brk[i]) && s.brk[i].region != s.brk[n].region;
    }
  }

  lemma PopTop(s: Heap, k: nat, base: nat, limit: nat, top: nat, s': Heap)
    requires BrkOk(s, k, base, limit, top) && |s.brk| - 1 > k && ChainOk(s', k, base)
    requires s'.brk == s.brk[..|s.brk| - 1] && |s'.a.regions| == |s.a.regions|
    ensures TopOk(s', limit, Last(s).addr) && base <= Last(s).addr && Last(s).addr % 0x1000 == 0
    ensures Pg(top) == Pg(Last(s).addr) + Last(s).pages && Pg(top) <= Pg(limit)
  {
    var n := |s.brk| - 1;
    assert Locked(s, s.brk[n]) && Locked(s, s.brk[n - 1]) && Linked(s, n - 1);
    ChainOrder(s, k, base, n - 1, n);
    ChainOrder(s, k, base, k, n);
    EndOf(s.brk[n]);
  }

  /** A round of free_unused_mappings shortens the chain by its last mapping. */
  lemma PopKeeps(s: Heap, k: nat, base: nat, limit: nat, top: nat)
    requires BrkOk(s, k, base, limit, top) && |s.brk| - 1 > k
    ensures CanUnmap(s, LastRef(s), Last(s).addr, Last(s).pages)
    ensures BrkOk(PopLast(s), k, base, limit, Last(s).addr) && |PopLast(s).brk| == |s.brk| - 1
    ensures Survive(s.m, PopLast(s).m, base, Last(s).addr) && PopLast(s).curbrk == s.curbrk
    ensures PopLast(s).mmap == s.mmap
  {
    PopLastValue(s, k, base);
    assert Locked(s, Last(s));
    A.FreedRegion(s.a, Last(s).region);
    hide Pg, A.Inv, Locked, Linear, R.Range, PopLast, CanUnmap, A.FreeRegion, ChainOk, TopOk;
    var s' := PopLast(s);
    PopChain(s, k, base, s');
    PopTop(s, k, base, limit, top, s');
    PopPages(s.m, s'.m, base, limit, top, Last(s));
  }

  lemma PopPages(m: P.PageMap, m': P.PageMap, base: nat, limit: nat, top: nat, x: Mapping)
    requires m' == m - R.Range(Pg(x.addr), x.pages) && Pg(top) == Pg(x.addr) + x.pages && Pg(top) <= Pg(limit)
    requires PagesOk(m, base, limit, top)
    ensures PagesOk(m', base, limit, x.addr) && Survive(m, m', base, x.addr)
  {
    forall p: nat | R.Between(Pg(base), Pg(limit), p) ensures p in m' <==> p < Pg(x.addr) {
      assert p in R.Range(Pg(x.addr), x.pages) <==> R.InRange(Pg(x.addr), x.pages, p);
    }
    forall p: nat | R.Between(Pg(base), Pg(x.addr), p) ensures p in m && p in m' && m'[p] == m[p] {
      assert R.Between(Pg(base), Pg(limit), p);
    }
  }

  // ----- slice_end

  lemma TrimArith(x: Mapping, b: nat)
    requires x.addr % 0x1000 == 0 && b % 0x1000 == 0 && x.addr < b < x.addr + x.length
    requires x.pages == PagesFromSize(x.length)
    ensures var cnt := PagesFromSize(x.addr + x.length - b);
            && 0 < cnt < x.pages && Pg(b) == Pg(x.addr) + (x.pages - cnt)
            && PagesFromSize(b - x.addr) == x.pages - cnt && b - x.addr == 0x1000 * (x.pages - cnt)
            && Contains(x, b + (cnt - 1) * 0x1000)
  {
    var k := (b - x.addr) / 0x1000;
    assert b == x.addr + 0x1000 * k;
    PgAligned(x.addr, k);
  }

  lemma CanTrim(s: Heap, k: nat, base: nat, b: nat)
    requires ChainOk(s, k, base) && b % 0x1000 == 0 && Last(s).addr < b < Last(s).addr + Last(s).length
    ensures CanUnmap(s, LastRef(s), b, PagesFromSize(Last(s).addr + Last(s).length - b))
  {
    var x := Last(s);
    assert Locked(s, x) && Linear(s.m, x);
    TrimArith(x, b);
    hide Pg, PagesFromSize;
    forall p | p in R.Range(Pg(b), PagesFromSize(x.addr + x.length - b)) ensures p in s.m {
      assert R.InRange(Pg(x.addr), x.pages, p);
    }
  }

  lemma TrimLastValue(s: Heap, k: nat, base: nat, b: nat)
    requires ChainOk(s, k, base) && b % 0x1000 == 0 && Last(s).addr < b < Last(s).addr + Last(s).length
    ensures var x, cnt := Last(s), PagesFromSize(Last(s).addr + Last(s).length - b);
            && CanUnmap(s, LastRef(s), b, cnt)
            && TrimLast(s, b) ==
               s.(brk := s.brk[|s.brk| - 1 := SetLength(x, b - x.addr)], m := s.m - R.Range(Pg(b), cnt))
  {
    hide Pg, PagesFromSize, CanUnmap, ChainOk;
    LastFacts(s, k, base);
    CanTrim(s, k, base, b);
    TrimArith(Last(s), b);
    var n, x, cnt := |s.brk| - 1, Last(s), PagesFromSize(Last(s).addr + Last(s).length - b);
    assert s.brk[n := x.(pages := x.pages - cnt)][n := SetLength(x, b - x.addr)]
        == s.brk[n := SetLength(x, b - x.addr)];
  }

  /** Changing the length of the last mapping within its region, with the page map adjusted,
      keeps the chain. */
  lemma RelengthChain(s: Heap, k: nat, base: nat, s': Heap, y: Mapping)
    requires ChainOk(s, k, base) && s'.brk == s.brk[|s.brk| - 1 := y] && s'.a == s.a
    requires y == SetLength(Last(s), y.length) && 0 < y.length <= RegionOf(s, Last(s)).size && Linear(s'.m, y)
    requires forall p: nat | p < Pg(y.addr) && p in s.m :: p in s'.m && s'.m[p] == s.m[p]
    ensures ChainOk(s', k, base)
  {
    hide A.Inv, Pg;
    var n := |s.brk| - 1;
    forall i | k <= i < |s'.brk| ensures Locked(s', s'.brk[i]) && Linear(s'.m, s'.brk[i]) {
      assert Locked(s, s.brk[i]) && Linear(s.m, s.brk[i]);
      if i < n { ChainOrder(s, k, base, i, n); }
    }
    forall i | k <= i < |s'.brk| - 1 ensures Linked(s', i) {
      assert Linked(s, i);
    }
  }

  lemma TrimPages(m: P.PageMap, m': P.PageMap, base: nat, limit: nat, top: nat, x: Mapping, b: nat, cnt: nat)
    requires m' == m - R.Range(Pg(b), cnt) && Pg(b) == Pg(x.addr) + (x.pages - cnt) && cnt <= x.pages
    requires Pg(top) == Pg(x.addr) + x.pages && Pg(top) <= Pg(limit) && PagesOk(m, base, limit, top) && Linear(m, x)
    ensures PagesOk(m', base, limit, b) && Survive(m, m', base, b)
    ensures forall p: nat | p < Pg(b) && p in m :: p in m' && m'[p] == m[p]
  {
    forall p: nat | p < Pg(b) && p in m ensures p in m' && m'[p] == m[p] {
      assert p !in R.Range(Pg(b), cnt);
    }
    forall p: nat | R.Between(Pg(base), Pg(limit), p) ensures p in m' <==> p < Pg(b) {
      assert p in R.Range(Pg(b), cnt) <==> R.InRange(Pg(b), cnt, p);
    }
    forall p: nat | R.Between(Pg(base), Pg(b), p) ensures p in m && p in m' && m'[p] == m[p] {
      assert R.Between(Pg(base), Pg(limit), p);
    }
  }

  lemma TrimKeeps(s: Heap, k: nat, base: nat, limit: nat, top: nat, b: nat)
    requires BrkOk(s, k, base, limit, top) && b % 0x1000 == 0 && Last(s).addr < b < Last(s).addr + Last(s).length
    ensures CanUnmap(s, LastRef(s), b, PagesFromSize(Last(s).addr + Last(s).length - b))
    ensures BrkOk(TrimLast(s, b), k, base, limit, b) && Survive(s.m, TrimLast(s, b).m, base, b)
  {
    hide Pg, PagesFromSize, PagesizeAlign, CanUnmap, TrimLast, R.Range, ChainOk, PagesOk, Survive;
    var x, cnt := Last(s), PagesFromSize(Last(s).addr + Last(s).length - b);
    LastFacts(s, k, base);
    LastBelowTop(s, k, base, limit, top);
    TrimLastValue(s, k, base, b);
    TrimArith(x, b);
    EndOf(x);
    PgBound(top, 0, limit);
    var s', y := TrimLast(s, b), SetLength(x, b - x.addr);
    TrimPages(s.m, s'.m, base, limit, top, x, b, cnt);
    assert Linear(s'.m, y) by {
      forall p: nat | R.InRange(Pg(y.addr), y.pages, p)
        ensures p in s'.m && s'.m[p] == P.Page(y.host + 0x1000 * (p - Pg(y.addr)), true, false)
      {
        assert R.InRange(Pg(x.addr), x.pages, p);
      }
    }
    RelengthChain(s, k, base, s', y);
  }

  lemma LastFacts(s: Heap, k: nat, base: nat)
    requires ChainOk(s, k, base)
    ensures k < |s.brk| && Last(s).region < |s.a.regions| && Locked(s, Last(s)) && A.WellFormed(RegionOf(s, Last(s)))
    ensures Linear(s.m, Last(s))
  {
    assert Locked(s, Last(s)) && Linear(s.m, Last(s));
  }

  // ----- growing the last mapping

  lemma ExtendPages(m: P.PageMap, base: nat, limit: nat, top: nat, x: Mapping, y: Mapping, top': nat)
    requires PagesOk(m, base, limit, top) && Linear(m, x) && OptsOf(y) == Opts(true, false)
    requires y.host == x.host && y.addr == x.addr && x.pages <= y.pages && Pg(base) <= Pg(x.addr)
    requires Pg(top) == Pg(x.addr) + x.pages && Pg(top') == Pg(y.addr) + y.pages <= Pg(limit)
    ensures R.RangeOk(m, Pg(y.addr), y.host, y.pages)
    ensures var m' := R.Overlay(m, Pg(y.addr), y.host, y.pages, OptsOf(y));
            && PagesOk(m', base, limit, top') && Survive(m, m', base, top) && Linear(m', y)
            && (forall p: nat | p < Pg(y.addr) && p in m :: p in m' && m'[p] == m[p])
  {
    var m' := R.Overlay(m, Pg(y.addr), y.host, y.pages, OptsOf(y));
    forall p | p in m && R.InRange(Pg(y.addr), y.pages, p) ensures m[p].host == y.host + 0x1000 * (p - Pg(y.addr)) {
      assert R.Between(Pg(base), Pg(limit), p);
      assert R.InRange(Pg(x.addr), x.pages, p);
    }
    forall p: nat | R.Between(Pg(base), Pg(limit), p) ensures p in m' <==> p < Pg(top') {
      assert R.InRange(Pg(y.addr), y.pages, p) <==> Pg(y.addr) <= p < Pg(top');
    }
    forall p: nat | R.Between(Pg(base), Pg(top), p) ensures p in m && p in m' && m'[p] == m[p] {
      assert R.Between(Pg(base), Pg(limit), p);
      assert p >= Pg(x.addr) ==> R.InRange(Pg(x.addr), x.pages, p);
    }
  }

  /** HeapManager::map of a longer last mapping. */
  lemma ExtendKeeps(s: Heap, k: nat, base: nat, limit: nat, top: nat, y: Mapping, top': nat)
    requires BrkOk(s, k, base, limit, top) && y == SetLength(Last(s), y.length)
    requires Last(s).region < |s.a.regions| && Last(s).length <= y.length <= RegionOf(s, Last(s)).size
    requires y.length % 0x1000 == 0 || y.length == Last(s).length
    requires top' == y.addr + PagesizeAlign(y.length) <= limit
    ensures R.RangeOk(s.m, Pg(y.addr), y.host, y.pages)
    ensures var s' := MapIn(Set(s, LastRef(s), y), y);
            && BrkOk(s', k, base, limit, top') && Survive(s.m, s'.m, base, top)
            && |s'.brk| == |s.brk| && Last(s') == y && s'.curbrk == s.curbrk && s'.a == s.a
  {
    var n, x := |s.brk| - 1, Last(s);
    assert Locked(s, x) && Linear(s.m, x);
    EndOf(x);
    EndOf(y);
    PgBound(top', 0, limit);
    if k < n { ChainOrder(s, k, base, k, n); }
    assert A.UsedOk(s.a, {}, x.region);
    hide Pg, PagesFromSize, A.Inv, A.Listed, R.Overlay;
    ExtendPages(s.m, base, limit, top, x, y, top');
    RelengthChain(s, k, base, MapIn(Set(s, LastRef(s), y), y), y);
  }

  /** grow_to_fill and map. */
  lemma FillKeeps(s: Heap, k: nat, base: nat, limit: nat, top: nat)
    requires BrkOk(s, k, base, limit, top) && RegionOf(s, Last(s)).addr + RegionOf(s, Last(s)).size <= limit
    ensures var y := GrowToFill(s.a, Last(s));
            R.RangeOk(s.m, Pg(y.addr), y.host, y.pages)
    ensures var s', end := FillLast(s), RegionOf(s, Last(s)).addr + RegionOf(s, Last(s)).size;
            && BrkOk(s', k, base, limit, end) && Survive(s.m, s'.m, base, top) && top <= end
            && |s'.brk| == |s.brk| && Last(s').length == RegionOf(s, Last(s)).size
               && Last(s').region == Last(s).region && s'.curbrk == s.curbrk && s'.a == s.a
  {
    var x := Last(s);
    assert Locked(s, x) && A.WellFormed(RegionOf(s, x));
    var y := GrowToFill(s.a, x);
    assert y == SetLength(x, y.length);
    ExtendKeeps(s, k, base, limit, top, y, y.addr + PagesizeAlign(y.length));
  }

  /** brk inside the region. */
  lemma GrowKeeps(s: Heap, k: nat, base: nat, limit: nat, newbrk: nat)
    requires BrkOk(s, k, base, limit, s.curbrk) && newbrk % 0x1000 == 0 && s.curbrk <= newbrk <= limit
    requires Fits(s.a, Last(s), newbrk - 1)
    ensures var y := Grow(s.a, Last(s), Last(s).length + (newbrk - s.curbrk));
            && y.length == Last(s).length + (newbrk - s.curbrk) && R.RangeOk(s.m, Pg(y.addr), y.host, y.pages)
    ensures var s' := GrowLast(s, newbrk);
            BrkOk(s', k, base, limit, newbrk) && Survive(s.m, s'.m, base, s.curbrk) && s'.curbrk == newbrk
  {
    hide PagesizeAlign, PagesFromSize, Pg, ChainOk, PagesOk, Survive, MapIn;
    var x := Last(s);
    LastFacts(s, k, base);
    var l := x.length + (newbrk - s.curbrk);
    GrowArith(x.addr, x.length, RegionOf(s, x).size, s.curbrk, newbrk);
    assert Grow(s.a, x, l) == SetLength(x, l);
    ExtendKeeps(s, k, base, limit, s.curbrk, SetLength(x, l), newbrk);
    SetCurbrk(MapIn(Set(s, LastRef(s), SetLength(x, l)), SetLength(x, l)), k, base, limit, newbrk, newbrk);
  }

  lemma SetCurbrk(s: Heap, k: nat, base: nat, limit: nat, top: nat, c: nat)
    requires BrkOk(s, k, base, limit, top)
    ensures BrkOk(s.(curbrk := c), k, base, limit, top)
  {
    var s' := s.(curbrk := c);
    forall i | k <= i < |s.brk| ensures Locked(s', s'.brk[i]) { assert Locked(s, s.brk[i]); }
    forall i | k <= i < |s.brk| - 1 ensures Linked(s', i) { assert Linked(s, i); }
  }

  lemma GrowArith(addr: nat, length: nat, size: nat, cur: nat, newbrk: nat)
    requires addr % 0x1000 == 0 && size % 0x1000 == 0 && newbrk % 0x1000 == 0 && 0 < length <= size
    requires cur == addr + PagesizeAlign(length) && (length % 0x1000 != 0 ==> PagesizeAlign(length) == size)
    requires cur <= newbrk <= addr + size
    ensures var l := length + (newbrk - cur);
            && l <= size && (l % 0x1000 == 0 || l == length) && addr + PagesizeAlign(l) == newbrk
            && (l == length ==> newbrk == cur)
  {
    if length % 0x1000 == 0 {
      assert cur == addr + length;
    } else {
      assert newbrk == cur;
    }
  }

  // ----- a new mapping behind the last

  lemma AppendPages(m: P.PageMap, base: nat, limit: nat, top: nat, y: Mapping, top': nat)
    requires PagesOk(m, base, limit, top) && OptsOf(y) == Opts(true, false) && Pg(base) <= Pg(y.addr)
    requires Pg(top) == Pg(y.addr) && Pg(top') == Pg(y.addr) + y.pages <= Pg(limit)
    ensures R.RangeOk(m, Pg(y.addr), y.host, y.pages)
    ensures var m' := R.Overlay(m, Pg(y.addr), y.host, y.pages, OptsOf(y));
            && PagesOk(m', base, limit, top') && Survive(m, m', base, top) && Linear(m', y)
            && (forall p: nat | p < Pg(y.addr) && p in m :: p in m' && m'[p] == m[p])
  {
    ExtendPages(m, base, limit, top, y.(pages := 0, length := 0), y, top');
  }

  lemma AppendChain(s: Heap, k: nat, base: nat, s': Heap, y: Mapping)
    requires ChainOk(s, k, base) && Last(s).length == RegionOf(s, Last(s)).size
    requires s'.brk == s.brk + [y] && A.Inv(s'.a) && Locked(s', y) && Linear(s'.m, y) && y.pages > 0
    requires y.addr == Last(s).addr + Last(s).length && y.region !in s.a.used
    requires forall g | g in s.a.used ::
               g in s'.a.used && g < |s.a.regions| && g < |s'.a.regions| && s'.a.regions[g] == s.a.regions[g]
    requires forall p: nat | p < Pg(y.addr) && p in s.m :: p in s'.m && s'.m[p] == s.m[p]
    ensures ChainOk(s', k, base)
  {
    hide A.Inv, Pg;
    var n := |s.brk|;
    forall i | k <= i < n ensures Locked(s', s'.brk[i]) && Linear(s'.m, s'.brk[i])
        && Pg(s.brk[i].addr) + s.brk[i].pages <= Pg(y.addr) {
      assert Locked(s, s.brk[i]) && Linear(s.m, s.brk[i]);
      ChainEnd(s, k, base, i);
    }
    forall i | k <= i < n ensures Linked(s', i) {
      assert Locked(s, s.brk[i]);
      assert i < n - 1 ==> Linked(s, i);
    }
  }

  lemma ChainEnd(s: Heap, k: nat, base: nat, i: nat)
    requires ChainOk(s, k, base) && k <= i < |s.brk| && Last(s).length == RegionOf(s, Last(s)).size
    ensures Pg(s.brk[i].addr) + s.brk[i].pages <= Pg(Last(s).addr + Last(s).length)
  {
    var x := Last(s);
    assert Locked(s, x) && A.WellFormed(RegionOf(s, x));
    EndOf(x);
    if i < |s.brk| - 1 {
      ChainOrder(s, k, base, i, |s.brk| - 1);
    }
  }

  lemma BaseBelow(s: Heap, k: nat, base: nat)
    requires ChainOk(s, k, base)
    ensures base <= Last(s).addr && base > 0 && base % 0x1000 == 0
  {
    assert Locked(s, s.brk[k]);
    if k < |s.brk| - 1 {
      ChainOrder(s, k, base, k, |s.brk| - 1);
    }
  }

  lemma AppendKeeps(s: Heap, k: nat, base: nat, limit: nat, top: nat, newbrk: nat, r: A.Allocated)
    requires BrkOk(s, k, base, limit, top) && Last(s).length == RegionOf(s, Last(s)).size
    requires top % 0x1000 == 0 && newbrk % 0x1000 == 0 && top < newbrk <= limit
    requires A.Serves(s.a, newbrk - top, r)
    ensures var y := NewMapping(r.s, r.h, top, newbrk - top, RW, true, 0, 0);
            R.RangeOk(s.m, Pg(y.addr), y.host, y.pages)
    ensures var s' := Append(s, top, newbrk, r);
            BrkOk(s', k, base, limit, newbrk) && Survive(s.m, s'.m, base, top) && s'.curbrk == s.curbrk
  {
    var x, s' := Last(s), Append(s, top, newbrk, r);
    assert Locked(s, x) && A.WellFormed(RegionOf(s, x));
    var y := NewMapping(r.s, r.h, top, newbrk - top, RW, true, 0, 0);
    A.SetAddrKeeps(r.s, r.h, top);
    EndOf(x);
    EndOf(y);
    PgBound(newbrk, 0, limit);
    BaseBelow(s, k, base);
    PgBound(base, 0, top);
    AppendPages(s.m, base, limit, top, y, newbrk);
    AppendChain(s, k, base, s', y);
  }

  // ----- brk

  /** free_unused_mappings */
  ghost function FreeUnused(s: Heap, newbrk: nat): Heap
    decreases |s.brk|
  {
    if |s.brk| > 0 && newbrk <= Last(s).addr && CanUnmap(s, LastRef(s), Last(s).addr, Last(s).pages)
       && |PopLast(s).brk| < |s.brk|
    then FreeUnused(PopLast(s), newbrk) else s
  }

  /** The address from which shrink cuts. */
  function SliceBase(newbrk: nat): nat { if newbrk % 0x1000 == 0 then newbrk else NextPage(newbrk) }

  ghost function Shrink(s: Heap, newbrk: nat): Heap {
    var s1, b := FreeUnused(s, newbrk), SliceBase(newbrk);
    if |s1.brk| > 0 && Last(s1).addr + Last(s1).length > b
       && CanUnmap(s1, LastRef(s1), b, PagesFromSize(Last(s1).addr + Last(s1).length - b))
    then TrimLast(s1, b).(curbrk := newbrk) else s1.(curbrk := newbrk)
  }

  /** What brk asks the allocator for when the request leaves the last region. */
  function GrowRequest(s: Heap, newbrk: nat): int
    requires |s.brk| > 0 && Last(s).region < |s.a.regions|
  {
    newbrk - (RegionOf(s, Last(s)).addr + RegionOf(s, Last(s)).size)
  }

  /** brk beyond the last region, given the allocation that grow makes. */
  ghost function GrowBeyond(s: Heap, newbrk: nat, r: A.Allocated): Heap
    requires |s.brk| > 0 && Last(s).region < |s.a.regions| && GrowRequest(s, newbrk) > 0 && r.h < |r.s.regions|
  {
    var end := RegionOf(s, Last(s)).addr + RegionOf(s, Last(s)).size;
    Append(FillLast(s).(curbrk := end), end, newbrk, r).(curbrk := newbrk)
  }

  lemma {:induction false} FreeUnusedKeeps(s: Heap, k: nat, base: nat, limit: nat, top: nat, newbrk: nat)
    returns (top': nat)
    requires BrkOk(s, k, base, limit, top) && base < newbrk <= top
    ensures var s' := FreeUnused(s, newbrk);
            && newbrk <= top' <= top && BrkOk(s', k, base, limit, top') && Survive(s.m, s'.m, base, top')
            && Last(s').addr < newbrk && s'.curbrk == s.curbrk && s'.mmap == s.mmap
            && if newbrk > Last(s).addr then s' == s else Last(s').length % 0x1000 == 0
    decreases |s.brk|
  {
    BaseBelow(s, k, base);
    if newbrk <= Last(s).addr {
      PopKeeps(s, k, base, limit, top);
      LastBelowTop(s, k, base, limit, top);
      PopFull(s, k, base);
      hide PopLast, CanUnmap, ChainOk, PagesOk, Survive;
      var s1 := PopLast(s);
      assert FreeUnused(s, newbrk) == FreeUnused(s1, newbrk);
      top' := FreeUnusedKeeps(s1, k, base, limit, Last(s).addr, newbrk);
      SurviveTrans(s.m, s1.m, FreeUnused(s1, newbrk).m, base, Last(s).addr, top');
    } else {
      top' := top;
      SurviveSelf(s, k, base, limit, top, top);
    }
  }

  lemma PopFull(s: Heap, k: nat, base: nat)
    requires ChainOk(s, k, base) && k < |s.brk| - 1
    ensures |PopLast(s).brk| > 0 && Last(PopLast(s)).length % 0x1000 == 0
  {
    hide PopLast, CanUnmap, A.FreeRegion, R.Range, Linear, Pg;
    PopLastValue(s, k, base);
    assert Linked(s, |s.brk| - 2);
  }

  lemma LastBelowTop(s: Heap, k: nat, base: nat, limit: nat, top: nat)
    requires BrkOk(s, k, base, limit, top)
    ensures Last(s).addr < top && top % 0x1000 == 0 && Last(s).addr % 0x1000 == 0
    ensures Last(s).addr + Last(s).length <= top < Last(s).addr + Last(s).length + 0x1000
  {
    assert Locked(s, Last(s));
  }

  lemma SurviveTrans(m0: P.PageMap, m1: P.PageMap, m2: P.PageMap, base: nat, to1: nat, to2: nat)
    requires Survive(m0, m1, base, to1) && Survive(m1, m2, base, to2)
    ensures Survive(m0, m2, base, if to1 <= to2 then to1 else to2)
  {
    forall p: nat | R.Between(Pg(base), Pg(if to1 <= to2 then to1 else to2), p)
      ensures p in m0 && p in m2 && m2[p] == m0[p]
    {
      assert R.Between(Pg(base), Pg(to1), p) && R.Between(Pg(base), Pg(to2), p);
    }
  }

  lemma SurviveSelf(s: Heap, k: nat, base: nat, limit: nat, top: nat, to: nat)
    requires BrkOk(s, k, base, limit, top) && to <= top
    ensures Survive(s.m, s.m, base, to)
  {
    forall p: nat | R.Between(Pg(base), Pg(to), p) ensures p in s.m {
      assert R.Between(Pg(base), Pg(limit), p);
    }
  }

  // ----- brk as a whole

  /** HeapManager::brk; r is the allocation of grow, used only beyond the last region. */
  ghost function Brk(s: Heap, newbrk: nat, r: A.Allocated): Heap {
    if newbrk < s.curbrk then Shrink(s, newbrk)
    else if !(|s.brk| > 0 && Last(s).region < |s.a.regions|) || newbrk == 0 then s
    else if Fits(s.a, Last(s), newbrk - 1) then GrowLast(s, newbrk)
    else if GrowRequest(s, newbrk) > 0 && r.h < |r.s.regions| then GrowBeyond(s, newbrk, r)
    else s
  }

  /** The request of grow is served when brk gets there. */
  ghost predicate Served(s: Heap, newbrk: nat, r: A.Allocated) {
    |s.brk| > 0 && Last(s).region < |s.a.regions| && GrowRequest(s, newbrk) > 0 && newbrk >= s.curbrk ==>
      A.Serves(s.a, GrowRequest(s, newbrk), r)
  }

  /** Shrinking to any address, aligned or not: exactly the pages up to the next page boundary are left.
      The list of mmap stays as it is. */
  lemma ShrinkKeeps(s: Heap, k: nat, base: nat, limit: nat, newbrk: nat)
    requires BrkOk(s, k, base, limit, s.curbrk) && base < newbrk < s.curbrk
    ensures var s', b := Shrink(s, newbrk), 0x1000 * ((newbrk + 0xFFF) / 0x1000);
            && BrkOk(s', k, base, limit, b) && Survive(s.m, s'.m, base, b) && s'.curbrk == newbrk && s'.mmap == s.mmap
  {
    hide ChainOk, PagesOk, Survive, FreeUnused, TrimLast, CanUnmap, PagesFromSize, PagesizeAlign, SliceBase;
    var s1, b := FreeUnused(s, newbrk), SliceBase(newbrk);
    var top := FreeUnusedKeeps(s, k, base, limit, s.curbrk, newbrk);
    LastBelowTop(s1, k, base, limit, top);
    SliceBaseIs(newbrk, top);
    if Last(s1).addr + Last(s1).length > b {
      TrimKeeps(s1, k, base, limit, top, b);
      ChainTrim(s1, k, base, limit, top, b);
      SurviveTrans(s.m, s1.m, TrimLast(s1, b).m, base, top, b);
      SetCurbrk(TrimLast(s1, b), k, base, limit, b, newbrk);
    } else {
      assert top == b by { AlignedEnd(Last(s1).addr + Last(s1).length, b, top); }
      SetCurbrk(s1, k, base, limit, top, newbrk);
    }
  }

  lemma SliceBaseIs(newbrk: nat, top: nat)
    requires newbrk <= top && top % 0x1000 == 0
    ensures SliceBase(newbrk) == 0x1000 * ((newbrk + 0xFFF) / 0x1000) && SliceBase(newbrk) % 0x1000 == 0
    ensures newbrk <= SliceBase(newbrk) <= top
  {
    var k := newbrk / 0x1000;
    assert newbrk == 0x1000 * k + newbrk % 0x1000;
  }

  lemma ChainTrim(s: Heap, k: nat, base: nat, limit: nat, top: nat, b: nat)
    requires BrkOk(s, k, base, limit, top) && b % 0x1000 == 0 && Last(s).addr < b < Last(s).addr + Last(s).length
    ensures CanUnmap(s, LastRef(s), b, PagesFromSize(Last(s).addr + Last(s).length - b))
    ensures TrimLast(s, b).mmap == s.mmap
  {
    hide TrimLast, CanUnmap, R.Range;
    TrimLastValue(s, k, base, b);
  }

  /** When the assert of shrink fails: the new break lies in the last page of a segment whose size is no
      multiple of the page size. */
  lemma ShrinkAssert(s: Heap, k: nat, base: nat, limit: nat, newbrk: nat)
    requires BrkOk(s, k, base, limit, s.curbrk) && base < newbrk < s.curbrk
    ensures var s1 := FreeUnused(s, newbrk);
            && |s1.brk| > 0
            && (Last(s1).addr + Last(s1).length < SliceBase(newbrk) <==>
                  Last(s).length % 0x1000 != 0 && s.curbrk < newbrk + 0x1000)
  {
    hide ChainOk, PagesOk, Survive, FreeUnused, SliceBase;
    var s1, b := FreeUnused(s, newbrk), SliceBase(newbrk);
    var top := FreeUnusedKeeps(s, k, base, limit, s.curbrk, newbrk);
    LastBelowTop(s, k, base, limit, s.curbrk);
    LastBelowTop(s1, k, base, limit, top);
    SliceBaseIs(newbrk, top);
    var e := Last(s1).addr + Last(s1).length;
    if e < b {
      AlignedEnd(e, b, top);
    }
  }

  lemma AlignedEnd(e: nat, b: nat, top: nat)
    requires e <= b <= top < e + 0x1000 && b % 0x1000 == 0 && top % 0x1000 == 0
    ensures b == top
  {
  }

  lemma GrowBeyondKeeps(s: Heap, k: nat, base: nat, limit: nat, newbrk: nat, r: A.Allocated)
    requires BrkOk(s, k, base, limit, s.curbrk) && newbrk % 0x1000 == 0 && s.curbrk <= newbrk <= limit
    requires GrowRequest(s, newbrk) > 0 && A.Serves(s.a, GrowRequest(s, newbrk), r)
    ensures var s' := GrowBeyond(s, newbrk, r);
            BrkOk(s', k, base, limit, newbrk) && s'.curbrk == newbrk && Survive(s.m, s'.m, base, s.curbrk)
  {
    hide ChainOk, PagesOk, Survive, FillLast, Append, A.Inv, A.UsedStay, Pg, GrowToFill, NewMapping, R.RangeOk,
         PagesFromSize, PagesizeAlign, A.Serves, Locked, Linear, A.WellFormed;
    var x := Last(s);
    A.HandleOf(s.a, GrowRequest(s, newbrk), r);
    var end := RegionOf(s, x).addr + RegionOf(s, x).size;
    FillKeeps(s, k, base, limit, s.curbrk);
    var s1 := FillLast(s).(curbrk := end);
    SetCurbrk(FillLast(s), k, base, limit, end, end);
    LastBelowTop(s1, k, base, limit, end);
    AppendKeeps(s1, k, base, limit, end, newbrk, r);
    var s2 := Append(s1, end, newbrk, r);
    SurviveTrans(s.m, s1.m, s2.m, base, s.curbrk, end);
    SetCurbrk(s2, k, base, limit, newbrk, newbrk);
  }

  /** One brk call: contiguous mappings, exactly the pages from base to the new break present,
      and every page below both breaks translates as before. */
  lemma BrkKeeps(s: Heap, k: nat, base: nat, limit: nat, newbrk: nat, r: A.Allocated)
    requires BrkOk(s, k, base, limit, s.curbrk) && newbrk % 0x1000 == 0 && base < newbrk <= limit
    requires Served(s, newbrk, r)
    ensures var s' := Brk(s, newbrk, r);
            && BrkOk(s', k, base, limit, newbrk) && s'.curbrk == newbrk
            && Survive(s.m, s'.m, base, if newbrk < s.curbrk then newbrk else s.curbrk)
  {
    assert Locked(s, Last(s));
    LastBelowTop(s, k, base, limit, s.curbrk);
    if newbrk < s.curbrk {
      SliceBaseIs(newbrk, s.curbrk);
      ShrinkKeeps(s, k, base, limit, newbrk);
    } else if Fits(s.a, Last(s), newbrk - 1) {
      GrowKeeps(s, k, base, limit, newbrk);
    } else {
      GrowBeyondKeeps(s, k, base, limit, newbrk, r);
    }
  }

  /** What a growing brk does to the lists. Inside its region the last mapping gets longer; beyond it the last
      mapping fills its region, and a readable and writeable, anonymous one follows it. All of them are recorded on
      the list of mmap too. */
  ghost predicate Grown(s: Heap, newbrk: nat, r: A.Allocated, s': Heap) {
    && |s.brk| > 0 && Last(s).region < |s.a.regions| && |s'.brk| > 0 && s.curbrk <= newbrk
    && Recorded(s'.mmap, Last(s')) && |s.mmap| <= |s'.mmap| && s'.mmap[..|s.mmap|] == s.mmap
    && var n, x, end := |s.brk| - 1, Last(s), RegionOf(s, Last(s)).addr + RegionOf(s, Last(s)).size;
       if newbrk <= end then
         var l := x.length + (newbrk - s.curbrk);
         s'.brk == s.brk[n := x.(length := l, pages := (l + 0xFFF) / 0x1000)] && Records(s.mmap, s'.mmap, Last(s'))
       else
         && r.h < |r.s.regions|
         && s'.brk == s.brk[n := x.(length := RegionOf(s, x).size, pages := RegionOf(s, x).size / 0x1000)]
            + [Mapping(r.s.regions[r.h].host, end, newbrk - end, (newbrk - end) / 0x1000, Prot(true, true, false),
                       true, 0, 0, r.h)]
         && Recorded(s'.mmap, s'.brk[n])
  }

  lemma GrowthRecorded(s: Heap, k: nat, base: nat, limit: nat, newbrk: nat, r: A.Allocated)
    requires BrkOk(s, k, base, limit, s.curbrk) && newbrk % 0x1000 == 0 && s.curbrk <= newbrk <= limit
    requires Served(s, newbrk, r)
    ensures Grown(s, newbrk, r, Brk(s, newbrk, r))
  {
    hide ChainOk, PagesOk, A.Inv, Pg, R.Overlay, FindSame, A.Serves, Records, Recorded, A.SetAddr;
    LastFacts(s, k, base);
    LastBelowTop(s, k, base, limit, s.curbrk);
    var x, region := Last(s), RegionOf(s, Last(s));
    if newbrk <= region.addr + region.size {
      GrowArith(x.addr, x.length, region.size, s.curbrk, newbrk);
      InsideRecorded(s, newbrk);
    } else {
      A.HandleOf(s.a, GrowRequest(s, newbrk), r);
      BeyondRecorded(s, newbrk, r);
    }
  }

  lemma RecordsIs(l: seq<Mapping>, l': seq<Mapping>, x: Mapping)
    requires Records(l, l', x)
    ensures Recorded(l', x) && |l| <= |l'| && l'[..|l|] == l
  {
  }

  lemma InsideRecorded(s: Heap, newbrk: nat)
    requires |s.brk| > 0 && Last(s).region < |s.a.regions| && s.curbrk <= newbrk
    requires Last(s).length + (newbrk - s.curbrk) <= RegionOf(s, Last(s)).size
    requires Last(s).pages == PagesFromSize(Last(s).length)
    ensures var s', n, x := GrowLast(s, newbrk), |s.brk| - 1, Last(s);
            var l := x.length + (newbrk - s.curbrk);
            && s'.brk == s.brk[n := x.(length := l, pages := (l + 0xFFF) / 0x1000)]
            && Records(s.mmap, s'.mmap, Last(s')) && Recorded(s'.mmap, Last(s'))
            && |s.mmap| <= |s'.mmap| && s'.mmap[..|s.mmap|] == s.mmap
  {
    hide R.Overlay, FindSame, Records, Recorded, PagesFromSize;
    var x, l := Last(s), Last(s).length + (newbrk - s.curbrk);
    var y := x.(length := l, pages := PagesFromSize(l));
    assert Grow(s.a, x, l) == y;
    PageCount(l);
    MapRecords(Set(s, LastRef(s), y), y);
    RecordsIs(s.mmap, GrowLast(s, newbrk).mmap, y);
  }

  lemma PageCount(l: nat)
    ensures PagesFromSize(l) == (l + 0xFFF) / 0x1000
  {
  }

  lemma BeyondRecorded(s: Heap, newbrk: nat, r: A.Allocated)
    requires |s.brk| > 0 && Last(s).region < |s.a.regions| && GrowRequest(s, newbrk) > 0 && r.h < |r.s.regions|
    requires Locked(s, Last(s)) && A.WellFormed(RegionOf(s, Last(s))) && newbrk % 0x1000 == 0
    ensures var s', n, x, region := GrowBeyond(s, newbrk, r), |s.brk| - 1, Last(s), RegionOf(s, Last(s));
            var end := region.addr + region.size;
            && s'.brk == s.brk[n := x.(length := region.size, pages := region.size / 0x1000)]
               + [Mapping(r.s.regions[r.h].host, end, newbrk - end, (newbrk - end) / 0x1000, Prot(true, true, false),
                          true, 0, 0, r.h)]
            && Recorded(s'.mmap, s'.brk[n]) && Recorded(s'.mmap, Last(s'))
            && |s.mmap| <= |s'.mmap| && s'.mmap[..|s.mmap|] == s.mmap
  {
    hide R.Overlay, FindSame, Records, A.SetAddr, Recorded;
    var y, n := GrowToFill(s.a, Last(s)), |s.brk| - 1;
    var end := y.addr + y.length;
    var s1 := FillLast(s).(curbrk := end);
    MapRecords(Set(s, LastRef(s), y), y);
    RecordsIs(s.mmap, s1.mmap, y);
    var z := NewMapping(r.s, r.h, end, newbrk - end, RW, true, 0, 0);
    var a' := A.SetAddr(r.s, r.h, end);
    SetAddrSize(r.s, r.h, end);
    MapRecords(s1.(brk := s1.brk + [z], a := a'), z);
    var s' := GrowBeyond(s, newbrk, r);
    RecordsIs(s1.mmap, s'.mmap, z);
    RecordedStays(s1.mmap, s'.mmap, y);
    assert s'.mmap[..|s.mmap|] == s'.mmap[..|s1.mmap|][..|s.mmap|];
    PageCounts(y.length, end, newbrk);
  }

  lemma SetAddrSize(a: A.Alloc, h: nat, addr: nat)
    requires h < |a.regions|
    ensures |A.SetAddr(a, h, addr).regions| == |a.regions|
  {
  }

  lemma PageCounts(size: nat, end: nat, newbrk: nat)
    requires size % 0x1000 == 0 && end % 0x1000 == 0 && newbrk % 0x1000 == 0 && end <= newbrk
    ensures PagesFromSize(size) == size / 0x1000 && PagesFromSize(newbrk - end) == (newbrk - end) / 0x1000
  {
    var i, j := newbrk / 0x1000, end / 0x1000;
    assert newbrk - end == 0x1000 * (i - j);
  }

  lemma RecordedStays(l: seq<Mapping>, l': seq<Mapping>, x: Mapping)
    requires Recorded(l, x) && |l| <= |l'| && l'[..|l|] == l
    ensures Recorded(l', x)
  {
    var i :| 0 <= i < |l| && Compared(l[i]) == Compared(x);
    assert l'[..|l|][i] == l'[i];
  }

  // ----- init

  /** HeapManager::init with the region of a loaded segment. */
  function Init(s: Heap, h: nat, sz: nat): Heap
    requires h < |s.a.regions|
  {
    s.(brk := s.brk + [NewMapping(s.a, h, s.a.regions[h].addr, sz, RW, true, 0, 0)],
       curbrk := NextPage(s.a.regions[h].addr + sz))
  }

  /** A writable segment of sz bytes that was loaded into a region of its own and mapped: init
      starts a chain at its base. The code's assert, that the new break lies in the region,
      holds exactly when sz is not a multiple of the page size. */
  lemma InitStarts(s: Heap, h: nat, sz: nat, limit: nat)
    requires A.Inv(s.a) && h in s.a.used && h < |s.a.regions| && (forall i | 0 <= i < |s.brk| :: s.brk[i].pages > 0)
    requires var r := s.a.regions[h];
             && r.addr > 0 && r.addr % 0x1000 == 0 && sz > 0 && r.size == PagesizeAlign(sz) && r.addr + r.size <= limit
             && (forall p: nat | R.Between(Pg(r.addr), Pg(limit), p) ::
                   p in s.m <==> R.InRange(Pg(r.addr), PagesFromSize(sz), p))
             && (forall p: nat | R.InRange(Pg(r.addr), PagesFromSize(sz), p) ::
                   p in s.m && s.m[p] == P.Page(r.host + 0x1000 * (p - Pg(r.addr)), true, false))
    ensures var r, s' := s.a.regions[h], Init(s, h, sz);
            && s'.brk ==
               s.brk + [Mapping(r.host, r.addr, sz, (sz + 0xFFF) / 0x1000, Prot(true, true, false), true, 0, 0, h)]
            && s'.curbrk == r.addr + r.size + (if sz % 0x1000 == 0 then 0x1000 else 0)
            && (r.addr <= s'.curbrk - 1 < r.addr + r.size <==> sz % 0x1000 != 0)
            && (sz % 0x1000 != 0 ==> BrkOk(s', |s.brk|, r.addr, limit, s'.curbrk))
  {
    var r, s' := s.a.regions[h], Init(s, h, sz);
    var x := Last(s');
    EndOf(x);
    InitBreak(r.addr, sz);
    if sz % 0x1000 != 0 {
      assert Locked(s', x) && Linear(s'.m, x);
      InitPages(s.m, x, limit, s'.curbrk);
    }
  }

  lemma InitBreak(addr: nat, sz: nat)
    requires addr % 0x1000 == 0
    ensures NextPage(addr + sz) == addr + PagesizeAlign(sz) + if sz % 0x1000 == 0 then 0x1000 else 0
  {
    var k := addr / 0x1000;
    assert addr == 0x1000 * k;
    assert (addr + sz) % 0x1000 == sz % 0x1000;
  }

  lemma InitPages(m: P.PageMap, x: Mapping, limit: nat, top: nat)
    requires Pg(top) == Pg(x.addr) + x.pages
    requires forall p: nat | R.Between(Pg(x.addr), Pg(limit), p) :: p in m <==> R.InRange(Pg(x.addr), x.pages, p)
    ensures PagesOk(m, x.addr, limit, top)
  {
    forall p: nat | R.Between(Pg(x.addr), Pg(limit), p) ensures p in m <==> p < Pg(top) {
    }
  }

  // ----- runs

  /** grow's allocation comes from the allocator, with a fresh chunk if it needs one. */
  ghost predicate Granted(s: Heap, newbrk: nat, r: A.Allocated) {
    |s.brk| > 0 && Last(s).region < |s.a.regions| && GrowRequest(s, newbrk) > 0 && newbrk >= s.curbrk ==>
      exists c: C.Chunk :: A.Grants(s.a, GrowRequest(s, newbrk), c, r)
  }

  datatype Call = Call(newbrk: nat, r: A.Allocated)

  /** A run of page-aligned brk calls between base and limit. */
  ghost predicate Runs(s: Heap, base: nat, limit: nat, calls: seq<Call>, s': Heap)
    decreases |calls|
  {
    if |calls| == 0 then s' == s
    else
      var c := calls[0];
      && c.newbrk % 0x1000 == 0 && base < c.newbrk <= limit && Granted(s, c.newbrk, c.r)
      && Runs(Brk(s, c.newbrk, c.r), base, limit, calls[1..], s')
  }

  /** The lowest break of a run that starts at `from`. */
  function LowestBreak(from: nat, calls: seq<Call>): nat
    decreases |calls|
  {
    if |calls| == 0 then from
    else
      var low := LowestBreak(calls[0].newbrk, calls[1..]);
      if low < from then low else from
  }

  lemma GrantedServes(s: Heap, newbrk: nat, r: A.Allocated)
    requires A.Inv(s.a) && Granted(s, newbrk, r)
    ensures Served(s, newbrk, r)
  {
    if |s.brk| > 0 && Last(s).region < |s.a.regions| && GrowRequest(s, newbrk) > 0 && newbrk >= s.curbrk {
      var c: C.Chunk :| A.Grants(s.a, GrowRequest(s, newbrk), c, r);
      A.GrantsServes(s.a, GrowRequest(s, newbrk), c, r);
    }
  }

  /** After any run of page-aligned brk calls above the last initialised segment, growing or
      shrinking across any number of regions: its brk mappings are contiguous and in step with
      their regions, exactly the pages from its base to the break are present, and every page
      that lay below all breaks of the run kept its translation. */
  lemma {:induction false} RunKeeps(s: Heap, k: nat, base: nat, limit: nat, calls: seq<Call>, s': Heap)
    requires BrkOk(s, k, base, limit, s.curbrk) && Runs(s, base, limit, calls, s')
    ensures BrkOk(s', k, base, limit, s'.curbrk)
    ensures Survive(s.m, s'.m, base, LowestBreak(s.curbrk, calls))
    decreases |calls|
  {
    hide Brk, A.Inv, ChainOk, TopOk, PagesOk, Survive, Granted;
    if |calls| == 0 {
      SurviveSelf(s, k, base, limit, s.curbrk, s.curbrk);
    } else {
      var c := calls[0];
      var s1 := Brk(s, c.newbrk, c.r);
      ChainInv(s, k, base);
      GrantedServes(s, c.newbrk, c.r);
      BrkKeeps(s, k, base, limit, c.newbrk, c.r);
      RunKeeps(s1, k, base, limit, calls[1..], s');
      SurviveTrans(s.m, s1.m, s'.m, base, if c.newbrk < s.curbrk then c.newbrk else s.curbrk,
                   LowestBreak(c.newbrk, calls[1..]));
      LowestBelow(c.newbrk, calls[1..]);
    }
  }

  lemma ChainInv(s: Heap, k: nat, base: nat)
    requires ChainOk(s, k, base)
    ensures A.Inv(s.a)
  {
  }

  lemma LowestBelow(from: nat, calls: seq<Call>)
    ensures LowestBreak(from, calls) <= from
  {
  }
}
