/** Runs that mix brk with mmap, MAP_FIXED and munmap. HeapManager::map puts copies of brk mappings
    on the mmap list; the pages between the base of the heap and its limit keep them apart from the
    mappings that mmap made. */
module HeapRuns {
  import opened PageArith
  import opened PageEntry
  import P = Pager
  import A = Allocator
  import R = PagerRanges
  import opened Mappings
  import B = BrkRuns
  import M = MmapRuns

  /** The pages that brk may use. */
  function ZoneOf(base: nat, limit: nat): M.Zone { M.Zone(Pg(base), Pg(limit)) }

  /** A brk mapping from position k on has region g. */
  ghost predicate ChainRegion(s: Heap, k: nat, g: nat) { exists j: nat :: k <= j < |s.brk| && s.brk[j].region == g }

  ghost predicate HeapOk(s: Heap, k: nat, base: nat, limit: nat) {
    && B.BrkOk(s, k, base, limit, s.curbrk) && M.MmapOk(s, ZoneOf(base, limit))
    && forall g | ChainRegion(s, k, g) :: !M.OwnRegion(s, ZoneOf(base, limit), g)
  }

  // ----- mmap and munmap leave brk alone

  /** The pages of a brk mapping lie in the zone. */
  lemma ChainInside(s: Heap, k: nat, base: nat, limit: nat, top: nat, i: nat)
    requires B.BrkOk(s, k, base, limit, top) && k <= i < |s.brk|
    ensures Pg(base) <= Pg(s.brk[i].addr) && Pg(s.brk[i].addr) + s.brk[i].pages <= Pg(top) <= Pg(limit)
    ensures base <= s.brk[i].addr && M.InZone(ZoneOf(base, limit), s.brk[i])
  {
    hide A.Inv, B.Linear, B.PagesOk, PagesFromSize;
    var x, n := s.brk[i], |s.brk| - 1;
    assert B.Locked(s, x) && B.Locked(s, s.brk[k]) && B.Locked(s, s.brk[n]);
    if k < i { B.ChainOrder(s, k, base, k, i); }
    if i < n { B.ChainOrder(s, k, base, i, n); }
    B.EndOf(x);
    B.EndOf(s.brk[n]);
    B.PgBound(base, 0, x.addr);
    B.PgBound(top, 0, limit);
  }

  lemma MmapKeepsChain(s: Heap, k: nat, base: nat, limit: nat, s': Heap)
    requires HeapOk(s, k, base, limit) && M.Frame(s, ZoneOf(base, limit), s') && A.Inv(s'.a)
    ensures B.ChainOk(s', k, base) && B.TopOk(s', limit, s'.curbrk)
  {
    hide A.Inv, Pg, M.MmapOk, M.OwnRegion, PagesFromSize, B.PagesOk, PagesizeAlign;
    var zone := ZoneOf(base, limit);
    forall i | k <= i < |s.brk| ensures M.RegionStays(s.a, s'.a, s.brk[i].region) && B.Locked(s', s.brk[i]) {
      assert B.Locked(s, s.brk[i]);
      assert ChainRegion(s, k, s.brk[i].region);
    }
    forall i | k <= i < |s.brk| ensures B.Linear(s'.m, s.brk[i]) {
      ChainInside(s, k, base, limit, s.curbrk, i);
      PagesInside(s.m, s'.m, zone, s.brk[i]);
    }
    forall i | k <= i < |s.brk| - 1 ensures B.Linked(s', i) {
      assert B.Linked(s, i);
    }
  }

  lemma PagesInside(m: P.PageMap, m': P.PageMap, zone: M.Zone, x: Mapping)
    requires B.Linear(m, x) && M.SameIn(zone, m, m') && zone.lo <= Pg(x.addr) && Pg(x.addr) + x.pages <= zone.hi
    ensures B.Linear(m', x)
  {
    hide Pg;
    forall p: nat | R.InRange(Pg(x.addr), x.pages, p)
      ensures p in m' && m'[p] == P.Page(x.host + 0x1000 * (p - Pg(x.addr)), true, false)
    {
      assert R.Between(zone.lo, zone.hi, p);
    }
  }

  lemma MmapKeepsPages(m: P.PageMap, m': P.PageMap, base: nat, limit: nat, top: nat)
    requires B.PagesOk(m, base, limit, top) && M.SameIn(ZoneOf(base, limit), m, m') && Pg(top) <= Pg(limit)
    ensures B.PagesOk(m', base, limit, top) && B.Survive(m, m', base, top)
  {
    hide Pg;
    forall p: nat | R.Between(Pg(base), Pg(top), p) ensures p in m && p in m' && m'[p] == m[p] {
      assert R.Between(Pg(base), Pg(limit), p);
    }
  }

  /** A step of mmap or munmap on the common heap. */
  lemma MmapStepKeeps(s: Heap, k: nat, base: nat, limit: nat, op: M.Op, s': Heap)
    requires HeapOk(s, k, base, limit) && M.Step(s, ZoneOf(base, limit), op, s')
    ensures HeapOk(s', k, base, limit) && s'.brk == s.brk && s'.curbrk == s.curbrk
    ensures B.Survive(s.m, s'.m, base, s.curbrk)
  {
    hide A.Inv, Pg, M.MmapOk, M.Step, M.OwnRegion, B.ChainOk, B.PagesOk, B.Survive, M.SameIn;
    var zone := ZoneOf(base, limit);
    M.StepKeeps(s, zone, op, s');
    M.InvOf(s', zone);
    MmapKeepsChain(s, k, base, limit, s');
    B.LastBelowTop(s, k, base, limit, s.curbrk);
    B.PgBound(s.curbrk, 0, limit);
    MmapKeepsPages(s.m, s'.m, base, limit, s.curbrk);
    forall g | ChainRegion(s', k, g) ensures !M.OwnRegion(s', zone, g) {
      assert ChainRegion(s, k, g);
      ChainUsed(s, k, base, g);
    }
  }

  lemma ChainUsed(s: Heap, k: nat, base: nat, g: nat)
    requires B.ChainOk(s, k, base) && ChainRegion(s, k, g)
    ensures g in s.a.used
  {
    var j: nat :| k <= j < |s.brk| && s.brk[j].region == g;
    assert B.Locked(s, s.brk[j]);
  }

  // ----- brk leaves mmap alone

  ghost predicate SameOut(zone: M.Zone, m: P.PageMap, m': P.PageMap) {
    forall p: nat | !R.Between(zone.lo, zone.hi, p) :: (p in m' <==> p in m) && (p in m ==> m'[p] == m[p])
  }

  /** The mmap list only gets copies, pages outside the zone stay, and so do regions in use that
      no brk mapping has. */
  ghost predicate Frame(s: Heap, k: nat, zone: M.Zone, s': Heap) {
    && |s.mmap| <= |s'.mmap| && s'.mmap[..|s.mmap|] == s.mmap
    && (forall i | |s.mmap| <= i < |s'.mmap| :: M.InZone(zone, s'.mmap[i]) && s'.mmap[i].pages > 0)
    && SameOut(zone, s.m, s'.m)
    && (forall g | g in s.a.used && !ChainRegion(s, k, g) :: M.RegionStays(s.a, s'.a, g))
    && (forall g | ChainRegion(s', k, g) && g in s.a.used :: ChainRegion(s, k, g))
  }

  lemma FrameTrans(s: Heap, k: nat, zone: M.Zone, s1: Heap, s2: Heap)
    requires Frame(s, k, zone, s1) && Frame(s1, k, zone, s2)
    ensures Frame(s, k, zone, s2)
  {
    hide ChainRegion, M.InZone;
    assert forall g | g in s.a.used && !ChainRegion(s, k, g) :: M.RegionStays(s.a, s1.a, g);
    forall g | g in s.a.used && !ChainRegion(s, k, g) ensures M.RegionStays(s.a, s2.a, g) {
      assert M.RegionStays(s1.a, s2.a, g);
    }
    assert s2.mmap[..|s.mmap|] == s2.mmap[..|s1.mmap|][..|s.mmap|];
    forall i | |s.mmap| <= i < |s2.mmap| ensures M.InZone(zone, s2.mmap[i]) && s2.mmap[i].pages > 0 {
      if i < |s1.mmap| {
        assert s2.mmap[..|s1.mmap|][i] == s1.mmap[i];
      }
    }
  }

  lemma FrameSelf(s: Heap, k: nat, zone: M.Zone)
    requires A.Inv(s.a)
    ensures Frame(s, k, zone, s)
  {
    A.UsedInBounds(s.a);
  }

  /** What brk keeps of the mmap list and what it means for the whole heap. */
  lemma BrkKeepsMmap(s: Heap, k: nat, base: nat, limit: nat, s': Heap)
    requires HeapOk(s, k, base, limit) && B.BrkOk(s', k, base, limit, s'.curbrk) && Frame(s, k, ZoneOf(base, limit), s')
    ensures HeapOk(s', k, base, limit)
  {
    hide A.Inv, Pg, M.Live, M.Len, ChainRegion, M.InZone, B.Locked, B.Linear, B.Linked, B.PagesOk, B.TopOk, M.Off,
         SameOut, M.RegionStays, M.Separate;
    var zone := ZoneOf(base, limit);
    forall i | M.Own(s', zone, i)
      ensures M.Own(s, zone, i) && s'.mmap[i] == s.mmap[i] && M.Live(s'.a, s'.m, s.mmap[i])
    {
      assert i < |s.mmap|;
      assert s'.mmap[..|s.mmap|][i] == s.mmap[i];
      assert M.OwnRegion(s, zone, s.mmap[i].region);
      OwnStays(s, k, zone, s', i);
    }
    forall i, j | M.Own(s', zone, i) && M.Own(s', zone, j) && i < j ensures M.Separate(s'.mmap[i], s'.mmap[j]) {
      assert M.Own(s, zone, i) && M.Own(s, zone, j);
    }
    forall g | ChainRegion(s', k, g) ensures !M.OwnRegion(s', zone, g) {
      if M.OwnRegion(s', zone, g) {
        var i :| M.Own(s', zone, i) && s'.mmap[i].region == g;
        assert M.Own(s, zone, i) && M.OwnRegion(s, zone, g);
        OwnUsed(s, zone, i);
      }
    }
    MmapPages(s, zone, s');
  }

  lemma MmapPages(s: Heap, zone: M.Zone, s': Heap)
    requires forall i | 0 <= i < |s.mmap| :: s.mmap[i].pages > 0
    requires |s.mmap| <= |s'.mmap| && s'.mmap[..|s.mmap|] == s.mmap
    requires forall i | |s.mmap| <= i < |s'.mmap| :: s'.mmap[i].pages > 0
    ensures forall i | 0 <= i < |s'.mmap| :: s'.mmap[i].pages > 0
  {
    forall i | 0 <= i < |s'.mmap| ensures s'.mmap[i].pages > 0 {
      if i < |s.mmap| {
        assert s'.mmap[..|s.mmap|][i] == s.mmap[i];
      }
    }
  }

  lemma OwnUsed(s: Heap, zone: M.Zone, i: nat)
    requires M.MmapOk(s, zone) && M.Own(s, zone, i)
    ensures s.mmap[i].region in s.a.used
  {
    M.LiveAt(s, zone, i);
  }

  lemma OwnStays(s: Heap, k: nat, zone: M.Zone, s': Heap, i: nat)
    requires M.MmapOk(s, zone) && M.Own(s, zone, i) && Frame(s, k, zone, s') && !ChainRegion(s, k, s.mmap[i].region)
    ensures M.Live(s'.a, s'.m, s.mmap[i])
  {
    hide A.Inv, Pg, M.Len, ChainRegion, M.InZone;
    var x := s.mmap[i];
    M.LiveAt(s, zone, i);
    assert M.RegionStays(s.a, s'.a, x.region);
    forall p: nat | R.InRange(Pg(x.addr), M.Len(x), p)
      ensures (p in s'.m <==> p in s.m) && (p in s.m ==> s'.m[p] == s.m[p])
    {
      assert !R.Between(zone.lo, zone.hi, p);
    }
    M.LiveStays(s.a, s.m, s'.a, s'.m, x);
  }

  // ----- the parts of brk

  lemma HoleInside(zone: M.Zone, m: P.PageMap, u: nat, n: nat)
    requires zone.lo <= u && u + n <= zone.hi
    ensures SameOut(zone, m, m - R.Range(u, n))
  {
    forall p: nat | !R.Between(zone.lo, zone.hi, p) ensures p !in R.Range(u, n) {
    }
  }

  lemma OverlayInside(zone: M.Zone, m: P.PageMap, u: nat, host: nat, n: nat, opts: Opts)
    requires zone.lo <= u && u + n <= zone.hi
    ensures SameOut(zone, m, R.Overlay(m, u, host, n, opts))
  {
    forall p: nat | !R.Between(zone.lo, zone.hi, p) ensures !R.InRange(u, n, p) {
    }
  }

  lemma PopFrame(s: Heap, k: nat, base: nat, limit: nat, top: nat)
    requires B.BrkOk(s, k, base, limit, top) && |s.brk| - 1 > k
    ensures CanUnmap(s, B.LastRef(s), B.Last(s).addr, B.Last(s).pages)
    ensures Frame(s, k, ZoneOf(base, limit), B.PopLast(s))
  {
    hide A.Inv, Pg, A.FreeRegion, CanUnmap, B.PopLast, R.Range, SameOut, M.InZone, B.PagesOk, B.TopOk;
    var n, x := |s.brk| - 1, B.Last(s);
    B.PopLastValue(s, k, base);
    assert B.Locked(s, x);
    A.FreedRegion(s.a, x.region);
    ChainInside(s, k, base, limit, top, n);
    HoleInside(ZoneOf(base, limit), s.m, Pg(x.addr), x.pages);
    assert ChainRegion(s, k, x.region);
    var s' := B.PopLast(s);
    assert s'.mmap[..|s.mmap|] == s.mmap;
    forall g | ChainRegion(s', k, g) ensures ChainRegion(s, k, g) {
      var j: nat :| k <= j < |s'.brk| && s'.brk[j].region == g;
      assert s.brk[j].region == g;
    }
  }

  /** The last mapping changes inside its region; y may be copied to the mmap list. */
  lemma LastFrame(s: Heap, k: nat, base: nat, limit: nat, s': Heap, y: Mapping)
    requires A.Inv(s.a) && k < |s.brk| && y.region == B.Last(s).region && s'.a == s.a
    requires s'.brk == s.brk[|s.brk| - 1 := y] && SameOut(ZoneOf(base, limit), s.m, s'.m)
    requires s'.mmap == s.mmap || (s'.mmap == s.mmap + [y] && M.InZone(ZoneOf(base, limit), y) && y.pages > 0)
    ensures Frame(s, k, ZoneOf(base, limit), s')
  {
    hide A.Inv, Pg, M.InZone, SameOut;
    A.UsedInBounds(s.a);
    assert s'.mmap[..|s.mmap|] == s.mmap;
    forall g | ChainRegion(s', k, g) ensures ChainRegion(s, k, g) {
      var j: nat :| k <= j < |s'.brk| && s'.brk[j].region == g;
      assert s.brk[j].region == g;
    }
  }

  lemma TrimFrame(s: Heap, k: nat, base: nat, limit: nat, top: nat, b: nat)
    requires B.BrkOk(s, k, base, limit, top) && b % 0x1000 == 0
    requires B.Last(s).addr < b < B.Last(s).addr + B.Last(s).length
    ensures CanUnmap(s, B.LastRef(s), b, PagesFromSize(B.Last(s).addr + B.Last(s).length - b))
    ensures Frame(s, k, ZoneOf(base, limit), B.TrimLast(s, b))
  {
    hide A.Inv, Pg, CanUnmap, B.TrimLast, PagesFromSize, SameOut, M.InZone, B.PagesOk, B.TopOk, R.Range;
    var n, x, cnt := |s.brk| - 1, B.Last(s), PagesFromSize(B.Last(s).addr + B.Last(s).length - b);
    assert B.Locked(s, x);
    B.TrimLastValue(s, k, base, b);
    B.TrimArith(x, b);
    ChainInside(s, k, base, limit, top, n);
    HoleInside(ZoneOf(base, limit), s.m, Pg(b), cnt);
    LastFrame(s, k, base, limit, B.TrimLast(s, b), SetLength(x, b - x.addr));
  }

  /** HeapManager::map of a longer last mapping. */
  lemma ExtendFrame(s: Heap, k: nat, base: nat, limit: nat, top: nat, y: Mapping)
    requires B.BrkOk(s, k, base, limit, top) && y == SetLength(B.Last(s), y.length) && y.length > 0
    requires y.addr + PagesizeAlign(y.length) <= limit && B.Last(s).region < |s.a.regions|
    ensures Frame(s, k, ZoneOf(base, limit), MapIn(Set(s, B.LastRef(s), y), y))
  {
    hide A.Inv, Pg, SameOut, B.PagesOk, B.TopOk, R.Overlay, FindSame, PagesFromSize, PagesizeAlign;
    var x := B.Last(s);
    assert B.Locked(s, x);
    A.NotFree(s.a, x.region);
    ChainInside(s, k, base, limit, top, |s.brk| - 1);
    B.EndOf(y);
    B.PgBound(y.addr, y.pages, limit);
    OverlayInside(ZoneOf(base, limit), s.m, Pg(y.addr), y.host, y.pages, OptsOf(y));
    LastFrame(s, k, base, limit, MapIn(Set(s, B.LastRef(s), y), y), y);
  }

  /** A mapping on a new region behind the last one. */
  lemma AppendFrame(s: Heap, k: nat, base: nat, limit: nat, top: nat, newbrk: nat, r: A.Allocated)
    requires A.Inv(s.a) && base <= top < newbrk <= limit && base % 0x1000 == 0 && top % 0x1000 == 0
    requires newbrk % 0x1000 == 0
    requires k < |s.brk| && top > 0 && A.Serves(s.a, newbrk - top, r)
    ensures Frame(s, k, ZoneOf(base, limit), B.Append(s, top, newbrk, r))
  {
    hide A.Inv, Pg, SameOut, R.Overlay, FindSame, PagesFromSize, PagesizeAlign, A.UsedStay;
    var y := NewMapping(r.s, r.h, top, newbrk - top, B.RW, true, 0, 0);
    var s', zone := B.Append(s, top, newbrk, r), ZoneOf(base, limit);
    M.LengthMinus(newbrk, top);
    M.PageArithmetic(top, newbrk - top);
    B.PgBound(y.addr, y.pages, limit);
    B.PgBound(base, 0, top);
    OverlayInside(zone, s.m, Pg(y.addr), y.host, y.pages, OptsOf(y));
    AppendRegions(s, newbrk - top, r, top);
    assert s'.mmap[..|s.mmap|] == s.mmap;
    forall g | ChainRegion(s', k, g) && g in s.a.used ensures ChainRegion(s, k, g) {
      var j: nat :| k <= j < |s'.brk| && s'.brk[j].region == g;
      assert s.brk[j].region == g;
    }
  }

  lemma AppendRegions(s: Heap, size: nat, r: A.Allocated, addr: nat)
    requires A.Inv(s.a) && A.Serves(s.a, size, r)
    ensures r.h !in s.a.used && r.h < |r.s.regions| && !r.s.regions[r.h].free
    ensures forall g | g in s.a.used :: M.RegionStays(s.a, A.SetAddr(r.s, r.h, addr), g)
  {
    A.UsedInBounds(s.a);
  }

  // ----- brk

  lemma {:induction false} FreeUnusedFrame(s: Heap, k: nat, base: nat, limit: nat, top: nat, newbrk: nat)
    requires B.BrkOk(s, k, base, limit, top) && base < newbrk <= top
    ensures Frame(s, k, ZoneOf(base, limit), B.FreeUnused(s, newbrk))
    decreases |s.brk|
  {
    hide A.Inv, Pg, Frame, B.TopOk, B.PagesOk, B.PopLast, CanUnmap, B.Survive, B.ChainOk;
    B.ChainInv(s, k, base);
    B.BaseBelow(s, k, base);
    FrameSelf(s, k, ZoneOf(base, limit));
    ChainNotEmpty(s, k, base);
    if newbrk <= B.Last(s).addr {
      B.PopKeeps(s, k, base, limit, top);
      PopFrame(s, k, base, limit, top);
      FreeUnusedFrame(B.PopLast(s), k, base, limit, B.Last(s).addr, newbrk);
      FrameTrans(s, k, ZoneOf(base, limit), B.PopLast(s), B.FreeUnused(s, newbrk));
    }
  }

  lemma ChainNotEmpty(s: Heap, k: nat, base: nat)
    requires B.ChainOk(s, k, base)
    ensures k < |s.brk| && (k == |s.brk| - 1 ==> B.Last(s).addr == base)
  {
  }

  lemma FrameCurbrk(s: Heap, k: nat, zone: M.Zone, s': Heap, c: nat, c': nat)
    requires Frame(s, k, zone, s')
    ensures Frame(s.(curbrk := c), k, zone, s'.(curbrk := c'))
  {
    hide M.InZone, SameOut, M.RegionStays;
    forall g ensures ChainRegion(s.(curbrk := c), k, g) == ChainRegion(s, k, g) {
    }
    forall g ensures ChainRegion(s'.(curbrk := c'), k, g) == ChainRegion(s', k, g) {
    }
  }

  lemma ShrinkFrame(s: Heap, k: nat, base: nat, limit: nat, newbrk: nat)
    requires B.BrkOk(s, k, base, limit, s.curbrk) && newbrk % 0x1000 == 0 && base < newbrk < s.curbrk
    ensures Frame(s, k, ZoneOf(base, limit), B.Shrink(s, newbrk))
  {
    hide A.Inv, Pg, Frame, B.TopOk, B.PagesOk, CanUnmap, B.Survive, B.ChainOk, B.FreeUnused, B.TrimLast, PagesFromSize;
    var s1, zone := B.FreeUnused(s, newbrk), ZoneOf(base, limit);
    FreeUnusedFrame(s, k, base, limit, s.curbrk, newbrk);
    var top := B.FreeUnusedKeeps(s, k, base, limit, s.curbrk, newbrk);
    ChainNotEmpty(s1, k, base);
    if B.Last(s1).addr + B.Last(s1).length > newbrk {
      TrimFrame(s1, k, base, limit, top, newbrk);
      FrameTrans(s, k, zone, s1, B.TrimLast(s1, newbrk));
      FrameCurbrk(s, k, zone, B.TrimLast(s1, newbrk), s.curbrk, newbrk);
    } else {
      FrameCurbrk(s, k, zone, s1, s.curbrk, newbrk);
    }
  }

  lemma GrowFrame(s: Heap, k: nat, base: nat, limit: nat, newbrk: nat)
    requires B.BrkOk(s, k, base, limit, s.curbrk) && newbrk % 0x1000 == 0 && s.curbrk <= newbrk <= limit
    requires Fits(s.a, B.Last(s), newbrk - 1)
    ensures Frame(s, k, ZoneOf(base, limit), B.GrowLast(s, newbrk))
  {
    hide A.Inv, Pg, Frame, B.PagesOk, B.Survive, B.ChainOk, PagesFromSize, PagesizeAlign, MapIn;
    var x := B.Last(s);
    B.LastFacts(s, k, base);
    var l := x.length + (newbrk - s.curbrk);
    B.GrowArith(x.addr, x.length, B.RegionOf(s, x).size, s.curbrk, newbrk);
    assert Grow(s.a, x, l) == SetLength(x, l);
    var s1 := MapIn(Set(s, B.LastRef(s), SetLength(x, l)), SetLength(x, l));
    ExtendFrame(s, k, base, limit, s.curbrk, SetLength(x, l));
    FrameCurbrk(s, k, ZoneOf(base, limit), s1, s.curbrk, newbrk);
  }

  lemma GrowBeyondFrame(s: Heap, k: nat, base: nat, limit: nat, newbrk: nat, r: A.Allocated)
    requires B.BrkOk(s, k, base, limit, s.curbrk) && newbrk % 0x1000 == 0 && s.curbrk <= newbrk <= limit
    requires B.GrowRequest(s, newbrk) > 0 && A.Serves(s.a, B.GrowRequest(s, newbrk), r)
    ensures Frame(s, k, ZoneOf(base, limit), B.GrowBeyond(s, newbrk, r))
  {
    hide A.Inv, Pg, Frame, B.PagesOk, B.Survive, B.ChainOk, PagesFromSize, PagesizeAlign, MapIn, A.Serves, B.Append,
         R.RangeOk;
    var x, zone := B.Last(s), ZoneOf(base, limit);
    B.LastFacts(s, k, base);
    B.BaseBelow(s, k, base);
    var end := B.RegionOf(s, x).addr + B.RegionOf(s, x).size;
    var s1 := B.FillLast(s);
    FillFrame(s, k, base, limit);
    B.FillKeeps(s, k, base, limit, s.curbrk);
    B.LastBelowTop(s1, k, base, limit, end);
    FrameCurbrk(s, k, zone, s1, s.curbrk, end);
    ChainNotEmpty(s1, k, base);
    B.ChainInv(s1, k, base);
    A.HandleOf(s.a, B.GrowRequest(s, newbrk), r);
    AppendFrame(s1.(curbrk := end), k, base, limit, end, newbrk, r);
    var s2 := B.Append(s1.(curbrk := end), end, newbrk, r);
    FrameTrans(s, k, zone, s1.(curbrk := end), s2);
    FrameCurbrk(s, k, zone, s2, s.curbrk, newbrk);
  }

  lemma FillFrame(s: Heap, k: nat, base: nat, limit: nat)
    requires B.BrkOk(s, k, base, limit, s.curbrk)
    requires B.RegionOf(s, B.Last(s)).addr + B.RegionOf(s, B.Last(s)).size <= limit
    ensures Frame(s, k, ZoneOf(base, limit), B.FillLast(s))
  {
    hide A.Inv, Pg, Frame, B.PagesOk, B.ChainOk, MapIn;
    B.LastFacts(s, k, base);
    var y := GrowToFill(s.a, B.Last(s));
    assert y == SetLength(B.Last(s), y.length) && PagesizeAlign(y.length) == y.length;
    ExtendFrame(s, k, base, limit, s.curbrk, y);
  }

  lemma BrkFrame(s: Heap, k: nat, base: nat, limit: nat, newbrk: nat, r: A.Allocated)
    requires B.BrkOk(s, k, base, limit, s.curbrk) && newbrk % 0x1000 == 0 && base < newbrk <= limit
    requires B.Served(s, newbrk, r)
    ensures Frame(s, k, ZoneOf(base, limit), B.Brk(s, newbrk, r))
  {
    hide A.Inv, Pg, Frame, B.PagesOk, B.ChainOk, B.Shrink, B.GrowLast, B.GrowBeyond, A.Serves;
    B.LastFacts(s, k, base);
    B.LastBelowTop(s, k, base, limit, s.curbrk);
    if newbrk < s.curbrk {
      ShrinkFrame(s, k, base, limit, newbrk);
    } else if Fits(s.a, B.Last(s), newbrk - 1) {
      GrowFrame(s, k, base, limit, newbrk);
    } else {
      A.HandleOf(s.a, B.GrowRequest(s, newbrk), r);
      GrowBeyondFrame(s, k, base, limit, newbrk, r);
    }
  }

  // ----- runs

  datatype Op = BrkOp(newbrk: nat, r: A.Allocated) | MmapOp(op: M.Op)

  ghost predicate Step(s: Heap, base: nat, limit: nat, op: Op, s': Heap) {
    match op
    case BrkOp(newbrk, r) =>
      newbrk % 0x1000 == 0 && base < newbrk <= limit && B.Granted(s, newbrk, r) && s' == B.Brk(s, newbrk, r)
    case MmapOp(op) => M.Step(s, ZoneOf(base, limit), op, s')
  }

  lemma StepKeeps(s: Heap, k: nat, base: nat, limit: nat, op: Op, s': Heap)
    requires HeapOk(s, k, base, limit) && Step(s, base, limit, op, s')
    ensures HeapOk(s', k, base, limit)
    ensures B.Survive(s.m, s'.m, base, if s'.curbrk < s.curbrk then s'.curbrk else s.curbrk)
    ensures op.BrkOp? ==> SameOut(ZoneOf(base, limit), s.m, s'.m) && s'.curbrk == op.newbrk
    ensures op.MmapOp? ==> M.SameIn(ZoneOf(base, limit), s.m, s'.m) && s'.curbrk == s.curbrk
  {
    hide HeapOk, B.BrkOk, M.MmapOk, M.Step, B.Brk, B.Granted, B.Survive, SameOut, M.SameIn, A.Inv;
    HeapParts(s, k, base, limit);
    match op
    case BrkOp(newbrk, r) =>
      B.GrantedServes(s, newbrk, r);
      B.BrkKeeps(s, k, base, limit, newbrk, r);
      BrkFrame(s, k, base, limit, newbrk, r);
      BrkKeepsMmap(s, k, base, limit, s');
    case MmapOp(mop) =>
      MmapStepKeeps(s, k, base, limit, mop, s');
      M.StepKeeps(s, ZoneOf(base, limit), mop, s');
  }

  lemma HeapParts(s: Heap, k: nat, base: nat, limit: nat)
    requires HeapOk(s, k, base, limit)
    ensures B.BrkOk(s, k, base, limit, s.curbrk) && M.MmapOk(s, ZoneOf(base, limit)) && A.Inv(s.a)
  {
  }

  ghost predicate Run(states: seq<Heap>, base: nat, limit: nat, ops: seq<Op>) {
    |states| == |ops| + 1 && forall n | 0 <= n < |ops| :: Step(states[n], base, limit, ops[n], states[n + 1])
  }

  /** The lowest break of the first n + 1 states. */
  function Lowest(states: seq<Heap>, n: nat): nat
    requires n < |states|
  {
    if n == 0 then states[0].curbrk
    else if states[n].curbrk < Lowest(states, n - 1) then states[n].curbrk
    else Lowest(states, n - 1)
  }

  /** In every state of every run that mixes brk with mmap, MAP_FIXED and munmap outside the pages
      of brk: both invariants hold together, no region serves both, and every page of the heap
      below all breaks so far has the host page that it had at the start. */
  lemma {:induction false} RunKeeps(states: seq<Heap>, k: nat, base: nat, limit: nat, ops: seq<Op>, n: nat)
    requires Run(states, base, limit, ops) && n < |states| && HeapOk(states[0], k, base, limit)
    ensures HeapOk(states[n], k, base, limit)
    ensures Lowest(states, n) <= states[n].curbrk && B.Survive(states[0].m, states[n].m, base, Lowest(states, n))
  {
    hide HeapOk, Step, B.Survive;
    if n == 0 {
      HeapParts(states[0], k, base, limit);
      B.SurviveSelf(states[0], k, base, limit, states[0].curbrk, states[0].curbrk);
    } else {
      RunKeeps(states, k, base, limit, ops, n - 1);
      var s, s' := states[n - 1], states[n];
      assert Step(s, base, limit, ops[n - 1], s');
      StepKeeps(s, k, base, limit, ops[n - 1], s');
      var both := if s'.curbrk < s.curbrk then s'.curbrk else s.curbrk;
      B.SurviveTrans(states[0].m, s.m, s'.m, base, Lowest(states, n - 1), both);
    }
  }

  /** MAP_FIXED inside a mapping, anywhere in such a run: exactly its range changes, to the new
      region and the new rights. */
  lemma FixedInRun(states: seq<Heap>, k: nat, base: nat, limit: nat, ops: seq<Op>, n: nat)
    requires Run(states, base, limit, ops) && n < |ops| && HeapOk(states[0], k, base, limit)
    requires ops[n].MmapOp? && ops[n].op.Mmap? && ops[n].op.q.fixed && !M.Exact(states[n], ops[n].op.q)
    requires M.ReplacesInside(states[n], ops[n].op.q)
    ensures var q, r := ops[n].op.q, ops[n].op.r;
            && r.h < |r.s.regions|
            && states[n + 1].m == R.Overlay(states[n].m, Pg(q.addr), r.s.regions[r.h].host,
                                            PagesizeAlign(q.length) / 0x1000, Opts(q.prot.write, q.prot.exec))
  {
    hide HeapOk, B.Survive, M.MmapOk, B.BrkOk, R.Overlay, Pg, PagesizeAlign, M.GetMapping, A.Serves, M.Frame, M.Before;
    RunKeeps(states, k, base, limit, ops, n);
    HeapParts(states[n], k, base, limit);
    assert Step(states[n], base, limit, ops[n], states[n + 1]);
    var q, s1, r := ops[n].op.q, ops[n].op.s1, ops[n].op.r;
    A.HandleOf(s1.a, PagesizeAlign(q.length), r);
    M.FixedReplaces(states[n], ZoneOf(base, limit), q, s1, r, states[n + 1]);
  }

  /** A run may start from the heap that init leaves. */
  lemma InitStarts(s: Heap, base: nat, limit: nat)
    requires s.mmap == [] && |s.brk| > 0 && B.BrkOk(s, |s.brk| - 1, base, limit, s.curbrk)
    ensures HeapOk(s, |s.brk| - 1, base, limit)
  {
  }
}
