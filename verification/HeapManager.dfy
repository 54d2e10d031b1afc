/** HeapManager as the object it is: the two lists and the break, changed in place above the
    region manager and the pager, each method proved against the heap on values. */
module HeapManagers {
  import opened PageArith
  import opened PageEntry
  import C = Chunks
  import P = Pager
  import A = Allocator
  import R = PagerRanges
  import opened Mappings
  import B = BrkRuns
  import M = MmapRuns
  import opened RegionManagers
  import opened Lookups

  class HeapManager {
    var brk: seq<Mapping>
    var mmap: seq<Mapping>
    var curbrk: nat
    const rm: RegionManager
    /** The blocks of 512 pages in which mappings may lie. */
    ghost const blocks: set<nat>

    ghost function View(): Heap
      reads this, rm, rm.pager, rm.pager.tlb
    {
      Heap(brk, mmap, curbrk, rm.View(), rm.pager.Pages())
    }

    ghost predicate Valid()
      reads this, rm, rm.pager, rm.pager.tlb
    {
      rm.Valid() && rm.pager.Need(blocks) <= P.POOL_TABLES
    }

    constructor (rm: RegionManager, ghost blocks: set<nat>)
      requires rm.Valid() && rm.pager.Need(blocks) <= P.POOL_TABLES
      ensures Valid() && this.rm == rm && this.blocks == blocks && brk == [] && mmap == [] && curbrk == 0
    {
      this.rm, this.blocks := rm, blocks;
      brk, mmap, curbrk := [], [], 0;
    }

    /** The mapping's region is in use and is not the page-table pool. */
    ghost predicate HasRegion(x: Mapping)
      reads this, rm, rm.pager
    {
      x.region in rm.used && x.region < |rm.regions| && |rm.pager.chunks| > 0
      && !RegionManager.IsPool(rm.regions[x.region], rm.pager.chunks[0])
    }

    /** User addresses in blocks that the table pool has room for. */
    ghost predicate Reachable(addr: nat, pages: nat) {
      0 < addr && addr + 0x1000 * pages <= 0x8000_0000_0000 && R.Touched(Pg(addr), pages) <= blocks
    }

    /** std::find on a list. */
    static method FindIn(l: seq<Mapping>, x: Mapping) returns (k: int)
      ensures k == FindSame(l, x)
    {
      k := 0;
      while k < |l|
        invariant 0 <= k <= |l| && forall j | 0 <= j < k :: !Same(l[j], x)
      {
        if Same(l[k], x) {
          return;
        }
        k := k + 1;
      }
      k := -1;
    }

    /** HeapManager::map, for a mapping with some permission whose region is in use. */
    method Map(x: Mapping)
      requires Valid() && HasRegion(x) && x.host == rm.regions[x.region].host && x.addr % 0x1000 == 0
      requires (x.prot.read || x.prot.write || x.prot.exec) && 0x1000 * x.pages <= rm.regions[x.region].size
      requires x.pages > 0 && Reachable(x.addr, x.pages) && R.RangeOk(rm.pager.Pages(), Pg(x.addr), x.host, x.pages)
      modifies this`mmap, rm.pager`tables
      ensures Valid() && View() == MapIn(old(View()), x) && Records(old(mmap), mmap, x)
      ensures rm.pager.Need(blocks) <= old(rm.pager.Need(blocks))
    {
      hide A.Inv, P.Inv, P.Pages, R.Overlay, R.RangeOk, R.Need, R.Touched, Pg, Vpn, FindSame, Records;
      MapReady(x);
      MapRecords(View(), x);
      var k := FindIn(mmap, x);
      if k < 0 {
        mmap := mmap + [x];
      }
      var err := rm.pager.MapRegion(x.host, x.addr, x.pages, Opts(x.prot.write, x.prot.exec), blocks);
    }

    lemma MapReady(x: Mapping)
      requires Valid() && HasRegion(x) && x.host == rm.regions[x.region].host && x.addr % 0x1000 == 0
      requires 0x1000 * x.pages <= rm.regions[x.region].size && x.pages > 0 && Reachable(x.addr, x.pages)
      ensures rm.pager.Mappable(x.host, x.pages) && x.host % 0x1000 == 0 && PageBegin(x.host) == x.host
      ensures Vpn(x.addr) == Pg(x.addr) && Vpn(x.addr) + x.pages <= 0x10_0000_0000 && !rm.regions[x.region].free
    {
      rm.RegionMappable(x.region, x.pages);
      UserPage(x.addr);
      assert A.WellFormed(rm.regions[x.region]);
      assert A.UsedOk(rm.View(), {}, x.region);
    }

    // ----- unmap

    /** free_mapping */
    method FreeMapping(x: Mapping)
      modifies this`brk, this`mmap
      ensures View() == Mappings.FreeMapping(old(View()), x)
    {
      hide P.Pages;
      var k := FindIn(brk, x);
      if k >= 0 {
        brk := brk[..k] + brk[k + 1..];
      } else {
        var j := FindIn(mmap, x);
        if j >= 0 {
          mmap := mmap[..j] + mmap[j + 1..];
        }
      }
    }

    /** unmap_region and pages_unmapped. */
    method TakePages(ref: Ref, addr: nat, pages: nat) returns (left: nat)
      requires Valid() && CanUnmap(View(), ref, addr, pages)
      requires 0 < addr && addr + 0x1000 * pages <= 0x8000_0000_0000
      modifies this`brk, this`mmap, rm.pager`tables
      ensures left == old(Get(View(), ref)).pages - pages && |rm.pager.tables| == old(|rm.pager.tables|)
      ensures Valid() && rm.pager.Need(blocks) <= old(rm.pager.Need(blocks))
      ensures View() == Set(old(View()).(m := old(View()).m - R.Range(Pg(addr), pages)), ref,
                            old(Get(View(), ref)).(pages := left))
    {
      hide A.Inv, P.Inv, P.Pages, R.Range, R.Need, Pg, Vpn;
      UserPage(addr);
      UserRange(addr, pages);
      var err := rm.pager.UnmapRegion(addr, pages, blocks);
      var x := if ref.InBrk? then brk[ref.i] else mmap[ref.i];
      left := x.pages - pages;
      if ref.InBrk? {
        brk := brk[ref.i := x.(pages := left)];
      } else {
        mmap := mmap[ref.i := x.(pages := left)];
      }
    }

    /** HeapManager::unmap of some pages of a mapping. */
    method UnmapPart(ref: Ref, addr: nat, pages: nat) returns (left: nat)
      requires Valid() && CanUnmap(View(), ref, addr, pages) && HasRegion(Get(View(), ref))
      requires 0 < addr && addr + 0x1000 * pages <= 0x8000_0000_0000
      modifies this`brk, this`mmap, rm`regions, rm`used, rm`freelists, rm.pager`tables
      ensures Valid() && View() == Unmap(old(View()), ref, addr, pages)
      ensures left == old(Get(View(), ref)).pages - pages && |rm.pager.tables| == old(|rm.pager.tables|)
      ensures rm.pager.Need(blocks) <= old(rm.pager.Need(blocks))
      ensures forall y: Mapping | old(HasRegion(y)) && y.region != old(Get(View(), ref)).region :: HasRegion(y)
      ensures left > 0 ==> forall y: Mapping | old(HasRegion(y)) :: HasRegion(y)
    {
      hide A.Inv, P.Inv, P.Pages, R.Range, R.Need, Pg, FindSame, A.FreeRegion;
      var x := if ref.InBrk? then brk[ref.i] else mmap[ref.i];
      left := TakePages(ref, addr, pages);
      if left == 0 {
        A.FreedRegion(rm.View(), x.region);
        rm.FreeRegion(x.region);
        FreeMapping(x.(pages := 0));
      }
    }

    static lemma UserRange(addr: nat, pages: nat)
      requires addr + 0x1000 * pages <= 0x8000_0000_0000
      ensures Pg(addr) + pages <= 0x10_0000_0000
    {
    }

    // ----- brk

    /** The regions of the brk mappings from position k on. */
    ghost predicate HasRegions(k: nat)
      reads this, rm, rm.pager
    {
      forall i | k <= i < |brk| :: HasRegion(brk[i])
    }

    /** free_unused_mappings */
    method FreeUnusedMappings(newbrk: nat, ghost k: nat, ghost base: nat, ghost limit: nat) returns (ghost top: nat)
      requires Valid() && B.BrkOk(View(), k, base, limit, curbrk) && HasRegions(k)
      requires base < newbrk <= curbrk && limit <= 0x8000_0000_0000
      modifies this`brk, this`mmap, rm`regions, rm`used, rm`freelists, rm.pager`tables
      ensures Valid() && View() == B.FreeUnused(old(View()), newbrk) && HasRegions(k) && curbrk == old(curbrk)
      ensures newbrk <= top <= curbrk && B.BrkOk(View(), k, base, limit, top) && B.Last(View()).addr < newbrk
      ensures |rm.pager.tables| == old(|rm.pager.tables|) && rm.pager.Need(blocks) <= old(rm.pager.Need(blocks))
    {
      hide P.Inv, P.Pages, R.Need, A.Inv, B.ChainOk, B.TopOk, B.PagesOk, B.PopLast, CanUnmap, Unmap, B.Survive;
      top := curbrk;
      ListNotEmpty(View(), k, base, limit, top);
      while newbrk <= brk[|brk| - 1].addr
        invariant Valid() && B.BrkOk(View(), k, base, limit, top) && HasRegions(k) && k < |brk|
        invariant newbrk <= top <= curbrk && curbrk == old(curbrk) && |rm.pager.tables| == old(|rm.pager.tables|)
        invariant B.FreeUnused(View(), newbrk) == B.FreeUnused(old(View()), newbrk)
        invariant rm.pager.Need(blocks) <= old(rm.pager.Need(blocks))
        decreases |brk|
      {
        ghost var s := View();
        PopFacts(s, k, base, limit, top, newbrk);
        var x := brk[|brk| - 1];
        var left := UnmapPart(InBrk(|brk| - 1), x.addr, x.pages);
        top := x.addr;
        assert View() == B.PopLast(s) by { PopIs(s); }
        ListNotEmpty(View(), k, base, limit, top);
      }
    }

    static lemma ListNotEmpty(s: Heap, k: nat, base: nat, limit: nat, top: nat)
      requires B.BrkOk(s, k, base, limit, top)
      ensures k < |s.brk|
    {
    }

    static lemma PopIs(s: Heap)
      requires |s.brk| > 0 && CanUnmap(s, B.LastRef(s), B.Last(s).addr, B.Last(s).pages)
      ensures B.PopLast(s) == Unmap(s, B.LastRef(s), B.Last(s).addr, B.Last(s).pages)
    {
    }

    static lemma PopFacts(s: Heap, k: nat, base: nat, limit: nat, top: nat, newbrk: nat)
      requires B.BrkOk(s, k, base, limit, top) && base < newbrk <= top && limit <= 0x8000_0000_0000
      requires newbrk <= B.Last(s).addr
      ensures |s.brk| - 1 > k && CanUnmap(s, B.LastRef(s), B.Last(s).addr, B.Last(s).pages)
      ensures B.BrkOk(B.PopLast(s), k, base, limit, B.Last(s).addr)
      ensures B.PopLast(s).brk == s.brk[..|s.brk| - 1] && B.FreeUnused(s, newbrk) == B.FreeUnused(B.PopLast(s), newbrk)
      ensures 0 < B.Last(s).addr && B.Last(s).addr + 0x1000 * B.Last(s).pages <= 0x8000_0000_0000
      ensures B.Last(s).addr <= top
      ensures forall i | k <= i < |s.brk| - 1 :: s.brk[i].region != B.Last(s).region
    {
      B.LastFacts(s, k, base);
      B.EndOf(B.Last(s));
      B.PopLastValue(s, k, base);
      B.PopKeeps(s, k, base, limit, top);
    }

    /** HeapManager::shrink and the end of brk, for any break that the code does not assert against: the pages up to
        the next page boundary are left. */
    method Shrink(newbrk: nat, ghost k: nat, ghost base: nat, ghost limit: nat)
      requires Valid() && B.BrkOk(View(), k, base, limit, curbrk) && HasRegions(k)
      requires base < newbrk < curbrk && limit <= 0x8000_0000_0000
      requires curbrk < newbrk + 0x1000 ==> brk[|brk| - 1].length % 0x1000 == 0
      modifies this, rm`regions, rm`used, rm`freelists, rm.pager`tables
      ensures Valid() && View() == B.Shrink(old(View()), newbrk) && HasRegions(k)
      ensures B.BrkOk(View(), k, base, limit, 0x1000 * ((newbrk + 0xFFF) / 0x1000)) && curbrk == newbrk
      ensures mmap == old(mmap)
      ensures |rm.pager.tables| == old(|rm.pager.tables|) && rm.pager.Need(blocks) <= old(rm.pager.Need(blocks))
    {
      hide P.Inv, P.Pages, A.Inv, B.ChainOk, B.TopOk, B.PagesOk, CanUnmap, Unmap, B.FreeUnused, B.TrimLast,
           PagesFromSize, R.Need, B.Survive, B.SliceBase;
      B.ShrinkAssert(View(), k, base, limit, newbrk);
      B.ShrinkKeeps(View(), k, base, limit, newbrk);
      ghost var top := FreeUnusedMappings(newbrk, k, base, limit);
      ListNotEmpty(View(), k, base, limit, top);
      var sliceBase := newbrk;
      if newbrk % 0x1000 != 0 {
        sliceBase := NextPage(newbrk);
      }
      var x := brk[|brk| - 1];
      SliceAbove(x.addr, newbrk);
      if x.addr + x.length != sliceBase {
        assert x.addr + x.length > sliceBase;
        TrimLast(sliceBase, k, base, limit, top);
      }
      curbrk := newbrk;
    }

    static ghost predicate CutsLast(s: Heap, k: nat, base: nat, limit: nat, top: nat, b: nat) {
      && B.BrkOk(s, k, base, limit, top) && limit <= 0x8000_0000_0000 && b % 0x1000 == 0
      && B.Last(s).addr < b < B.Last(s).addr + B.Last(s).length
    }

    static ghost predicate Trimmed(s: Heap, b: nat, s': Heap) {
      && |s.brk| > 0 && B.Last(s).addr < b < B.Last(s).addr + B.Last(s).length
      && CanUnmap(s, B.LastRef(s), b, PagesFromSize(B.Last(s).addr + B.Last(s).length - b)) && s' == B.TrimLast(s, b)
    }

    /** The slice at the end of shrink. */
    method TrimLast(sliceBase: nat, ghost k: nat, ghost base: nat, ghost limit: nat, ghost top: nat)
      requires Valid() && CutsLast(View(), k, base, limit, top, sliceBase) && HasRegions(k)
      modifies this`brk, this`mmap, rm`regions, rm`used, rm`freelists, rm.pager`tables
      ensures Valid() && Trimmed(old(View()), sliceBase, View()) && HasRegions(k)
      ensures |rm.pager.tables| == old(|rm.pager.tables|) && rm.pager.Need(blocks) <= old(rm.pager.Need(blocks))
    {
      hide P.Inv, P.Pages, A.Inv, B.ChainOk, B.TopOk, B.PagesOk, CanUnmap, Unmap, B.TrimLast, PagesFromSize, R.Need;
      ListNotEmpty(View(), k, base, limit, top);
      var x := brk[|brk| - 1];
      ghost var s := View();
      TrimFacts(s, k, base, limit, top, sliceBase);
      var cnt := PagesFromSize(x.addr + x.length - sliceBase);
      var left := UnmapPart(InBrk(|brk| - 1), sliceBase, cnt);
      brk := brk[|brk| - 1 := SetLength(brk[|brk| - 1], sliceBase - x.addr)];
      assert View() == B.TrimLast(s, sliceBase);
    }

    static lemma SliceAbove(addr: nat, newbrk: nat)
      requires addr < newbrk
      ensures addr < B.SliceBase(newbrk) && B.SliceBase(newbrk) % 0x1000 == 0
      ensures B.SliceBase(newbrk) == if newbrk % 0x1000 == 0 then newbrk else NextPage(newbrk)
    {
    }

    static lemma TrimFacts(s: Heap, k: nat, base: nat, limit: nat, top: nat, newbrk: nat)
      requires B.BrkOk(s, k, base, limit, top) && newbrk % 0x1000 == 0 && limit <= 0x8000_0000_0000
      requires B.Last(s).addr < newbrk < B.Last(s).addr + B.Last(s).length
      ensures var x, cnt := B.Last(s), PagesFromSize(B.Last(s).addr + B.Last(s).length - newbrk);
              && CanUnmap(s, B.LastRef(s), newbrk, cnt) && cnt < x.pages
              && newbrk + 0x1000 * cnt <= 0x8000_0000_0000
              && Unmap(s, B.LastRef(s), newbrk, cnt) ==
                 s.(brk := s.brk[|s.brk| - 1 := x.(pages := x.pages - cnt)], m := s.m - R.Range(Pg(newbrk), cnt))
              && B.TrimLast(s, newbrk) ==
                 s.(brk := s.brk[|s.brk| - 1 := SetLength(x, newbrk - x.addr)], m := s.m - R.Range(Pg(newbrk), cnt))
    {
      hide B.ChainOk, B.PagesOk, A.Inv, PagesFromSize, R.Range, Pg, A.FreeRegion;
      B.LastFacts(s, k, base);
      B.TrimLastValue(s, k, base, newbrk);
      B.TrimArith(B.Last(s), newbrk);
      B.LastBelowTop(s, k, base, limit, top);
      B.EndOf(B.Last(s));
    }

    /** The break may move between base and limit. */
    ghost predicate HasRoom(base: nat, limit: nat) {
      base <= limit <= 0x8000_0000_0000 && R.Touched(Pg(base), Pg(limit) - Pg(base)) <= blocks
    }

    static lemma RoomFor(base: nat, limit: nat, addr: nat, pages: nat)
      requires base % 0x1000 == 0 && addr % 0x1000 == 0 && base <= addr && addr + 0x1000 * pages <= limit
      ensures Pg(base) <= Pg(limit) && R.Touched(Pg(addr), pages) <= R.Touched(Pg(base), Pg(limit) - Pg(base))
    {
      B.PgBound(addr, pages, limit);
      B.PgBound(base, 0, addr);
      R.TouchedPart(Pg(addr), pages, Pg(base), Pg(limit) - Pg(base));
    }

    /** brk inside the region of the last mapping. */
    method GrowInside(newbrk: nat, ghost k: nat, ghost base: nat, ghost limit: nat)
      requires Valid() && B.BrkOk(View(), k, base, limit, curbrk) && HasRegions(k) && HasRoom(base, limit)
      requires newbrk % 0x1000 == 0 && curbrk <= newbrk <= limit && Fits(rm.View(), brk[|brk| - 1], newbrk - 1)
      modifies this, rm.pager`tables
      ensures Valid() && View() == B.GrowLast(old(View()), newbrk) && HasRegions(k)
      ensures rm.pager.Need(blocks) <= old(rm.pager.Need(blocks))
    {
      hide P.Inv, P.Pages, A.Inv, B.ChainOk, B.TopOk, B.PagesOk, B.Survive, R.Overlay, R.RangeOk, Pg, R.Need, R.Touched,
           PagesFromSize, FindSame;
      ghost var s := View();
      GrowFacts(s, k, base, limit, newbrk);
      var x := brk[|brk| - 1];
      var sz, growsz := x.length, newbrk - curbrk;
      var y := Grow(A.Alloc(rm.regions, rm.used, rm.freelists, rm.pager.chunks), x, sz + growsz);
      brk := brk[|brk| - 1 := y];
      Map(y);
      curbrk := newbrk;
    }

    static lemma GrowFacts(s: Heap, k: nat, base: nat, limit: nat, newbrk: nat)
      requires B.BrkOk(s, k, base, limit, s.curbrk) && newbrk % 0x1000 == 0 && s.curbrk <= newbrk <= limit
      requires Fits(s.a, B.Last(s), newbrk - 1)
      ensures k < |s.brk| && B.Last(s).region < |s.a.regions|
      ensures var x, y := B.Last(s), Grow(s.a, B.Last(s), B.Last(s).length + (newbrk - s.curbrk));
              && R.RangeOk(s.m, Pg(y.addr), y.host, y.pages) && y.host == s.a.regions[x.region].host
              && y.addr % 0x1000 == 0 && 0 < y.addr && y.prot == B.RW && y.pages > 0
              && 0x1000 * y.pages <= s.a.regions[x.region].size && y.addr + 0x1000 * y.pages <= limit
              && Pg(base) <= Pg(limit) && R.Touched(Pg(y.addr), y.pages) <= R.Touched(Pg(base), Pg(limit) - Pg(base))
    {
      B.LastFacts(s, k, base);
      B.BaseBelow(s, k, base);
      B.GrowKeeps(s, k, base, limit, newbrk);
      var x, y := B.Last(s), Grow(s.a, B.Last(s), B.Last(s).length + (newbrk - s.curbrk));
      B.GrowArith(x.addr, x.length, s.a.regions[x.region].size, s.curbrk, newbrk);
      B.EndOf(y);
      RoomFor(base, limit, y.addr, y.pages);
    }

    /** grow_to_fill and map on the last mapping. */
    method FillLast(newbrk: nat, ghost k: nat, ghost base: nat, ghost limit: nat)
      requires Valid() && B.BrkOk(View(), k, base, limit, curbrk) && HasRegions(k) && HasRoom(base, limit)
      requires newbrk <= limit && B.GrowRequest(View(), newbrk) > 0
      modifies this, rm.pager`tables
      ensures Valid() && HasRegions(k) && curbrk == newbrk - B.GrowRequest(old(View()), newbrk)
      ensures View() == B.FillLast(old(View())).(curbrk := curbrk)
      ensures rm.pager.Need(blocks) <= old(rm.pager.Need(blocks))
    {
      hide P.Inv, P.Pages, A.Inv, B.ChainOk, B.TopOk, B.PagesOk, R.Overlay, R.RangeOk, Pg, R.Need, R.Touched,
           PagesFromSize, FindSame;
      FillFacts(View(), k, base, limit, newbrk);
      var x := brk[|brk| - 1];
      var region := rm.regions[x.region];
      var y := x.(addr := region.addr, length := region.size, pages := PagesFromSize(region.size));
      brk := brk[|brk| - 1 := y];
      curbrk := y.addr + y.length;
      Map(y);
    }

    /** HeapManager::grow behind grow_to_fill; s is the heap before it. */
    method Append(newbrk: nat, host: nat, ghost s: Heap, ghost k: nat, ghost base: nat, ghost limit: nat)
      returns (ghost r: A.Allocated)
      requires Valid() && B.BrkOk(s, k, base, limit, s.curbrk) && HasRegions(k)
      requires newbrk % 0x1000 == 0 && s.curbrk <= newbrk <= limit <= 0x8000_0000_0000 && B.GrowRequest(s, newbrk) > 0
      requires curbrk == newbrk - B.GrowRequest(s, newbrk) && View() == B.FillLast(s).(curbrk := curbrk)
      requires rm.View() == s.a
      requires HasRoom(base, limit) && ChunkReady(newbrk - curbrk, host)
      modifies this, rm, rm.pager
      ensures Valid() && HasRegions(k) && r.h < |r.s.regions| && A.Serves(s.a, B.GrowRequest(s, newbrk), r)
      ensures B.Granted(s, newbrk, r)
      ensures View() == B.Append(old(View()), old(curbrk), newbrk, r) && curbrk == old(curbrk)
      ensures rm.pager.Need(blocks) <= old(rm.pager.Need(blocks))
    {
      hide P.Inv, P.Pages, A.Inv, B.ChainOk, B.TopOk, B.PagesOk, R.Overlay, R.RangeOk, Pg, R.Need, R.Touched,
           PagesFromSize, FindSame, A.FindList, A.Allocate, B.FillLast, B.BrkOk;
      var sz := newbrk - curbrk;
      var h, c := rm.Allocate(sz, host);
      r := A.Allocated(rm.View(), h);
      AppendFacts(s, k, base, limit, newbrk, r);
      var z := NewMapping(A.Alloc(rm.regions, rm.used, rm.freelists, rm.pager.chunks), h, curbrk, sz, B.RW, true, 0, 0);
      rm.SetGuestAddr(h, z.addr);
      brk := brk + [z];
      Map(z);
    }

    /** brk beyond the last region: fill it, then add a mapping on a new one. */
    method GrowBeyond(newbrk: nat, host: nat, ghost k: nat, ghost base: nat, ghost limit: nat)
      returns (ghost r: A.Allocated)
      requires Valid() && B.BrkOk(View(), k, base, limit, curbrk) && HasRegions(k) && HasRoom(base, limit)
      requires newbrk % 0x1000 == 0 && curbrk <= newbrk <= limit && B.GrowRequest(View(), newbrk) > 0
      requires ChunkReady(B.GrowRequest(View(), newbrk), host)
      modifies this, rm, rm.pager
      ensures Valid() && B.GrowRequest(old(View()), newbrk) > 0 && r.h < |r.s.regions|
      ensures B.Granted(old(View()), newbrk, r) && A.Serves(old(View()).a, B.GrowRequest(old(View()), newbrk), r)
      ensures View() == B.GrowBeyond(old(View()), newbrk, r) && HasRegions(k)
      ensures rm.pager.Need(blocks) <= old(rm.pager.Need(blocks))
    {
      hide P.Inv, P.Pages, A.Inv, B.ChainOk, B.TopOk, B.PagesOk, Pg, R.Need, R.Touched, A.FindList, A.Allocate,
           B.FillLast, B.Append, A.Serves, B.Granted;
      ghost var s := View();
      FillFacts(s, k, base, limit, newbrk);
      FillLast(newbrk, k, base, limit);
      r := Append(newbrk, host, s, k, base, limit);
      curbrk := newbrk;
    }

    /** What posix_memalign promises if the allocation needs a chunk. */
    ghost predicate ChunkReady(size: nat, host: nat)
      reads this, rm, rm.pager
    {
      |rm.freelists| == A.N_FREELISTS
      && (A.FindList(rm.View(), size) == A.N_FREELISTS ==> C.FreshRange(rm.pager.chunks, host, A.GrowSize(size)))
    }

    static lemma FillFacts(s: Heap, k: nat, base: nat, limit: nat, newbrk: nat)
      requires B.BrkOk(s, k, base, limit, s.curbrk) && newbrk <= limit && B.GrowRequest(s, newbrk) > 0
      ensures k < |s.brk| && B.Last(s).region < |s.a.regions|
      ensures var y, r := GrowToFill(s.a, B.Last(s)), s.a.regions[B.Last(s).region];
              && R.RangeOk(s.m, Pg(y.addr), y.host, y.pages) && y.host == r.host && !r.free
              && y.addr % 0x1000 == 0 && 0 < y.addr && y.prot == B.RW && y.pages > 0
              && 0x1000 * y.pages <= r.size && y.addr + 0x1000 * y.pages <= limit
              && Pg(base) <= Pg(limit) && R.Touched(Pg(y.addr), y.pages) <= R.Touched(Pg(base), Pg(limit) - Pg(base))
    {
      B.LastFacts(s, k, base);
      B.BaseBelow(s, k, base);
      B.FillKeeps(s, k, base, limit, s.curbrk);
      A.NotFree(s.a, B.Last(s).region);
      var y := GrowToFill(s.a, B.Last(s));
      B.EndOf(y);
      RoomFor(base, limit, y.addr, y.pages);
    }

    static lemma AppendFacts(s: Heap, k: nat, base: nat, limit: nat, newbrk: nat, r: A.Allocated)
      requires B.BrkOk(s, k, base, limit, s.curbrk) && newbrk % 0x1000 == 0 && s.curbrk <= newbrk <= limit
      requires B.GrowRequest(s, newbrk) > 0 && A.Serves(s.a, B.GrowRequest(s, newbrk), r)
      ensures k < |s.brk| && B.Last(s).region < |s.a.regions| && r.h < |r.s.regions| && !r.s.regions[r.h].free
      ensures var end := newbrk - B.GrowRequest(s, newbrk);
              var z, s1 := NewMapping(r.s, r.h, end, newbrk - end, B.RW, true, 0, 0), B.FillLast(s);
              && end > 0 && end % 0x1000 == 0 && R.RangeOk(s1.m, Pg(z.addr), z.host, z.pages) && z.pages > 0
              && 0x1000 * z.pages <= r.s.regions[r.h].size && z.addr + 0x1000 * z.pages <= limit && z.addr == end
              && Pg(base) <= Pg(limit) && R.Touched(Pg(z.addr), z.pages) <= R.Touched(Pg(base), Pg(limit) - Pg(base))
              && s1.a == s.a
    {
      hide B.ChainOk, B.PagesOk, B.Survive, B.FillLast, B.Append, A.Inv, A.UsedStay, Pg, R.Need, R.Touched, R.RangeOk,
           B.Locked, MapIn, GrowToFill, PagesFromSize, PagesizeAlign;
      var end := newbrk - B.GrowRequest(s, newbrk);
      AppendPlace(s, k, base, limit, newbrk);
      B.AppendKeeps(B.FillLast(s), k, base, limit, end, newbrk, r);
      A.NotFree(r.s, r.h);
      NewPages(r.s, r.h, end, newbrk - end);
      RoomFor(base, limit, end, (newbrk - end) / 0x1000);
    }

    /** Where the mapping behind the last region goes. */
    static lemma AppendPlace(s: Heap, k: nat, base: nat, limit: nat, newbrk: nat)
      requires B.BrkOk(s, k, base, limit, s.curbrk) && newbrk % 0x1000 == 0 && s.curbrk <= newbrk <= limit
               && B.GrowRequest(s, newbrk) > 0
      ensures k < |s.brk| && B.Last(s).region < |s.a.regions|
      ensures var end, s1 := newbrk - B.GrowRequest(s, newbrk), B.FillLast(s);
              && base <= end && base % 0x1000 == 0 && end > 0 && end % 0x1000 == 0 && s1.a == s.a && |s1.brk| > 0
              && B.BrkOk(s1, k, base, limit, end) && B.Last(s1).region < |s1.a.regions|
                 && B.Last(s1).length == B.RegionOf(s1, B.Last(s1)).size
    {
      hide B.ChainOk, B.PagesOk, B.Survive, B.FillLast, A.Inv, Pg, R.RangeOk, MapIn, GrowToFill, PagesFromSize,
           PagesizeAlign;
      B.LastFacts(s, k, base);
      B.BaseBelow(s, k, base);
      B.FillKeeps(s, k, base, limit, s.curbrk);
      B.LastBelowTop(B.FillLast(s), k, base, limit, newbrk - B.GrowRequest(s, newbrk));
    }

    static lemma NewPages(a: A.Alloc, h: nat, addr: nat, length: nat)
      requires h < |a.regions| && addr > 0 && length % 0x1000 == 0 && length > 0
      requires a.regions[h].size == PagesizeAlign(length)
      ensures var z := NewMapping(a, h, addr, length, B.RW, true, 0, 0);
              && z.pages == length / 0x1000 > 0 && 0x1000 * z.pages == length == a.regions[h].size && z.addr == addr
    {
    }

    /** HeapManager::brk for page-aligned requests above the last initialised segment. */
    method Brk(newbrk: nat, host: nat, ghost k: nat, ghost base: nat, ghost limit: nat) returns (ghost r: A.Allocated)
      requires Valid() && B.BrkOk(View(), k, base, limit, curbrk) && HasRegions(k) && HasRoom(base, limit)
      requires newbrk % 0x1000 == 0 && base < newbrk <= limit
      requires newbrk >= curbrk && B.GrowRequest(View(), newbrk) > 0 ==> ChunkReady(B.GrowRequest(View(), newbrk), host)
      modifies this, rm, rm.pager
      ensures Valid() && B.Granted(old(View()), newbrk, r) && View() == B.Brk(old(View()), newbrk, r) && HasRegions(k)
      ensures B.BrkOk(View(), k, base, limit, curbrk) && curbrk == newbrk
      ensures rm.pager.Need(blocks) <= old(rm.pager.Need(blocks))
      ensures newbrk < old(curbrk) ==> |rm.pager.tables| == old(|rm.pager.tables|) && mmap == old(mmap)
      ensures newbrk >= old(curbrk) ==> B.Grown(old(View()), newbrk, r, View())
    {
      hide P.Inv, P.Pages, A.Inv, B.ChainOk, B.TopOk, B.PagesOk, B.Survive, B.Shrink, B.GrowLast, B.GrowBeyond,
           A.FindList, A.Allocate;
      ghost var s := View();
      r := A.Allocated(rm.View(), 0);
      BrkFacts(s, k, base, limit, newbrk);
      if newbrk < curbrk {
        Shrink(newbrk, k, base, limit);
      } else if rm.regions[brk[|brk| - 1].region].addr <= newbrk - 1
                < rm.regions[brk[|brk| - 1].region].addr + rm.regions[brk[|brk| - 1].region].size {
        GrowInside(newbrk, k, base, limit);
      } else {
        r := GrowBeyond(newbrk, host, k, base, limit);
      }
      B.GrantedServes(s, newbrk, r);
      B.BrkKeeps(s, k, base, limit, newbrk, r);
      if newbrk >= s.curbrk {
        B.GrowthRecorded(s, k, base, limit, newbrk, r);
      }
    }

    static lemma BrkFacts(s: Heap, k: nat, base: nat, limit: nat, newbrk: nat)
      requires B.BrkOk(s, k, base, limit, s.curbrk)
      ensures A.Inv(s.a) && k < |s.brk| && B.Last(s).region < |s.a.regions|
      ensures newbrk >= s.curbrk && !Fits(s.a, B.Last(s), newbrk - 1) ==> B.GrowRequest(s, newbrk) > 0
      ensures s.curbrk > 0 && s.curbrk % 0x1000 == 0
    {
      B.LastFacts(s, k, base);
      B.LastBelowTop(s, k, base, limit, s.curbrk);
    }

    /** HeapManager::init with the region of a loaded segment; the code asserts the last line. */
    method Init(h: nat, sz: nat)
      requires Valid() && h in rm.used && h < |rm.regions| && rm.regions[h].addr > 0
      requires rm.regions[h].addr <= NextPage(rm.regions[h].addr + sz) - 1 < rm.regions[h].addr + rm.regions[h].size
      modifies this`brk, this`curbrk
      ensures View() == B.Init(old(View()), h, sz)
      ensures Valid()
    {
      hide P.Inv, P.Pages, A.Inv;
      var r := rm.regions[h];
      brk := brk + [NewMapping(A.Alloc(rm.regions, rm.used, rm.freelists, rm.pager.chunks), h, r.addr, sz, B.RW, true,
                               0, 0)];
      curbrk := NextPage(r.addr + sz);
    }

    // ----- mmap

    /** create_mapping with a region at hand. */
    method CreateIn(h: nat, addr: nat, length: nat, prot: Prot, anon: bool, fd: int, offset: int)
      requires Valid() && h in rm.used && h < |rm.regions| && !RegionManager.IsPool(rm.regions[h], rm.pager.chunks[0])
      requires length > 0 && length % 0x1000 == 0 && length <= rm.regions[h].size && addr % 0x1000 == 0
      requires prot.read || prot.write || prot.exec
      requires Reachable(M.Target(rm.View(), h, addr), length / 0x1000)
      requires R.RangeOk(rm.pager.Pages(), Pg(M.Target(rm.View(), h, addr)), rm.regions[h].host, length / 0x1000)
      modifies this`mmap, rm`regions, rm.pager`tables
      ensures View() == M.CreateIn(old(View()), A.Allocated(old(rm.View()), h), addr, length, prot, anon, fd, offset)
      ensures Valid()
      ensures rm.pager.Need(blocks) <= old(rm.pager.Need(blocks))
    {
      hide P.Inv, P.Pages, A.Inv, R.Overlay, R.RangeOk, Pg, R.Need, R.Touched, PagesFromSize, PagesizeAlign, FindSame;
      CreateFacts(h, addr, length);
      var z := NewMapping(A.Alloc(rm.regions, rm.used, rm.freelists, rm.pager.chunks), h, addr, length, prot, anon, fd,
                          offset);
      rm.SetGuestAddr(h, z.addr);
      mmap := mmap + [z];
      M.FindsItself(old(mmap), z);
      Map(z);
    }

    lemma CreateFacts(h: nat, addr: nat, length: nat)
      requires Valid() && h in rm.used && h < |rm.regions| && length > 0 && length % 0x1000 == 0 && addr % 0x1000 == 0
      ensures PagesFromSize(length) == length / 0x1000 > 0 && PagesizeAlign(length) == length
      ensures 0x1000 * (length / 0x1000) == length
      ensures M.Target(rm.View(), h, addr) % 0x1000 == 0 && !rm.regions[h].free
    {
      assert A.WellFormed(rm.regions[h]);
      A.NotFree(rm.View(), h);
    }

    /** slice_begin */
    method SliceBegin(i: nat, len: nat)
      requires Valid() && FrontReady(View(), i, len) && HasRegion(mmap[i])
      modifies this`brk, this`mmap, rm`regions, rm`used, rm`freelists, rm.pager`tables
      ensures View() == M.SliceFront(old(View()), i, len)
      ensures Valid() && rm.pager.Need(blocks) <= old(rm.pager.Need(blocks))
    {
      hide P.Inv, P.Pages, A.Inv, CanUnmap, A.CutFront, PagesFromSize, R.Range, Pg;
      ghost var s := View();
      var x := mmap[i];
      var left := UnmapPart(InMmap(i), x.addr, PagesFromSize(len));
      mmap := mmap[i := MoveUp(x, len)];
      rm.CutFront(x.region, len);
      assert s.mmap[i := x.(pages := x.pages - PagesFromSize(len))][i := MoveUp(x, len)] == s.mmap[i := MoveUp(x, len)];
    }

    ghost predicate FrontReady(s: Heap, i: nat, len: nat) {
      && i < |s.mmap| && CanUnmap(s, InMmap(i), s.mmap[i].addr, PagesFromSize(len)) && 0 < len < s.mmap[i].length
      && PagesizeAlign(len) < s.a.regions[s.mmap[i].region].size && PagesFromSize(len) < s.mmap[i].pages
      && 0x1000 * PagesFromSize(len) == len && 0 < s.mmap[i].addr
      && s.mmap[i].addr + s.mmap[i].length <= 0x8000_0000_0000
    }

    lemma FrontFacts(s: Heap, i: nat, len: nat)
      requires i < |s.mmap| && M.CanSlice(s, i, s.mmap[i].addr, len) && A.Inv(s.a) && M.Live(s.a, s.m, s.mmap[i])
      requires len % 0x1000 == 0
      requires s.mmap[i].addr + s.mmap[i].length <= 0x8000_0000_0000
      ensures FrontReady(s, i, len)
    {
      hide A.Inv, CanUnmap, M.Linear, M.Counted;
      M.PageArithmetic(s.mmap[i].addr, len);
    }

    /** slice_end */
    method SliceEnd(i: nat, base: nat)
      requires Valid() && EndReady(View(), i, base) && HasRegion(mmap[i])
      modifies this`brk, this`mmap, rm`regions, rm`used, rm`freelists, rm.pager`tables
      ensures View() == M.SliceEnd(old(View()), i, base)
      ensures Valid() && rm.pager.Need(blocks) <= old(rm.pager.Need(blocks))
    {
      hide P.Inv, P.Pages, A.Inv, CanUnmap, PagesFromSize, R.Range, Pg;
      ghost var s := View();
      var x := mmap[i];
      var left := UnmapPart(InMmap(i), base, PagesFromSize(x.addr + x.length - base));
      mmap := mmap[i := SetLength(x, base - x.addr)];
      ghost var y := x.(pages := x.pages - PagesFromSize(x.addr + x.length - base));
      assert s.mmap[i := y][i := SetLength(x, base - x.addr)]
          == s.mmap[i := SetLength(x, base - x.addr)];
    }

    ghost predicate EndReady(s: Heap, i: nat, base: nat) {
      && i < |s.mmap| && s.mmap[i].addr <= base <= s.mmap[i].addr + s.mmap[i].length
      && CanUnmap(s, InMmap(i), base, PagesFromSize(s.mmap[i].addr + s.mmap[i].length - base))
      && PagesFromSize(s.mmap[i].addr + s.mmap[i].length - base) < s.mmap[i].pages
      && s.mmap[i].addr + s.mmap[i].length <= 0x8000_0000_0000 && base % 0x1000 == 0 && s.mmap[i].addr > 0
      && base + 0x1000 * PagesFromSize(s.mmap[i].addr + s.mmap[i].length - base) == s.mmap[i].addr + s.mmap[i].length
    }

    /** slice_center up to the tail. */
    method CutHole(i: nat, off: nat, len: nat) returns (ghost tail: nat)
      requires Valid() && MiddleReady(View(), i, off, len) && HasRegion(mmap[i])
      modifies this`brk, this`mmap, rm`regions, rm`used, rm`freelists, rm.pager`tables
      ensures View() == M.CutHole(old(View()), i, off, len)
      ensures Valid() && rm.pager.Need(blocks) <= old(rm.pager.Need(blocks))
      ensures tail == old(|rm.regions|) && tail in rm.used && tail < |rm.regions|
              && !RegionManager.IsPool(rm.regions[tail], rm.pager.chunks[0])
      ensures rm.regions[tail].size == old(rm.regions[mmap[i].region].size) - off - len
      ensures rm.regions[tail].host == old(rm.regions[mmap[i].region].host) + off + len
    {
      hide P.Inv, P.Pages, A.Inv, CanUnmap, PagesFromSize, PagesizeAlign, R.Range, R.RangeOk, R.Need, Pg, A.CutMiddle;
      ghost var s := View();
      var x := mmap[i];
      var left := UnmapPart(InMmap(i), x.addr + off, PagesFromSize(len));
      tail := rm.CutMiddle(x.region, off, len);
      mmap := mmap[i := SetLength(x, off)];
      assert s.mmap[i := x.(pages := x.pages - PagesFromSize(len))][i := SetLength(x, off)]
          == s.mmap[i := SetLength(x, off)];
    }

    /** slice_center */
    method SliceCenter(i: nat, off: nat, len: nat)
      requires Valid() && MiddleReady(View(), i, off, len) && HasRegion(mmap[i])
      requires R.Touched(Pg(mmap[i].addr + off + len), (mmap[i].length - off - len) / 0x1000) <= blocks
      modifies this`brk, this`mmap, rm`regions, rm`used, rm`freelists, rm.pager`tables
      ensures View() == M.SliceMiddle(old(View()), i, off, len)
      ensures Valid()
      ensures rm.pager.Need(blocks) <= old(rm.pager.Need(blocks))
    {
      hide P.Inv, P.Pages, A.Inv, CanUnmap, PagesFromSize, PagesizeAlign, R.Range, R.Overlay, R.RangeOk, R.Need,
           R.Touched, Pg, M.CutHole, M.CreateIn;
      ghost var s := View();
      var x := mmap[i];
      HoleLeaves(s, i, off, len);
      ghost var n := CutHole(i, off, len);
      var tail := FindTail(x.host + off + len, n);
      CreateIn(tail, x.addr + off + len, x.length - off - len, x.prot, x.anon, x.fd, x.offset + off + len);
    }

    /** The find_region of slice_center. */
    method FindTail(p: nat, ghost n: nat) returns (tail: nat)
      requires A.Inv(rm.View()) && n in rm.used && n < |rm.regions| && A.Holds(rm.regions[n], p)
      ensures tail == n
    {
      hide A.Inv;
      A.UsedInBounds(rm.View());
      var found, h := rm.FindRegion(p);
      A.OneRegion(rm.View(), n, h, p);
      tail := h;
    }

    /** What the tail finds behind the hole. */
    static lemma HoleLeaves(s: Heap, i: nat, off: nat, len: nat)
      requires i < |s.mmap| && CanUnmap(s, InMmap(i), s.mmap[i].addr + off, PagesFromSize(len))
      requires off + len < s.mmap[i].length && off + len <= s.a.regions[s.mmap[i].region].size
      requires PagesFromSize(len) < s.mmap[i].pages
      ensures M.CutHole(s, i, off, len).m == s.m - R.Range(Pg(s.mmap[i].addr + off), PagesFromSize(len))
    {
      hide CanUnmap, PagesFromSize, R.Range, Pg, A.CutMiddle;
    }

    ghost predicate MiddleReady(s: Heap, i: nat, off: nat, len: nat) {
      && i < |s.mmap| && CanUnmap(s, InMmap(i), s.mmap[i].addr + off, PagesFromSize(len))
      && PagesFromSize(len) < s.mmap[i].pages && s.mmap[i].region < |s.a.regions|
      && MiddleFits(s.mmap[i], s.a.regions[s.mmap[i].region], off, len) && TailOk(s, s.mmap[i], off, len)
    }

    ghost predicate MiddleFits(x: Mapping, r: A.Region, off: nat, len: nat) {
      && 0 < off && 0 < len && off % 0x1000 == 0 && len % 0x1000 == 0 && 0x1000 * PagesFromSize(len) == len
      && off + len < x.length <= r.size && x.host == r.host && x.length % 0x1000 == 0 && x.addr % 0x1000 == 0
      && 0 < x.addr && x.addr + x.length <= 0x8000_0000_0000 && (x.prot.read || x.prot.write || x.prot.exec)
    }

    ghost predicate TailOk(s: Heap, x: Mapping, off: nat, len: nat)
      requires off + len < x.length
    {
      R.RangeOk(s.m - R.Range(Pg(x.addr + off), PagesFromSize(len)), Pg(x.addr + off + len), x.host + off + len,
                (x.length - off - len) / 0x1000)
    }

    lemma EndFacts(s: Heap, i: nat, base: nat, len: nat)
      requires M.CanSlice(s, i, base, len) && A.Inv(s.a) && M.Live(s.a, s.m, s.mmap[i]) && base % 0x1000 == 0
      requires base != s.mmap[i].addr && !Contains(s.mmap[i], base + len)
      requires s.mmap[i].addr + s.mmap[i].length <= 0x8000_0000_0000
      ensures EndReady(s, i, base)
    {
      hide A.Inv, CanUnmap, M.Linear, M.Counted;
      var x := s.mmap[i];
      M.LengthMinus(base, x.addr);
      M.LengthMinus(x.length, base - x.addr);
      M.PageArithmetic(x.addr, x.addr + x.length - base);
    }

    lemma MiddleFacts(s: Heap, i: nat, base: nat, len: nat)
      requires M.CanSlice(s, i, base, len) && A.Inv(s.a) && M.Live(s.a, s.m, s.mmap[i]) && base % 0x1000 == 0
      requires base != s.mmap[i].addr && Contains(s.mmap[i], base + len) && len % 0x1000 == 0 && len > 0
      requires s.mmap[i].addr + s.mmap[i].length <= 0x8000_0000_0000
      ensures base > s.mmap[i].addr && MiddleReady(s, i, base - s.mmap[i].addr, len)
      ensures var x := s.mmap[i];
              R.Touched(Pg(base + len), (x.length - (base - x.addr) - len) / 0x1000)
                <= R.Touched(Pg(x.addr), x.length / 0x1000)
    {
      hide CanUnmap, PagesFromSize, R.Range, R.RangeOk, R.Touched, Pg, A.Inv, M.Linear, M.Counted;
      var x := s.mmap[i];
      var off := base - x.addr;
      var z := M.TailOf(s, x, off, len);
      M.LengthMinus(base, x.addr);
      M.TailArith(x, off, len, z, SetLength(x, off));
      M.PageArithmetic(x.addr, len);
      M.TailInRange(s.m, x, z, Pg(x.addr + off), len / 0x1000, s.a);
      R.TouchedPart(Pg(z.addr), M.Len(z), Pg(x.addr), M.Len(x));
    }

    /** HeapManager::slice of part of a live mapping; the asserts on the way are in CanSlice. */
    method Slice(i: nat, base: nat, len: nat)
      requires Valid() && M.CanSlice(View(), i, base, len) && LiveAt(i)
      requires base % 0x1000 == 0 && len % 0x1000 == 0 && len > 0
      modifies this`brk, this`mmap, rm`regions, rm`used, rm`freelists, rm.pager`tables
      ensures View() == M.Slice(old(View()), i, base, len)
      ensures Valid() && rm.pager.Need(blocks) <= old(rm.pager.Need(blocks))
    {
      hide P.Inv, P.Pages, A.Inv, CanUnmap, PagesFromSize, PagesizeAlign, R.Need, R.Touched, Pg, M.SliceFront,
           M.SliceMiddle, M.SliceEnd, M.Live, M.CanSlice;
      ghost var s := View();
      var x := mmap[i];
      SliceCases(s, i, base, len);
      if base == x.addr {
        FrontFacts(s, i, len);
        SliceBegin(i, len);
      } else if Contains(x, base + len) {
        MiddleFacts(s, i, base, len);
        SliceCenter(i, base - x.addr, len);
      } else {
        EndFacts(s, i, base, len);
        SliceEnd(i, base);
      }
    }

    lemma SliceCases(s: Heap, i: nat, base: nat, len: nat)
      requires M.CanSlice(s, i, base, len)
      ensures i < |s.mmap| && s.mmap[i].addr <= base
    {
    }

    /** Mapping i is in step with its region and its pages, its region is not the pool, and it
        lies below 2^47 in blocks that the table pool has room for. */
    ghost predicate LiveAt(i: nat)
      reads this, rm, rm.pager, rm.pager.tlb
    {
      && i < |mmap| && HasRegion(mmap[i]) && M.Live(rm.View(), rm.pager.Pages(), mmap[i])
      && mmap[i].addr + mmap[i].length <= 0x8000_0000_0000
      && R.Touched(Pg(mmap[i].addr), mmap[i].length / 0x1000) <= blocks
    }

    // ----- get_mapping

    /** Pages from t on, none of them in use, below 2^47 and in blocks with room. */
    ghost predicate FreeAt(m: P.PageMap, t: nat, pages: nat) { Reachable(t, pages) && R.Range(Pg(t), pages) !! m.Keys }

    /** What a new mapping needs: a fresh host range if the allocator asks for one, and free
        pages at its guest address, which is the host address of the allocated region if none
        is given. */
    ghost predicate CanCreate(s: Heap, addr: nat, length: nat, host: nat) {
      && |s.a.freelists| == A.N_FREELISTS && length > 0 && length % 0x1000 == 0 && addr % 0x1000 == 0
      && (A.FindList(s.a, length) == A.N_FREELISTS ==> C.FreshRange(s.a.chunks, host, A.GrowSize(length)))
      && forall r | A.GrantsAt(s.a, length, host, r) :: FreeAt(s.m, M.Target(r.s, r.h, addr), length / 0x1000)
    }

    /** create_mapping with a region of its own. */
    method CreateMapping(addr: nat, length: nat, prot: Prot, anon: bool, fd: int, offset: int, host: nat)
      returns (ghost r: A.Allocated)
      requires Valid() && CanCreate(View(), addr, length, host) && (prot.read || prot.write || prot.exec)
      modifies this`mmap, rm, rm.pager
      ensures r.h < |r.s.regions| && A.Serves(old(rm.View()), length, r) && A.GrantsAt(old(rm.View()), length, host, r)
      ensures View() == M.CreateIn(old(View()), r, addr, length, prot, anon, fd, offset)
      ensures Valid() && rm.pager.Need(blocks) <= old(rm.pager.Need(blocks))
    {
      hide P.Inv, P.Pages, A.Inv, A.FindList, A.Allocate, A.GrowSize, R.Range, R.Need, R.Touched, Pg, MapIn, A.SetAddr,
           PagesizeAlign, PagesFromSize, A.Grants;
      ghost var s := View();
      var h, c := rm.Allocate(length, host);
      r := A.Allocated(rm.View(), h);
      FreeAtFacts(s, addr, length, host, r, c);
      CreateIn(h, addr, length, prot, anon, fd, offset);
    }

    lemma FreeAtFacts(s: Heap, addr: nat, length: nat, host: nat, r: A.Allocated, c: C.Chunk)
      requires CanCreate(s, addr, length, host) && A.Serves(s.a, length, r) && A.Grants(s.a, length, c, r)
      requires A.FindList(s.a, length) == A.N_FREELISTS ==> c.host == host
      ensures A.GrantsAt(s.a, length, host, r)
      ensures FreeAt(s.m, M.Target(r.s, r.h, addr), length / 0x1000) && r.s.regions[r.h].size == length
      ensures R.RangeOk(s.m, Pg(M.Target(r.s, r.h, addr)), r.s.regions[r.h].host, length / 0x1000)
    {
      hide A.Inv, A.FindList, A.Grants, A.UsedStay, R.Range;
      var t := M.Target(r.s, r.h, addr);
      assert A.GrantsAt(s.a, length, host, r);
      assert FreeAt(s.m, t, length / 0x1000);
      R.FreeRange(s.m, Pg(t), r.s.regions[r.h].host, length / 0x1000);
    }

    /** The first search of get_mapping. */
    method FindExact(addr: nat, length: nat) returns (k: int)
      ensures k == M.FindExact(mmap, addr, length)
    {
      k := 0;
      while k < |mmap|
        invariant 0 <= k <= |mmap| && forall j | 0 <= j < k :: !(mmap[j].addr == addr && mmap[j].length == length)
      {
        if mmap[k].addr == addr && mmap[k].length == length {
          return;
        }
        k := k + 1;
      }
      k := -1;
    }

    /** The second search of get_mapping. */
    method FindContaining(addr: nat) returns (k: int)
      ensures k == M.FindContaining(mmap, addr)
    {
      k := 0;
      while k < |mmap|
        invariant 0 <= k <= |mmap| && forall j | 0 <= j < k :: !Contains(mmap[j], addr)
      {
        if Contains(mmap[k], addr) {
          return;
        }
        k := k + 1;
      }
      k := -1;
    }

    /** Mapping i gets the requested rights and is mapped again. */
    method Remap(i: nat, prot: Prot, anon: bool, fd: int, offset: int)
      requires Valid() && LiveAt(i) && mmap[i].region < |rm.View().regions| && (prot.read || prot.write || prot.exec)
      modifies this`mmap, rm.pager`tables
      ensures View() == M.Remap(old(View()), i, prot, anon, fd, offset)
      ensures Valid() && rm.pager.Need(blocks) <= old(rm.pager.Need(blocks))
    {
      hide P.Inv, P.Pages, A.Inv, R.RangeOk, R.Need, R.Touched, Pg, MapIn, M.Linear, M.Counted, PagesFromSize;
      M.LiveRange(rm.View(), rm.pager.Pages(), mmap[i]);
      M.PageArithmetic(mmap[i].addr, mmap[i].length);
      var x := mmap[i].(pages := PagesFromSize(mmap[i].length), prot := prot, anon := anon, fd := fd, offset := offset);
      mmap := mmap[i := x];
      Map(x);
    }

    /** get_mapping: s1 is the heap behind the slice, if there is one, and r the allocation. */
    method GetMapping(q: M.Request, host: nat, ghost s1: Heap) returns (ghost r: A.Allocated)
      requires Valid() && q.length > 0 && (q.prot.read || q.prot.write || q.prot.exec) && q.addr % 0x1000 == 0
      requires M.Exact(View(), q) ==> LiveAt(M.FindExact(mmap, q.addr, PagesizeAlign(q.length)))
      requires !M.Exact(View(), q) && q.addr != 0 && q.fixed && M.FindContaining(mmap, q.addr) >= 0 ==>
                 LiveAt(M.FindContaining(mmap, q.addr))
      requires !M.Exact(View(), q) ==>
                 && M.Before(View(), q, s1)
                 && CanCreate(s1, if q.addr != 0 && q.fixed then q.addr else 0, PagesizeAlign(q.length), host)
      modifies this, rm, rm.pager
      ensures M.GetMapping(old(View()), q, s1, r, View())
      ensures !M.Exact(old(View()), q) ==>
                A.Serves(s1.a, PagesizeAlign(q.length), r) && A.GrantsAt(s1.a, PagesizeAlign(q.length), host, r)
      ensures Valid() && rm.pager.Need(blocks) <= old(rm.pager.Need(blocks))
      ensures M.Delivers(old(View()), q, s1, r, View())
    {
      hide P.Inv, P.Pages, A.Inv, R.Need, R.Touched, Pg, PagesizeAlign, M.CanSlice, M.Slice, M.CreateIn, M.Remap,
           A.Serves, CanCreate, A.GrantsAt, M.Linear, M.Counted, M.Delivers;
      ExactInUse(q);
      var len := PagesizeAlign(q.length);
      AlignFacts(q.length);
      if q.addr != 0 && q.fixed {
        var i := FindExact(q.addr, len);
        if i >= 0 {
          Remap(i, q.prot, q.anon, q.fd, q.offset);
          r := A.Allocated(rm.View(), 0);
          M.GetMappingDelivers(old(View()), q, s1, r, View());
          return;
        }
        var j := FindContaining(q.addr);
        if j >= 0 {
          Slice(j, q.addr, len);
        }
        r := CreateMapping(q.addr, len, q.prot, q.anon, q.fd, q.offset, host);
      } else {
        r := CreateMapping(0, len, q.prot, q.anon, q.fd, q.offset, host);
      }
      M.GetMappingDelivers(old(View()), q, s1, r, View());
    }

    lemma ExactInUse(q: M.Request)
      requires M.Exact(View(), q) ==> LiveAt(M.FindExact(mmap, q.addr, PagesizeAlign(q.length)))
      ensures forall i: nat | M.FirstExact(mmap, q, i) :: mmap[i].region in rm.used
    {
      hide P.Pages, PagesizeAlign;
      M.ExactFirst(View(), q);
    }

    static lemma AlignFacts(length: nat)
      requires length > 0
      ensures PagesizeAlign(length) > 0 && PagesizeAlign(length) % 0x1000 == 0
    {
    }
  }
}
