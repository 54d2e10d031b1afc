/** Mappings that get their guest address from the allocator: a new machine has room for them,
    and so has every heap that they lead to. */
module HeapStart {
  import opened PageArith
  import opened PageEntry
  import C = Chunks
  import P = Pager
  import A = Allocator
  import R = PagerRanges
  import opened Mappings
  import B = BrkRuns
  import M = MmapRuns
  import HR = HeapRuns
  import opened HostRuns
  import H = HostMemory
  import E = ElfSegment
  import T = PageTables
  import opened Lookups
  import opened RegionManagers
  import opened HeapManagers

  /** Guest addresses from host on may be used: below 2^47, in blocks with room for their tables. */
  ghost predicate Reaches(blocks: set<nat>, host: nat, size: nat) {
    && host % 0x1000 == 0 && size % 0x1000 == 0 && host + size <= 0x8000_0000_0000
    && R.Touched(Pg(host), size / 0x1000) <= blocks
  }

  ghost predicate ChunksReach(s: Heap, blocks: set<nat>) {
    forall k | 0 <= k < |s.a.chunks| :: Reaches(blocks, s.a.chunks[k].host, s.a.chunks[k].size)
  }

  /** And the guest addresses of that range may be used. */
  ghost predicate ChunkFor(s: Heap, blocks: set<nat>, length: nat, host: nat) {
    && NewRange(s, length, host)
    && (A.FindList(s.a, length) == A.N_FREELISTS ==> Reaches(blocks, host, A.GrowSize(length)))
  }

  /** The guest addresses of what is cut off may be used. */
  lemma PlaceReaches(s: Heap, blocks: set<nat>, length: nat, host: nat, r: A.Allocated)
    requires A.Inv(s.a) && ChunksReach(s, blocks) && length > 0 && length % 0x1000 == 0
    requires ChunkFor(s, blocks, length, host) && A.GrantsAt(s.a, length, host, r)
    ensures r.h < |r.s.regions| && Reaches(blocks, r.s.regions[r.h].host, length)
  {
    hide A.Inv, A.FindList, A.GrantsAt, Reaches, C.FreshRange, A.GrowSize;
    var q := CutFrom(s.a, length, host, r);
    if A.FindList(s.a, length) < A.N_FREELISTS {
      var h: nat :| h < |s.a.regions| && s.a.regions[h] == q;
      RegionReaches(s, blocks, h);
    }
    FrontReaches(blocks, q.host, q.size, length);
  }

  lemma RegionReaches(s: Heap, blocks: set<nat>, h: nat)
    requires A.Inv(s.a) && ChunksReach(s, blocks) && h < |s.a.regions|
    ensures Reaches(blocks, s.a.regions[h].host, s.a.regions[h].size)
  {
    var r := s.a.regions[h];
    assert A.WellFormed(r);
    var k: nat :| k < |s.a.chunks| && A.InChunk(s.a.chunks[k], r);
    PartReaches(blocks, s.a.chunks[k].host, s.a.chunks[k].size, r.host, r.size);
  }

  lemma ChunksStillReach(s: Heap, blocks: set<nat>, length: nat, host: nat, r: A.Allocated, s': Heap)
    requires A.Inv(s.a) && ChunksReach(s, blocks) && ChunkFor(s, blocks, length, host) && length > 0
    requires A.GrantsAt(s.a, length, host, r) && s'.a.chunks == r.s.chunks
    ensures ChunksReach(s', blocks)
  {
    hide A.Inv, A.FindList, A.GrantsAt, A.Serves, Reaches, A.GrowSize, C.FreshRange;
    GrantedChunks(s.a, length, host, r);
    forall k | 0 <= k < |s'.a.chunks| ensures Reaches(blocks, s'.a.chunks[k].host, s'.a.chunks[k].size) {
      assert k < |s.a.chunks| ==> s'.a.chunks[k] == s.a.chunks[k];
    }
  }

  lemma FrontReaches(blocks: set<nat>, host: nat, size: nat, length: nat)
    requires Reaches(blocks, host, size) && length <= size && length % 0x1000 == 0
    ensures Reaches(blocks, host, length)
  {
    R.TouchedPart(Pg(host), length / 0x1000, Pg(host), size / 0x1000);
  }

  lemma PartReaches(blocks: set<nat>, host: nat, size: nat, host': nat, size': nat)
    requires Reaches(blocks, host, size) && host <= host' && host' + size' <= host + size && host' % 0x1000 == 0
    requires size' % 0x1000 == 0
    ensures Reaches(blocks, host', size')
  {
    var b, n, b', n' := host / 0x1000, size / 0x1000, host' / 0x1000, size' / 0x1000;
    assert host == 0x1000 * b && size == 0x1000 * n && host' == 0x1000 * b' && size' == 0x1000 * n';
    R.TouchedPart(b', n', b, n);
  }

  /** mmap without MAP_FIXED, for every length: the pages at the host address of the allocated
      region are free, they translate to themselves afterwards, every other page translates as
      before, the new mapping can be sliced and unmapped, and the next call finds the same
      conditions. */
  method MmapAnywhere(heap: HeapManager, q: M.Request, host: nat) returns (ghost r: A.Allocated)
    requires !q.fixed && q.length > 0 && (q.prot.read || q.prot.write || q.prot.exec) && q.addr % 0x1000 == 0
    requires heap.Valid() && AtHost(heap.View()) && ChunksReach(heap.View(), heap.blocks)
    requires ChunkFor(heap.View(), heap.blocks, PagesizeAlign(q.length), host)
    modifies heap, heap.rm, heap.rm.pager
    ensures M.GetMapping(old(heap.View()), q, old(heap.View()), r, heap.View()) && r.h < |r.s.regions|
    ensures A.Serves(old(heap.rm.View()), PagesizeAlign(q.length), r)
    ensures var t, n := r.s.regions[r.h].host, PagesizeAlign(q.length) / 0x1000;
            && R.Range(Pg(t), n) !! old(heap.View()).m.Keys
            && heap.View().m == R.Overlay(old(heap.View()).m, Pg(t), t, n, Opts(q.prot.write, q.prot.exec))
    ensures Added(old(heap.View()), heap.View(), r, PagesizeAlign(q.length)) && heap.LiveAt(|old(heap.mmap)|)
    ensures heap.Valid() && AtHost(heap.View()) && ChunksReach(heap.View(), heap.blocks)
  {
    hide P.Inv, P.Pages, A.Inv, A.FindList, A.GrantsAt, A.Serves, R.Need, R.Touched, Pg, PagesizeAlign, AtHost,
         ChunksReach, R.Overlay, R.Range, M.CanSlice, M.Slice, M.Remap, M.CreateIn, M.FindContaining, M.FindExact,
         A.GrowSize, M.Live, NewRange, A.SetAddr, RegionManager.IsPool;
    ghost var s, len := heap.View(), PagesizeAlign(q.length);
    HeapManager.AlignFacts(q.length);
    CanCreateAnywhere(heap, s, len, host);
    ghost var p := Pool(heap.rm);
    r := heap.GetMapping(q, host, s);
    PlaceIsFree(s, len, host, r);
    PlaceReaches(s, heap.blocks, len, host, r);
    CreatedIs(s, r, len, q.prot, q.anon, q.fd, q.offset);
    CreateAtHost(s, len, host, r, heap.View(), Opts(q.prot.write, q.prot.exec));
    ChunksStillReach(s, heap.blocks, len, host, r, heap.View());
    NotThePool(s.a, len, host, r, heap.View().a, p);
  }

  lemma Pool(rm: RegionManager) returns (p: nat)
    requires rm.Valid()
    ensures p in rm.used && p < |rm.regions| && |rm.pager.chunks| > 0
    ensures RegionManager.IsPool(rm.regions[p], rm.pager.chunks[0])
  {
    p :| p in rm.used && p < |rm.regions| && RegionManager.IsPool(rm.regions[p], rm.pager.chunks[0]);
  }

  lemma NotThePool(a: A.Alloc, length: nat, host: nat, r: A.Allocated, a': A.Alloc, p: nat)
    requires A.Inv(a) && length > 0 && A.GrantsAt(a, length, host, r) && |a.chunks| > 0 && p in a.used
    requires p < |a.regions|
    requires RegionManager.IsPool(a.regions[p], a.chunks[0]) && r.h < |r.s.regions|
    requires a' == A.SetAddr(r.s, r.h, r.s.regions[r.h].host)
    ensures r.h in a'.used && |a'.chunks| > 0 && r.h < |a'.regions|
    ensures !RegionManager.IsPool(a'.regions[r.h], a'.chunks[0])
  {
    hide A.Inv, A.FindList, A.GrantsAt, A.GrowSize;
    GrantedChunks(a, length, host, r);
    RegionManager.PoolStays(a, r.s, r.h, length, p, a.chunks[0]);
    assert r.s.chunks[0] == a.chunks[0];
  }

  lemma CanCreateAnywhere(heap: HeapManager, s: Heap, length: nat, host: nat)
    requires A.Inv(s.a) && AtHost(s) && ChunksReach(s, heap.blocks) && length > 0 && length % 0x1000 == 0
    requires ChunkFor(s, heap.blocks, length, host)
    ensures heap.CanCreate(s, 0, length, host)
  {
    hide A.Inv, A.FindList, A.GrantsAt, R.Touched, R.Range, Pg, A.GrowSize, C.FreshRange, AtHost, ChunksReach;
    forall r | A.GrantsAt(s.a, length, host, r)
      ensures r.h < |r.s.regions| && heap.FreeAt(s.m, M.Target(r.s, r.h, 0), length / 0x1000)
    {
      PlaceIsFree(s, length, host, r);
      PlaceReaches(s, heap.blocks, length, host, r);
      M.PageArithmetic(0, length);
    }
  }

  /** The first mmap of a new machine, of up to 2 GiB: host and more are what posix_memalign
      returns for the first chunk and, if the rest of it is too small, for another one. */
  method FirstMmap(host: nat, more: nat, q: M.Request) returns (heap: HeapManager, ghost r: A.Allocated)
    requires C.FreshRange([], host, A.MEMGROW) && host + A.MEMGROW <= 0x8000_0000_0000
    requires !q.fixed && 0 < q.length <= 0x8000_0000 && (q.prot.read || q.prot.write || q.prot.exec)
    requires q.addr % 0x1000 == 0
    requires C.FreshRange([C.Chunk(host, 0, A.MEMGROW, 0)], more, A.GrowSize(PagesizeAlign(q.length)))
    requires more + A.GrowSize(PagesizeAlign(q.length)) <= 0x8000_0000_0000
    ensures heap.Valid() && r.h < |r.s.regions| && |heap.mmap| == 1
    ensures var t, n := r.s.regions[r.h].host, PagesizeAlign(q.length) / 0x1000;
            heap.View().m == R.Overlay(map[], Pg(t), t, n, Opts(q.prot.write, q.prot.exec))
  {
    hide P.Inv, P.Pages, A.Inv, A.FindList, A.GrowSize, R.Need, R.Touched, R.Overlay, R.Range, M.CreateIn, M.Remap,
         M.CanSlice, M.Slice, M.FindContaining, M.FindExact, PagesizeAlign;
    var rm := new RegionManager(host);
    ghost var len := PagesizeAlign(q.length);
    ghost var b1, b2 := R.Touched(Pg(host), A.MEMGROW / 0x1000), R.Touched(Pg(more), A.GrowSize(len) / 0x1000);
    FirstBlocks(rm.pager.Pt(), Pg(host), Pg(more), q.length);
    heap := new HeapManager(rm, b1 + b2);
    A.ListCount(rm.View());
    ghost var s := heap.View();
    assert Reaches(b1 + b2, host, A.MEMGROW) && Reaches(b1 + b2, more, A.GrowSize(len));
    r := MmapAnywhere(heap, q, more);
  }

  lemma FirstBlocks(pt: T.PT, v: nat, w: nat, length: nat)
    requires |pt.tables| == 1 && length <= 0x8000_0000
    ensures var b1, b2 := R.Touched(v, A.MEMGROW / 0x1000), R.Touched(w, A.GrowSize(PagesizeAlign(length)) / 0x1000);
            R.Need(pt, b1 + b2) <= P.POOL_TABLES
  {
    hide R.Need, R.Touched;
    var b1, b2 := R.Touched(v, A.MEMGROW / 0x1000), R.Touched(w, A.GrowSize(PagesizeAlign(length)) / 0x1000);
    R.NeedBound(pt, b1 + b2);
    R.UnionSize(b1, b2);
    R.TouchedSize(v, A.MEMGROW / 0x1000);
    R.TouchedSize(w, A.GrowSize(PagesizeAlign(length)) / 0x1000);
  }

  /** An mmap and the munmap of what it mapped: the page map and the list are as before, the region is
      free again, and the next call finds the same conditions. */
  method MapAndUnmap(heap: HeapManager, q: M.Request, host: nat) returns (ghost r: A.Allocated)
    requires !q.fixed && q.length > 0 && (q.prot.read || q.prot.write || q.prot.exec) && q.addr % 0x1000 == 0
    requires heap.Valid() && AtHost(heap.View()) && ChunksReach(heap.View(), heap.blocks)
    requires ChunkFor(heap.View(), heap.blocks, PagesizeAlign(q.length), host)
    requires (forall i | 0 <= i < |heap.brk| :: heap.brk[i].pages > 0)
             && (forall i | 0 <= i < |heap.mmap| :: heap.mmap[i].pages > 0)
    modifies heap, heap.rm, heap.rm.pager
    ensures heap.View().m == old(heap.View()).m && heap.mmap == old(heap.mmap) && heap.brk == old(heap.brk)
    ensures r.h < |heap.rm.regions| && heap.rm.regions[r.h].free && r.h !in heap.rm.used
    ensures heap.Valid() && AtHost(heap.View()) && ChunksReach(heap.View(), heap.blocks)
  {
    hide P.Inv, P.Pages, A.Inv, A.FindList, A.GrantsAt, A.Serves, R.Need, R.Touched, Pg, PagesizeAlign, AtHost,
         ChunksReach, R.Overlay, R.Range, A.GrowSize, NewRange, A.SetAddr, M.GetMapping, Unmap, CanUnmap, M.Live;
    ghost var s := heap.View();
    r := MmapAnywhere(heap, q, host);
    ghost var s1 := heap.View();
    var i := |heap.mmap| - 1;
    UnmapIt(s, s1, r, q, i);
    var left := heap.UnmapPart(InMmap(i), heap.mmap[i].addr, heap.mmap[i].pages);
    ReachSame(s1, heap.View(), heap.blocks);
  }

  lemma ReachSame(s: Heap, s': Heap, blocks: set<nat>)
    requires ChunksReach(s, blocks) && s'.a.chunks == s.a.chunks
    ensures ChunksReach(s', blocks)
  {
  }

  /** What the munmap of a mapping just made leaves. */
  lemma UnmapIt(s: Heap, s1: Heap, r: A.Allocated, q: M.Request, i: nat)
    requires q.length > 0 && A.Inv(s1.a) && r.h < |r.s.regions| && i == |s.mmap| && AtHost(s1)
    requires var t, n := r.s.regions[r.h].host, PagesizeAlign(q.length) / 0x1000;
             && R.Range(Pg(t), n) !! s.m.Keys && s1.m == R.Overlay(s.m, Pg(t), t, n, Opts(q.prot.write, q.prot.exec))
    requires Added(s, s1, r, PagesizeAlign(q.length)) && M.Live(s1.a, s1.m, s1.mmap[i])
    requires A.Serves(s.a, PagesizeAlign(q.length), r)
    requires forall j | 0 <= j < |s.brk| :: s.brk[j].pages > 0
    requires forall j | 0 <= j < |s.mmap| :: s.mmap[j].pages > 0
    ensures var x := s1.mmap[i];
            && CanUnmap(s1, InMmap(i), x.addr, x.pages) && x.addr > 0
            && var s2 := Unmap(s1, InMmap(i), x.addr, x.pages);
            && s2.m == s.m && s2.mmap == s.mmap && s2.brk == s.brk && s2.a.chunks == s1.a.chunks && AtHost(s2)
            && r.h < |s2.a.regions| && s2.a.regions[r.h].free && r.h !in s2.a.used
  {
    hide A.Inv, Pg, A.Serves, PagesizeAlign, M.Counted, M.Linear, A.FreeRegion, A.SetAddr, R.Overlay, R.Range, AtHost,
         Unmap;
    var x, n := s1.mmap[i], PagesizeAlign(q.length) / 0x1000;
    HeapManager.AlignFacts(q.length);
    A.HandleOf(s.a, PagesizeAlign(q.length), r);
    M.PageArithmetic(0, x.length);
    A.FreedRegion(s1.a, r.h);
    Remapped(s.m, s1.m, x, n, Opts(q.prot.write, q.prot.exec));
    M.UnmapAllValue(s1, i, x.addr, x.pages);
    assert Erase(s1.mmap, i) == s.mmap;
    FreedAtHost(s1, r.h, s.m, A.FreeRegion(s1.a, r.h), x.addr, x.length);
    SameAtHost(s1.(m := s.m, a := A.FreeRegion(s1.a, r.h)), Unmap(s1, InMmap(i), x.addr, x.pages));
  }

  lemma Remapped(m: P.PageMap, m1: P.PageMap, x: Mapping, n: nat, opts: Opts)
    requires R.Range(Pg(x.addr), n) !! m.Keys && m1 == R.Overlay(m, Pg(x.addr), x.addr, n, opts)
    ensures m1 - R.Range(Pg(x.addr), n) == m && R.Range(Pg(x.addr), n) <= m1.Keys
    ensures m.Keys <= m1.Keys
  {
  }

  // ----- any number of brk calls

  lemma {:induction false} RunsMore(s: Heap, base: nat, limit: nat, calls: seq<B.Call>, s1: Heap, c: B.Call)
    requires B.Runs(s, base, limit, calls, s1) && c.newbrk % 0x1000 == 0 && base < c.newbrk <= limit
    requires B.Granted(s1, c.newbrk, c.r)
    ensures B.Runs(s, base, limit, calls + [c], B.Brk(s1, c.newbrk, c.r))
    decreases |calls|
  {
    hide B.Brk, B.Granted;
    if |calls| == 0 {
      assert (calls + [c])[1..] == [];
    } else {
      RunsMore(B.Brk(s, calls[0].newbrk, calls[0].r), base, limit, calls[1..], s1, c);
      assert (calls + [c])[1..] == calls[1..] + [c];
    }
  }

  /** Any sequence of breaks between base and limit: the blocks of pages between the two are paid
      for once, before the first call. */
  method BrkAll(heap: HeapManager, breaks: seq<nat>, ghost k: nat, ghost base: nat, ghost limit: nat)
    returns (ghost calls: seq<B.Call>)
    requires heap.Valid() && B.BrkOk(heap.View(), k, base, limit, heap.curbrk) && heap.HasRegions(k)
    requires heap.HasRoom(base, limit)
    requires forall i | 0 <= i < |breaks| :: breaks[i] % 0x1000 == 0 && base < breaks[i] <= limit
    modifies heap, heap.rm, heap.rm.pager
    ensures heap.Valid() && B.Runs(old(heap.View()), base, limit, calls, heap.View()) && heap.HasRegions(k)
    ensures B.BrkOk(heap.View(), k, base, limit, heap.curbrk)
    ensures |calls| == |breaks| && forall i | 0 <= i < |breaks| :: calls[i].newbrk == breaks[i]
    ensures heap.rm.pager.Need(heap.blocks) <= old(heap.rm.pager.Need(heap.blocks))
  {
    hide P.Inv, P.Pages, A.Inv, A.FindList, A.GrowSize, R.Need, R.Touched, B.Brk, B.ChainOk, B.TopOk, B.PagesOk,
         B.Granted, C.FreshRange;
    calls := [];
    var i := 0;
    while i < |breaks|
      invariant 0 <= i <= |breaks| && |calls| == i && forall j | 0 <= j < i :: calls[j].newbrk == breaks[j]
      invariant heap.Valid() && B.BrkOk(heap.View(), k, base, limit, heap.curbrk) && heap.HasRegions(k)
      invariant B.Runs(old(heap.View()), base, limit, calls, heap.View())
      invariant heap.rm.pager.Need(heap.blocks) <= old(heap.rm.pager.Need(heap.blocks))
    {
      ghost var s := heap.View();
      HeapManager.BrkFacts(s, k, base, limit, breaks[i]);
      A.ListCount(heap.rm.View());
      var last := heap.rm.regions[heap.brk[|heap.brk| - 1].region];
      var request := if breaks[i] > last.addr + last.size then breaks[i] - (last.addr + last.size) else 0;
      var host := PosixMemalign(heap.rm.pager.chunks, A.GrowSize(request));
      ghost var r := heap.Brk(breaks[i], host, k, base, limit);
      RunsMore(old(heap.View()), base, limit, calls, s, B.Call(breaks[i], r));
      calls := calls + [B.Call(breaks[i], r)];
      i := i + 1;
    }
  }

  // ----- the heap of a loaded program

  /** Between the load address and limit no page is in use, and the pool has room for them. */
  ghost predicate HeapPlace(m: P.PageMap, blocks: set<nat>, base: nat, limit: nat) {
    && 0 < base <= limit <= 0x8000_0000_0000 && R.Touched(Pg(base), Pg(limit) - Pg(base)) <= blocks
    && forall p: nat | R.Between(Pg(base), Pg(limit), p) :: p !in m
  }

  lemma SegmentPages(m: P.PageMap, blocks: set<nat>, base: nat, limit: nat, total: nat, host: nat)
    requires HeapPlace(m, blocks, base, limit) && base % 0x1000 == 0 && base + PagesizeAlign(total) <= limit
    ensures var n := PagesFromSize(total);
            && base + 0x1000 * n <= limit && R.Touched(Pg(base), n) <= blocks && R.Range(Pg(base), n) !! m.Keys
            && var m' := R.Overlay(m, Pg(base), host, n, Opts(true, false));
            && (forall p: nat | R.Between(Pg(base), Pg(limit), p) :: p in m' <==> R.InRange(Pg(base), n, p))
            && (forall p: nat | R.InRange(Pg(base), n, p) ::
                  p in m' && m'[p] == P.Page(host + 0x1000 * (p - Pg(base)), true, false))
  {
    var n := PagesFromSize(total);
    B.PgBound(base, n, limit);
    R.TouchedPart(Pg(base), n, Pg(base), Pg(limit) - Pg(base));
    forall p | p in R.Range(Pg(base), n) ensures p !in m {
      assert R.Between(Pg(base), Pg(limit), p);
    }
  }

  /** load_phdr of a writable segment with init behind it: the segment is in guest memory, and
      every run of brk, mmap and munmap may start. The assert in init wants a size that is not a
      multiple of the page size. */
  method LoadData(heap: HeapManager, ram: H.Ram, file: E.File, phdr: E.Phdr, isLdr: bool, pad: seq<H.Byte>,
                  ghost limit: nat)
    returns (h: nat)
    requires phdr.filesz <= phdr.memsz && 0 < phdr.memsz && phdr.offset + phdr.filesz <= |file.content|
             && |pad| == OffsetInPage(phdr.vaddr) && (phdr.memsz + OffsetInPage(phdr.vaddr)) % 0x1000 != 0
    requires heap.mmap == [] && forall i | 0 <= i < |heap.brk| :: heap.brk[i].pages > 0
    requires HeapPlace(heap.rm.pager.Pages(), heap.blocks, PageBegin(E.LoadAddr(phdr, isLdr)), limit)
    requires PageBegin(E.LoadAddr(phdr, isLdr)) + PagesizeAlign(phdr.memsz + OffsetInPage(phdr.vaddr)) <= limit
    requires heap.Valid()
    modifies heap`brk, heap`curbrk, heap.rm, heap.rm.pager, ram, file
    ensures var addr := if isLdr then 0x100_0000 + phdr.vaddr else phdr.vaddr;
            && E.Loaded(heap.rm.pager.Pages(), ram.bytes, addr, file.content, phdr)
            && HR.HeapOk(heap.View(), |old(heap.brk)|, PageBegin(addr), limit) && heap.HasRoom(PageBegin(addr), limit)
    ensures heap.Valid() && heap.HasRegions(|old(heap.brk)|)
    ensures heap.rm.pager.Need(heap.blocks) <= old(heap.rm.pager.Need(heap.blocks))
  {
    hide P.Inv, P.Pages, A.Inv, R.Need, R.Touched, R.Overlay, R.Range, Pg, PageBegin, OffsetInPage, PagesFromSize,
         PagesizeAlign, E.Loaded, E.Filled, B.BrkOk, HR.HeapOk, NextPage, HeapPlace;
    ghost var m, base := heap.rm.pager.Pages(), PageBegin(E.LoadAddr(phdr, isLdr));
    ghost var total := phdr.memsz + OffsetInPage(phdr.vaddr);
    BaseIs(m, heap.blocks, E.LoadAddr(phdr, isLdr), limit);
    SegmentPages(m, heap.blocks, base, limit, total, 0);
    h := E.LoadPhdr(heap.rm, ram, file, phdr, isLdr, pad, heap.blocks);
    SegmentPages(m, heap.blocks, base, limit, total, heap.rm.regions[h].host);
    ghost var s := heap.View();
    B.InitStarts(s, h, total, limit);
    heap.Init(h, phdr.memsz + OffsetInPage(phdr.vaddr));
    HR.InitStarts(heap.View(), base, limit);
  }

  lemma BaseIs(m: P.PageMap, blocks: set<nat>, addr: nat, limit: nat)
    requires HeapPlace(m, blocks, PageBegin(addr), limit)
    ensures PageBegin(addr) % 0x1000 == 0 && 0 < PageBegin(addr) <= limit <= 0x8000_0000_0000
    ensures Pg(PageBegin(addr)) <= Pg(limit)
    ensures R.Touched(Pg(PageBegin(addr)), Pg(limit) - Pg(PageBegin(addr))) <= blocks
  {
  }
}
