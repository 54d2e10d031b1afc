/** The pager on values: page tables, chunk table and translation cache together, and the
    map from page numbers to host pages that they implement. */
module Pager {
  import opened PageArith
  import opened PageEntry
  import C = Chunks
  import T = PageTables
  import K = KernelPages

  const EIO: int := 5

  /** ELKVM_SYSTEM_MEMSIZE, the size of the table pool, and the number of tables it holds. */
  const POOL_SIZE: nat := 0x100_0000
  const POOL_TABLES: nat := 4096

  datatype TlbSlot = TlbSlot(key: nat, value: nat)

  datatype State = State(ct: C.ChunkTable, pt: T.PT, tlb: seq<TlbSlot>)

  ghost predicate FramesOk(ct: C.ChunkTable, pt: T.PT) {
    forall v: nat | v < 0x10_0000_0000 && T.Leaf(pt, v).present ::
      T.Leaf(pt, v).addr % 0x1000 == 0 && C.FindPhys(ct.chunks, T.Leaf(pt, v).addr) >= 0
  }

  /** The pool lies in chunk 0, which starts at guest-physical address 0. */
  ghost predicate PoolOk(ct: C.ChunkTable, pt: T.PT) {
    |ct.chunks| > 0 && ct.chunks[0].gpa == 0 && pt.base + POOL_SIZE <= ct.chunks[0].size
  }

  ghost predicate Inv(s: State) {
    && C.Inv(s.ct) && T.Inv(s.pt) && PoolOk(s.ct, s.pt) && FramesOk(s.ct, s.pt)
    && |s.tlb| == 4096
  }

  // ----- the abstract page map

  /** A present page: its host page and its rights. */
  datatype Page = Page(host: nat, write: bool, exec: bool)

  type PageMap = map<nat, Page>

  function HostPage(s: State, v: nat): nat {
    var e := T.Leaf(s.pt, v);
    if e.present then C.PhysToHost(s.ct.chunks, e.addr) else 0
  }

  ghost function Pages(s: State): PageMap {
    map v: nat | v < 0x10_0000_0000 && T.Leaf(s.pt, v).present ::
      Page(HostPage(s, v), T.Leaf(s.pt, v).writeable, !T.Leaf(s.pt, v).noexec)
  }

  // ----- map_user_page, free_page

  datatype Result = Result(s: State, err: int)

  function MapUserPage(s: State, host: nat, gva: nat, opts: Opts): Result {
    if host % 0x1000 != gva % 0x1000 then Result(s, -EIO)
    else
      var r := T.MapPage(s.pt, Vpn(gva), C.HostToGuest(s.ct.chunks, host), opts);
      Result(s.(pt := r.pt), if r.ok then 0 else -1)
  }

  function FreePage(s: State, gva: nat): Result {
    var r := T.FreePage(s.pt, Vpn(gva));
    Result(s.(pt := r.pt), if r.ok then 0 else -1)
  }

  /** `m` with page v mapped to `p`, unless v is present with another host page. */
  predicate MapOk(m: PageMap, v: nat, host: nat) { v in m ==> m[v].host == host }

  function MapOne(m: PageMap, v: nat, p: Page): PageMap {
    if MapOk(m, v, p.host) then m[v := p] else m
  }

  function PageFor(host: nat, opts: Opts): Page { Page(PageBegin(host), opts.write, opts.exec) }

  lemma FrameIsHost(cs: seq<C.Chunk>, total: nat, host: nat, frame: nat)
    requires C.ChunksOk(cs, total) && C.FindHost(cs, host) >= 0 && C.FindPhys(cs, frame) >= 0
    ensures C.FindPhys(cs, PageBegin(C.HostToGuest(cs, host))) >= 0
    ensures C.PhysToHost(cs, PageBegin(C.HostToGuest(cs, host))) == PageBegin(host)
    ensures frame == PageBegin(C.HostToGuest(cs, host)) <==> C.PhysToHost(cs, frame) == PageBegin(host)
  {
    C.HostPageAligned(cs, total, host);
    C.HostRoundTrip(cs, total, PageBegin(host));
    C.PhysRoundTrip(cs, total, frame);
  }

  lemma MapFramesOk(s: State, v: nat, frame: nat, opts: Opts)
    requires Inv(s) && v < 0x10_0000_0000 && C.FindPhys(s.ct.chunks, PageBegin(frame)) >= 0
    ensures FramesOk(s.ct, T.MapPage(s.pt, v, frame, opts).pt)
  {
    T.MapPageRefines(s.pt, v, frame, opts);
  }

  /** map_user_page on the page map: it sets exactly one key, to the given host page with the
      given rights, and fails without any change exactly when that key is present with
      another host page, or when the two addresses have different offsets in their page. */
  lemma MapUserPageRefines(s: State, host: nat, gva: nat, opts: Opts)
    requires Inv(s) && (host % 0x1000 == gva % 0x1000 ==> C.HostToGuest(s.ct.chunks, host) != 0)
    ensures host % 0x1000 != gva % 0x1000 ==> MapUserPage(s, host, gva, opts) == Result(s, -5)
    ensures host % 0x1000 == gva % 0x1000 ==>
              var r := MapUserPage(s, host, gva, opts);
              && Inv(r.s) && r.s.ct == s.ct && r.s.tlb == s.tlb
              && Pages(r.s) == MapOne(Pages(s), Vpn(gva), PageFor(host, opts))
              && r.err == (if MapOk(Pages(s), Vpn(gva), PageBegin(host)) then 0 else -1)
              && |r.s.pt.tables| <= |s.pt.tables| + 3
  {
    if host % 0x1000 != gva % 0x1000 {
      return;
    }
    var cs, v := s.ct.chunks, Vpn(gva);
    var frame := C.HostToGuest(cs, host);
    var r := MapUserPage(s, host, gva, opts);
    T.MapPageRefines(s.pt, v, frame, opts);
    FrameIsHost(cs, s.ct.total, host, KnownFrame(s, v, host));
    MapFramesOk(s, v, frame, opts);
    MapPages(s, v, host, frame, opts);
  }

  /** A frame known to lie in a chunk: the one mapped at v, or the one of `host`. */
  ghost function KnownFrame(s: State, v: nat, host: nat): nat {
    if T.Leaf(s.pt, v).present then T.Leaf(s.pt, v).addr else C.HostToGuest(s.ct.chunks, host)
  }

  lemma PagesOnlyAt(s: State, pt': T.PT, v: nat)
    requires T.OnlyAt(s.pt, pt', v)
    ensures Pages(s.(pt := pt')) - {v} == Pages(s) - {v}
  {
    var s' := s.(pt := pt');
    forall u: nat | u < 0x10_0000_0000 && u != v ensures T.Leaf(pt', u) == T.Leaf(s.pt, u) {
    }
  }

  lemma SplitMap(m: PageMap, m': PageMap, v: nat)
    requires m' - {v} == m - {v}
    ensures v in m' ==> m' == m[v := m'[v]]
    ensures v !in m' ==> m' == m - {v}
    ensures v in m && v in m' && m[v] == m'[v] ==> m' == m
    ensures v !in m && v !in m' ==> m' == m
  {
    forall u | u != v ensures (u in m <==> u in m') && (u in m ==> m[u] == m'[u]) {
      assert u in m <==> u in m - {v};
      assert u in m' <==> u in m' - {v};
    }
  }

  /** Storing a fresh entry sets one key of the page map. */
  lemma StoredPages(s: State, pt': T.PT, v: nat, frame: nat, opts: Opts)
    requires Inv(s) && T.Inv(pt') && T.OnlyAt(s.pt, pt', v) && v < 0x10_0000_0000
    requires T.Leaf(pt', v) == CreateEntry(frame, opts) && C.FindPhys(s.ct.chunks, PageBegin(frame)) >= 0
    ensures Inv(s.(pt := pt'))
    ensures Pages(s.(pt := pt')) ==
            Pages(s)[v := Page(C.PhysToHost(s.ct.chunks, PageBegin(frame)), opts.write, opts.exec)]
  {
    var s' := s.(pt := pt');
    assert FramesOk(s'.ct, pt') by {
      forall u: nat | u < 0x10_0000_0000 && T.Leaf(pt', u).present
        ensures T.Leaf(pt', u).addr % 0x1000 == 0 && C.FindPhys(s.ct.chunks, T.Leaf(pt', u).addr) >= 0
      {
        assert u != v ==> T.Leaf(pt', u) == T.Leaf(s.pt, u);
      }
    }
    PagesOnlyAt(s, pt', v);
    SplitMap(Pages(s), Pages(s'), v);
  }

  lemma MapPages(s: State, v: nat, host: nat, frame: nat, opts: Opts)
    requires Inv(s) && v < 0x10_0000_0000 && C.FindHost(s.ct.chunks, host) >= 0
    requires frame == C.HostToGuest(s.ct.chunks, host)
    ensures var r := T.MapPage(s.pt, v, frame, opts);
            && Pages(s.(pt := r.pt)) == MapOne(Pages(s), v, PageFor(host, opts))
            && (r.ok <==> MapOk(Pages(s), v, PageBegin(host)))
  {
    var cs := s.ct.chunks;
    T.MapPageRefines(s.pt, v, frame, opts);
    C.HostRoundTrip(cs, s.ct.total, host);
    FrameIsHost(cs, s.ct.total, host, KnownFrame(s, v, host));
    var pt' := T.MapPage(s.pt, v, frame, opts).pt;
    PagesOnlyAt(s, pt', v);
    SplitMap(Pages(s), Pages(s.(pt := pt')), v);
  }

  /** free_page on the page map: it removes exactly one key, and fails exactly when the page
      is not there. */
  lemma FreePageRefines(s: State, gva: nat)
    requires Inv(s)
    ensures var r := FreePage(s, gva);
            && Inv(r.s) && r.s.ct == s.ct && r.s.tlb == s.tlb
            && Pages(r.s) == Pages(s) - {Vpn(gva)}
            && (r.err == 0 <==> Vpn(gva) in Pages(s))
            && (r.err == 0 || r.err == -1)
            && |r.s.pt.tables| == |s.pt.tables|
  {
    hide C.Inv, T.Inv, T.Leaf, Vpn, T.FreePage;
    var v := Vpn(gva);
    T.FreePageRefines(s.pt, v);
    var pt' := T.FreePage(s.pt, v).pt;
    PagesOnlyAt(s, pt', v);
    SplitMap(Pages(s), Pages(s.(pt := pt')), v);
  }

  /** A page table that answers every walk alike stands for the same page map. */
  lemma ExtendsKeepsPages(s: State, pt': T.PT)
    requires Inv(s) && T.Inv(pt') && T.Extends(s.pt, pt')
    ensures Inv(s.(pt := pt')) && Pages(s.(pt := pt')) == Pages(s)
  {
  }

  // ----- map_kernel_page

  datatype KernelResult = KernelResult(s: State, gva: nat)

  /** The canonical kernel address of page number v, at the given offset in the page. */
  function KernelAddress(v: nat, offset: nat): nat { 0xFFFF_0000_0000_0000 + v * 0x1000 + offset }

  function MapKernelPage(s: State, host: nat, opts: Opts): KernelResult {
    var frame := C.HostToGuest(s.ct.chunks, host);
    var f := K.MapKernel(s.pt, K.KERNEL_BOTTOM, frame, opts);
    KernelResult(s.(pt := f.pt), KernelAddress(f.v, frame % 0x1000))
  }

  /** The pages that the kernel search looks at: those of the first table of the kernel half, which starts at
      0xFFFF_8000_0000_0000, and then the upper half of each table. */
  predicate Searched(v: nat) { 0x8_0000_0000 <= v && (v < 0x8_0000_0200 || v % 512 >= 256) }

  /** v is the first free page of the kernel search. */
  ghost predicate FirstFree(m: PageMap, v: nat) {
    && Searched(v) && v < 0x10_0000_0000 && v !in m
    && forall u: nat | Searched(u) && u < v :: u in m
  }

  lemma SearchedIs(u: nat)
    ensures K.Candidate(K.KERNEL_BOTTOM, u) <==> Searched(u)
  {
  }

  /** What map_kernel_page does to the page map: the first free page of the search is mapped, at the offset of
      the host address in its page. An address outside every chunk stands for the first byte of the first one. */
  ghost predicate KernelMapped(s: State, host: nat, opts: Opts, s': State, gva: nat)
    requires Inv(s) && |s.ct.chunks| > 0
  {
    var v, inChunk := Vpn(gva), exists k :: 0 <= k < |s.ct.chunks| && C.ContainsHost(s.ct.chunks[k], host);
    && FirstFree(Pages(s), v)
    && gva == 0xFFFF_0000_0000_0000 + 0x1000 * v + (if inChunk then host % 0x1000 else 0)
    && (0x8_0000_0000 !in Pages(s) ==> gva - gva % 0x1000 == 0xFFFF_8000_0000_0000)
    && Pages(s') ==
       Pages(s)[v := if inChunk then PageFor(host, opts) else Page(s.ct.chunks[0].host, opts.write, opts.exec)]
  }

  lemma KernelFrame(s: State, host: nat)
    requires Inv(s)
    ensures C.FindPhys(s.ct.chunks, PageBegin(C.HostToGuest(s.ct.chunks, host))) >= 0 && |s.ct.chunks| > 0
    ensures C.PhysToHost(s.ct.chunks, PageBegin(C.HostToGuest(s.ct.chunks, host))) ==
            if C.FindHost(s.ct.chunks, host) >= 0 then PageBegin(host) else s.ct.chunks[0].host
  {
    if C.FindHost(s.ct.chunks, host) >= 0 {
      C.HostRoundTrip(s.ct.chunks, s.ct.total, host);
      FrameIsHost(s.ct.chunks, s.ct.total, host, C.HostToGuest(s.ct.chunks, host));
    } else {
      assert C.ContainsPhys(s.ct.chunks[0], 0);
    }
  }

  /** map_kernel_page on the page map: the returned canonical kernel address was the first
      free one of the search and now translates to the given host page; nothing else changes. */
  lemma MapKernelPageRefines(s: State, host: nat, opts: Opts)
    requires Inv(s) && |s.pt.tables| <= POOL_TABLES
    ensures var r := MapKernelPage(s, host, opts);
            && Inv(r.s) && r.s.ct == s.ct && r.s.tlb == s.tlb
            && |r.s.pt.tables| <= |s.pt.tables| + 3
            && 0xFFFF_8000_0000_0000 <= r.gva && Canonical(r.gva) && |s.ct.chunks| > 0
            && KernelMapped(s, host, opts, r.s, r.gva)
  {
    hide Inv, Pages, Vpn, Canonical, K.MapKernel, FirstFree;
    var frame := C.HostToGuest(s.ct.chunks, host);
    var f := K.MapKernel(s.pt, K.KERNEL_BOTTOM, frame, opts);
    KernelFound(s, frame, opts);
    KernelStored(s, host, opts);
    KernelAddressVpn(f.v, frame % 0x1000);
    KernelOffset(s, host);
    if 0x8_0000_0000 !in Pages(s) {
      FirstIsBottom(Pages(s), f.v);
    }
  }

  lemma FirstIsBottom(m: PageMap, v: nat)
    requires FirstFree(m, v) && 0x8_0000_0000 !in m
    ensures v == 0x8_0000_0000
  {
    assert Searched(0x8_0000_0000);
  }

  lemma KernelOffset(s: State, host: nat)
    requires Inv(s)
    ensures var inChunk := exists k :: 0 <= k < |s.ct.chunks| && C.ContainsHost(s.ct.chunks[k], host);
            && (C.FindHost(s.ct.chunks, host) >= 0 <==> inChunk)
            && C.HostToGuest(s.ct.chunks, host) % 0x1000 == if inChunk then host % 0x1000 else 0
  {
    if C.FindHost(s.ct.chunks, host) >= 0 {
      C.HostPageAligned(s.ct.chunks, s.ct.total, host);
    }
  }

  lemma KernelFound(s: State, frame: nat, opts: Opts)
    requires Inv(s) && |s.pt.tables| <= POOL_TABLES
    ensures var f := K.MapKernel(s.pt, K.KERNEL_BOTTOM, frame, opts);
            K.KERNEL_BOTTOM <= f.v && FirstFree(Pages(s), f.v) && |f.pt.tables| <= |s.pt.tables| + 3
  {
    K.MapKernelRefines(s.pt, frame, opts);
    forall u: nat ensures K.Candidate(K.KERNEL_BOTTOM, u) <==> Searched(u) { SearchedIs(u); }
  }

  lemma KernelStored(s: State, host: nat, opts: Opts)
    requires Inv(s) && |s.pt.tables| <= POOL_TABLES
    ensures var frame := C.HostToGuest(s.ct.chunks, host);
            var f := K.MapKernel(s.pt, K.KERNEL_BOTTOM, frame, opts);
            var s' := s.(pt := f.pt);
            && Inv(s') && |s.ct.chunks| > 0
            && Pages(s') ==
               Pages(s)[f.v := if C.FindHost(s.ct.chunks, host) >= 0 then PageFor(host, opts)
                               else Page(s.ct.chunks[0].host, opts.write, opts.exec)]
  {
    var frame := C.HostToGuest(s.ct.chunks, host);
    var f := K.MapKernel(s.pt, K.KERNEL_BOTTOM, frame, opts);
    K.MapKernelRefines(s.pt, frame, opts);
    KernelFrame(s, host);
    StoredPages(s, f.pt, f.v, frame, opts);
  }

  lemma KernelAddressNext(v: nat, offset: nat)
    ensures KernelAddress(v + 1, offset) == KernelAddress(v, offset) + 0x1000
    ensures KernelAddress(v + 257, offset) == KernelAddress(v, offset) + 0x1000 + 0x10_0000
  {
  }

  lemma KernelAddressVpn(v: nat, offset: nat)
    requires K.KERNEL_BOTTOM <= v < 0x10_0000_0000 && offset < 0x1000
    ensures var g := KernelAddress(v, offset);
            Vpn(g) == v && g % 0x1000 == offset && Canonical(g) && g >= 0xFFFF_8000_0000_0000
  {
    var n := 0xF_FFF0_0000_0000 + v;
    assert KernelAddress(v, offset) == 0x1000 * n + offset;
    assert n % 0x10_0000_0000 == v;
  }

  // ----- create_mem_chunk

  function AddChunk(s: State, host: nat, size: nat): State { s.(ct := C.AllocChunk(s.ct, host, size)) }

  lemma AddChunkRefines(s: State, host: nat, size: nat)
    requires Inv(s) && C.FreshRange(s.ct.chunks, host, size)
    ensures Inv(AddChunk(s, host, size)) && Pages(AddChunk(s, host, size)) == Pages(s)
  {
    var s' := AddChunk(s, host, size);
    C.AllocKeeps(s.ct, host, size);
    forall v: nat | v < 0x10_0000_0000 && T.Leaf(s.pt, v).present
      ensures C.FindPhys(s'.ct.chunks, T.Leaf(s.pt, v).addr) >= 0 && HostPage(s', v) == HostPage(s, v)
    {
      C.AllocKeepsTranslations(s.ct, host, size, T.Leaf(s.pt, v).addr);
    }
  }

  // ----- get_host_p and its cache

  ghost predicate FreshTlb(tlb: seq<TlbSlot>) { |tlb| == 4096 && forall h | 0 <= h < 4096 :: tlb[h] == TlbSlot(0, 0) }

  /** Bits 12 to 23 of the address. */
  function Hash(gva: nat): (h: nat)
    ensures h < 4096
  {
    gva / 0x1000 % 0x1000
  }

  /** TLB::find; 0 is a miss. */
  function TlbFind(tlb: seq<TlbSlot>, gva: nat): nat
    requires |tlb| == 4096
  {
    var slot := tlb[Hash(gva)];
    if slot.key == PageBegin(gva) then slot.value + gva % 0x1000 else 0
  }

  function TlbSet(tlb: seq<TlbSlot>, gva: nat, value: nat): seq<TlbSlot>
    requires |tlb| == 4096
  {
    tlb[Hash(gva) := TlbSlot(PageBegin(gva), PageBegin(value))]
  }

  /** The walk and chunk lookup of get_host_p without the cache; 0 is NULL. */
  function Uncached(s: State, gva: nat): nat {
    var e := T.Leaf(s.pt, Vpn(gva));
    if gva == 0 || !e.present then 0 else C.PhysToHost(s.ct.chunks, e.addr + gva % 0x1000)
  }

  datatype Lookup = Lookup(s: State, host: nat)

  function GetHostP(s: State, gva: nat): Lookup
    requires |s.tlb| == 4096
  {
    if gva == 0 then Lookup(s, 0)
    else if TlbFind(s.tlb, gva) != 0 then Lookup(s, TlbFind(s.tlb, gva))
    else if Uncached(s, gva) == 0 then Lookup(s, 0)
    else Lookup(s.(tlb := TlbSet(s.tlb, gva, Uncached(s, gva))), Uncached(s, gva))
  }

  lemma PageOfFrame(cs: seq<C.Chunk>, total: nat, frame: nat, off: nat)
    requires C.ChunksOk(cs, total) && C.FindPhys(cs, frame) >= 0 && frame % 0x1000 == 0 && off < 0x1000
    ensures var h := C.PhysToHost(cs, frame);
            && C.PhysToHost(cs, frame + off) == h + off
            && h > 0 && h % 0x1000 == 0 && PageBegin(h + off) == h
  {
    hide C.ChunksOk, PageBegin;
    var k := C.FindPhys(cs, frame);
    C.ChunkAligned(cs, total, k);
    PageAndOffset(frame, off);
    C.SamePage(cs[k].gpa, cs[k].size, frame);
    C.PhysUnique(cs, total, frame + off, k);
    C.PageAligned(cs, total, frame + off);
    C.PhysRoundTrip(cs, total, frame);
    PageAndOffset(C.PhysToHost(cs, frame), off);
  }

  lemma InvChunks(s: State)
    requires Inv(s)
    ensures C.ChunksOk(s.ct.chunks, s.ct.total)
  {
  }

  lemma UncachedIsPage(s: State, gva: nat)
    requires Inv(s) && gva != 0
    ensures var h := HostPage(s, Vpn(gva));
            && h % 0x1000 == 0
            && Uncached(s, gva) == (if h == 0 then 0 else h + gva % 0x1000)
            && PageBegin(Uncached(s, gva)) == h
            && (h == 0 <==> !T.Leaf(s.pt, Vpn(gva)).present)
  {
    hide T.Inv, C.Inv, C.FindPhys, T.Leaf, Vpn, PageBegin;
    var e := T.Leaf(s.pt, Vpn(gva));
    InvChunks(s);
    if e.present {
      PageOfFrame(s.ct.chunks, s.ct.total, e.addr, gva % 0x1000);
    }
  }

  /** A slot holds a page and a host page, or it was never filled. */
  predicate SlotShape(slot: TlbSlot) { slot.value % 0x1000 == 0 && (slot.value == 0 ==> slot.key == 0) }

  /** A slot is untouched, or holds the host page of a page that was not freed since. */
  ghost predicate SlotOk(s: State, freed: set<nat>, h: nat)
    requires h < |s.tlb|
  {
    var slot := s.tlb[h];
    || slot == TlbSlot(0, 0)
    || (slot.key % 0x1000 == 0 && slot.value % 0x1000 == 0 && slot.value > 0 && Hash(slot.key) == h
        && (Vpn(slot.key) in freed || HostPage(s, Vpn(slot.key)) == slot.value))
  }

  ghost predicate TlbOk(s: State, freed: set<nat>) {
    |s.tlb| == 4096 && forall h: nat | h < 4096 :: SlotOk(s, freed, h)
  }

  /** A filled slot that matches an address holds its host page. */
  lemma SlotAnswer(s: State, freed: set<nat>, gva: nat)
    requires TlbOk(s, freed) && Vpn(gva) !in freed
    ensures var slot := s.tlb[Hash(gva)];
            slot != TlbSlot(0, 0) && slot.key == PageBegin(gva) ==> slot.value == HostPage(s, Vpn(gva)) > 0
  {
    assert SlotOk(s, freed, Hash(gva));
    VpnOfPage(gva);
  }

  /** A lookup answers as the walk does if and only if the slot of the address belongs to another
      page or holds the present host page. An empty slot belongs to page 0. */
  lemma LookupExact(s: State, gva: nat)
    requires Inv(s) && gva != 0 && SlotShape(s.tlb[Hash(gva)])
    ensures var slot := s.tlb[Hash(gva)];
            GetHostP(s, gva).host == Uncached(s, gva) <==>
            slot.key != PageBegin(gva) || slot.value == HostPage(s, Vpn(gva)) > 0
  {
    hide Inv, HostPage, Hash, Vpn, Uncached;
    TlbSize(s);
    UncachedIsPage(s, gva);
  }

  lemma TlbSize(s: State)
    requires Inv(s)
    ensures |s.tlb| == 4096
  {
  }

  /** With the cache in order, a lookup of any page not freed answers as the walk does. The one
      exception is page 0 while its slot was never filled: the empty slot looks like a hit. */
  lemma LookupAgrees(s: State, freed: set<nat>, gva: nat)
    requires Inv(s) && TlbOk(s, freed) && gva != 0 && Vpn(gva) !in freed
    ensures GetHostP(s, gva).host == Uncached(s, gva) <==> gva >= 0x1000 || s.tlb[Hash(gva)] != TlbSlot(0, 0)
  {
    hide Inv, HostPage, Vpn, Uncached, GetHostP;
    assert SlotOk(s, freed, Hash(gva));
    SlotAnswer(s, freed, gva);
    LookupExact(s, gva);
  }

  lemma VpnOfPage(gva: nat)
    ensures Vpn(PageBegin(gva)) == Vpn(gva) && Hash(PageBegin(gva)) == Hash(gva)
  {
    assert PageBegin(gva) / 0x1000 == gva / 0x1000;
  }

  lemma TlbSetKeeps(s: State, freed: set<nat>, gva: nat)
    requires Inv(s) && TlbOk(s, freed) && gva != 0 && Uncached(s, gva) != 0
    ensures TlbOk(s.(tlb := TlbSet(s.tlb, gva, Uncached(s, gva))), freed)
  {
    var s' := s.(tlb := TlbSet(s.tlb, gva, Uncached(s, gva)));
    UncachedIsPage(s, gva);
    VpnOfPage(gva);
    forall h: nat | h < 4096 ensures SlotOk(s', freed, h) {
      assert SlotOk(s, freed, h);
      assert HostPage(s', Vpn(s'.tlb[h].key)) == HostPage(s, Vpn(s'.tlb[h].key));
    }
  }

  lemma PagesIgnoreTlb(s: State, tlb: seq<TlbSlot>)
    ensures Pages(s.(tlb := tlb)) == Pages(s)
  {
  }

  /** A lookup keeps the cache in order, and address 0 is null. */
  lemma LookupKeeps(s: State, freed: set<nat>, gva: nat)
    requires Inv(s) && TlbOk(s, freed)
    ensures var s' := GetHostP(s, gva).s;
            && Inv(s') && TlbOk(s', freed) && Pages(s') == Pages(s) && s'.pt == s.pt && s'.ct == s.ct
            && (gva == 0 ==> s' == s && GetHostP(s, gva).host == 0)
  {
    var s' := GetHostP(s, gva).s;
    if s' != s {
      TlbSetKeeps(s, freed, gva);
      PagesIgnoreTlb(s, s'.tlb);
    }
  }
}
