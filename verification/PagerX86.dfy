/** The pager as the object it is: fields updated in place by methods with loops, each proved
    to do what the functions of the modules PageTables, Chunks, KernelPages and Pager say. */
module PagerX86 {
  import opened PageArith
  import opened PageEntry
  import C = Chunks
  import T = PageTables
  import K = KernelPages
  import P = Pager
  import R = PagerRanges

  class PagerX86_64 {
    /** chunks, free_slots, total_memsz */
    var chunks: seq<C.Chunk>
    var freeSlots: seq<nat>
    var totalMemsz: nat
    /** Guest-physical address of host_pml4_p. */
    var pml4: nat
    /** The pool pages in use; host_next_free_tbl_p is the page after the last one. */
    var tables: seq<T.Table>
    /** The static TLB of get_host_p. */
    const tlb: array<P.TlbSlot>

    ghost function Ct(): C.ChunkTable reads this { C.ChunkTable(chunks, freeSlots, totalMemsz) }

    ghost function Pt(): T.PT reads this { T.PT(pml4, tables) }

    ghost function S(): P.State reads this, tlb { P.State(Ct(), Pt(), tlb[..]) }

    ghost function Pages(): P.PageMap reads this, tlb { P.Pages(S()) }

    /** The state before set_pml4: chunks only. */
    ghost predicate Booting() reads this, tlb {
      tables == [] && C.Inv(Ct()) && tlb.Length == 4096 && P.FreshTlb(tlb[..])
    }

    ghost predicate Valid() reads this, tlb {
      P.Inv(S()) && 0 < |tables| <= P.POOL_TABLES
    }

    constructor ()
      ensures Booting() && chunks == [] && freeSlots == [] && totalMemsz == 0 && fresh(tlb)
    {
      chunks, freeSlots, totalMemsz, pml4, tables := [], [], 0, 0, [];
      tlb := new P.TlbSlot[4096](i => P.TlbSlot(0, 0));
    }

    // ----- chunks

    /** create_mem_chunk, given the range that posix_memalign returned. */
    method CreateMemChunk(host: nat, size: nat) returns (err: int)
      requires Booting() || Valid()
      requires size % 0x1000 == 0 ==> C.FreshRange(chunks, host, size)
      modifies this
      ensures size % 0x1000 != 0 ==> err == -5 && unchanged(this)
      ensures size % 0x1000 == 0 ==> err == 0 && Ct() == C.AllocChunk(old(Ct()), host, size)
      ensures tables == old(tables) && pml4 == old(pml4)
      ensures old(Booting()) ==> Booting()
      ensures old(Valid()) ==> Valid() && Pages() == old(Pages())
    {
      if size % 0x1000 != 0 {
        return -P.EIO;
      }
      C.AllocKeeps(Ct(), host, size);
      if tables != [] {
        P.AddChunkRefines(S(), host, size);
      }
      var slot := |chunks|;
      if freeSlots != [] {
        slot := freeSlots[|freeSlots| - 1];
        freeSlots := freeSlots[..|freeSlots| - 1];
      }
      chunks := chunks + [C.Chunk(host, totalMemsz, size, slot)];
      totalMemsz := totalMemsz + size;
      err := 0;
      assert Ct() == C.AllocChunk(old(Ct()), host, size);
      assert S() == P.AddChunk(old(S()), host, size);
    }

    /** host_to_guest_physical: the loop of find_chunk_for_host_p. */
    method HostToGuestPhysical(host: nat) returns (g: nat)
      ensures g == C.HostToGuest(chunks, host)
    {
      var k := 0;
      while k < |chunks|
        invariant 0 <= k <= |chunks|
        invariant forall j | 0 <= j < k :: !C.ContainsHost(chunks[j], host)
      {
        if C.ContainsHost(chunks[k], host) {
          return host - chunks[k].host + chunks[k].gpa;
        }
        k := k + 1;
      }
      g := 0;
    }

    /** set_pml4 and create_page_tables, for a region that lies in chunk 0. */
    method SetPml4(host: nat) returns (g: nat)
      requires Booting() && |chunks| > 0 && chunks[0].gpa == 0
      requires host % 0x1000 == 0 && chunks[0].host <= host && host + P.POOL_SIZE <= chunks[0].host + chunks[0].size
      modifies this
      ensures Valid() && Pages() == map[] && Ct() == old(Ct())
      ensures g == pml4 == host - chunks[0].host && tables == [T.EmptyTable()]
    {
      C.HostUnique(chunks, totalMemsz, host, 0);
      g := HostToGuestPhysical(host);
      pml4 := g;
      tables := [T.EmptyTable()];
      assert Pt() == T.EmptyTables(pml4);
      T.EmptyTablesInv(pml4);
    }

    // ----- walks

    /** find_table_entry for the level that a walk has reached. */
    method TableIndex(gva: nat, level: nat) returns (i: nat)
      requires level <= 3
      ensures i == Digit(Vpn(gva), level) < 512
    {
      WalkIndexIsDigit(gva, level);
      i := ShiftIndex(gva, 12 + 9 * level, 20 + 9 * level);
    }

    /** page_table_walk: the slot of the page table entry, when the page is present. */
    method PageTableWalk(gva: nat) returns (found: bool, t: nat, i: nat)
      requires Valid() && gva != 0
      ensures found <==> T.Leaf(Pt(), Vpn(gva)).present
      ensures found ==> t == T.TableOf(Pt(), Vpn(gva), 0) && i == Digit(Vpn(gva), 0)
      ensures found ==> t < |tables| && i < |tables[t]|
    {
      hide Vpn, Digit, P.Inv, T.Inv;
      TreeOf(S());
      ghost var v := Vpn(gva);
      t := 0;
      var level := 3;
      T.PathInPool(Pt(), v, 3);
      while level > 0
        invariant 0 <= level <= 3 && t < |tables| && t == T.TableOf(Pt(), v, level)
      {
        T.PathInPool(Pt(), v, level - 1);
        i := TableIndex(gva, level);
        if !tables[t][i].present {
          T.PathEnds(Pt(), v, level - 1);
          return false, t, i;
        }
        T.PathGoesOn(Pt(), v, level - 1);
        t := (tables[t][i].addr - pml4) / 0x1000;
        level := level - 1;
      }
      i := TableIndex(gva, 0);
      found := tables[t][i].present;
    }

    /** create_table and update_entry on slot i of table t. */
    method UpdateEntry(t: nat, i: nat, opts: Opts)
      requires t < |tables| && i < |tables[t]|
      modifies this`tables
      ensures Pt() == T.UpdateEntry(old(Pt()), t, i, opts)
    {
      if !tables[t][i].present {
        var next := pml4 + 0x1000 * |tables|;
        tables := tables + [T.EmptyTable()];
        tables := tables[t := tables[t][i := CreateEntry(next, opts)]];
      }
      var e := tables[t][i];
      if opts.write {
        e := e.(writeable := true);
      }
      if opts.exec {
        e := e.(noexec := false);
      }
      tables := tables[t := tables[t][i := e]];
    }

    /** page_table_walk_create. The pool has no check for its end, so the caller sees to it
        that the tables this walk needs fit. */
    method PageTableWalkCreate(gva: nat, opts: Opts) returns (t: nat, i: nat)
      requires Valid() && gva != 0
      requires |T.WalkCreate(Pt(), Vpn(gva), opts, 0).tables| <= P.POOL_TABLES
      modifies this`tables
      ensures Pt() == T.WalkCreate(old(Pt()), Vpn(gva), opts, 0) && Valid()
      ensures t == T.TableOf(Pt(), Vpn(gva), 0) < |tables| && i == Digit(Vpn(gva), 0) < |tables[t]|
      ensures Pages() == old(Pages())
    {
      hide Vpn, Digit, P.Inv, P.Pages, T.Inv, T.UpdateEntry;
      TreeOf(S());
      ghost var v, pt := Vpn(gva), Pt();
      t := 0;
      var level := 3;
      T.PathInPool(pt, v, 3);
      while level > 0
        invariant 0 <= level <= 3 && Pt() == T.WalkCreate(pt, v, opts, level)
        invariant t == T.TableOf(Pt(), v, level) && t < |tables|
        invariant forall k | 0 <= k < |tables| :: |tables[k]| == 512
      {
        ghost var s1, s', _, t' := T.WalkNext(pt, v, opts, level);
        i := TableIndex(gva, level);
        UpdateEntry(t, i, opts);
        t := T.NextTable(T.PT(pml4, tables), tables[t][i]);
        level := level - 1;
      }
      i := TableIndex(gva, 0);
      WalkedPages(old(S()), v, opts);
    }

    static lemma TreeOf(s: P.State)
      requires P.Inv(s)
      ensures T.Inv(s.pt)
    {
    }

    lemma WalkedPages(s: P.State, v: nat, opts: Opts)
      requires P.Inv(s)
      ensures var s' := s.(pt := T.WalkCreate(s.pt, v, opts, 0));
              P.Inv(s') && P.Pages(s') == P.Pages(s) && 0 < |s'.pt.tables|
    {
      T.WalkCreateRefines(s.pt, v, opts);
      P.ExtendsKeepsPages(s, T.WalkCreate(s.pt, v, opts, 0));
      T.PathInPool(s.pt, v, 0);
    }

    // ----- pages

    /** The table pool and what is outside it. */
    ghost predicate OutsidePool(host: nat) reads this {
      |chunks| > 0 && (host < chunks[0].host + pml4 || host >= chunks[0].host + pml4 + P.POOL_SIZE)
    }

    /** map_user_page: exactly the step of the value model. */
    method MapUserPage(host: nat, gva: nat, opts: Opts) returns (err: int)
      requires Valid() && gva != 0 && OutsidePool(host)
      requires host % 0x1000 == gva % 0x1000 ==> C.HostToGuest(chunks, host) != 0
      requires |P.MapUserPage(S(), host, gva, opts).s.pt.tables| <= P.POOL_TABLES
      modifies this`tables
      ensures S() == P.MapUserPage(old(S()), host, gva, opts).s
      ensures err == P.MapUserPage(old(S()), host, gva, opts).err
    {
      hide Vpn, Digit, P.Inv, P.Pages, T.WalkCreate, T.TableOf;
      if host % 0x1000 != gva % 0x1000 {
        return -P.EIO;
      }
      var g := HostToGuestPhysical(host);
      MapTables(Pt(), Vpn(gva), g, opts);
      var t, i := PageTableWalkCreate(gva, opts);
      if tables[t][i].present && tables[t][i].addr != PageBegin(g) {
        return -1;
      }
      tables := tables[t := tables[t][i := CreateEntry(g, opts)]];
      err := 0;
    }

    /** map_user_page takes pool pages in its walk only. */
    lemma MapTables(pt: T.PT, v: nat, frame: nat, opts: Opts)
      ensures |T.MapPage(pt, v, frame, opts).pt.tables| == |T.WalkCreate(pt, v, opts, 0).tables|
    {
    }

    /** free_page: exactly the step of the value model; the cache is not told. */
    method FreePage(gva: nat) returns (err: int)
      requires Valid() && gva != 0
      modifies this`tables
      ensures S() == P.FreePage(old(S()), gva).s && err == P.FreePage(old(S()), gva).err
    {
      var found, t, i := PageTableWalk(gva);
      if !found {
        return -1;
      }
      tables := tables[t := tables[t][i := EMPTY]];
      err := 0;
    }

    /** The slow path of get_host_p: walk and chunk lookup; 0 is NULL. */
    method LookUpUncached(gva: nat) returns (host: nat)
      requires Valid() && gva != 0
      ensures host == P.Uncached(S(), gva)
    {
      hide P.Inv, Vpn, Digit, T.TableOf;
      var found, t, i := PageTableWalk(gva);
      if !found {
        return 0;
      }
      var g := tables[t][i].addr + gva % 0x1000;
      var k := 0;
      while k < |chunks|
        invariant 0 <= k <= |chunks|
        invariant forall j | 0 <= j < k :: !C.ContainsPhys(chunks[j], g)
      {
        if C.ContainsPhys(chunks[k], g) {
          return g - chunks[k].gpa + chunks[k].host;
        }
        k := k + 1;
      }
      host := 0;
    }

    /** get_host_p: exactly the step of the value model. */
    method GetHostP(gva: nat) returns (host: nat)
      requires Valid()
      modifies tlb
      ensures Valid() && S() == P.GetHostP(old(S()), gva).s && host == P.GetHostP(old(S()), gva).host
      ensures Pages() == old(Pages())
    {
      if gva == 0 {
        return 0;
      }
      var slot := tlb[P.Hash(gva)];
      if slot.key == PageBegin(gva) && slot.value + gva % 0x1000 != 0 {
        return slot.value + gva % 0x1000;
      }
      host := LookUpUncached(gva);
      if host != 0 {
        tlb[P.Hash(gva)] := P.TlbSlot(PageBegin(gva), PageBegin(host));
        P.PagesIgnoreTlb(old(S()), tlb[..]);
      }
    }

    // ----- ranges

    /** Pool pages in use and to come if pages of these blocks are mapped. */
    ghost function Need(blocks: set<nat>): nat reads this { R.Need(Pt(), blocks) }

    /** map_user_page as map_region sees it: on the page map and the pool. */
    method MapNextPage(host: nat, gva: nat, opts: Opts, ghost blocks: set<nat>) returns (err: int)
      requires Valid() && gva != 0 && OutsidePool(host)
      requires host % 0x1000 == gva % 0x1000 && C.HostToGuest(chunks, host) != 0
      requires Vpn(gva) / 512 in blocks && Need(blocks) <= P.POOL_TABLES
      modifies this`tables
      ensures Valid() && Pages() == P.MapOne(old(Pages()), Vpn(gva), P.PageFor(host, opts))
      ensures err == if P.MapOk(old(Pages()), Vpn(gva), PageBegin(host)) then 0 else -1
      ensures Need(blocks) <= old(Need(blocks))
    {
      hide P.Inv, P.Pages, T.TableOf, R.Need, T.Inv, C.HostToGuest, Vpn;
      ghost var pt := Pt();
      TreeOf(S());
      P.MapUserPageRefines(S(), host, gva, opts);
      MapNeeds(S(), host, gva, opts, blocks);
      T.PathInPool(P.MapUserPage(S(), host, gva, opts).s.pt, 0, 3);
      err := MapUserPage(host, gva, opts);
    }

    static lemma MapNeeds(s: P.State, host: nat, gva: nat, opts: Opts, blocks: set<nat>)
      requires P.Inv(s) && host % 0x1000 == gva % 0x1000 && Vpn(gva) / 512 in blocks
      requires R.Need(s.pt, blocks) <= P.POOL_TABLES
      ensures var pt' := P.MapUserPage(s, host, gva, opts).s.pt;
              T.Inv(pt') && |pt'.tables| <= P.POOL_TABLES && R.Need(pt', blocks) <= R.Need(s.pt, blocks)
    {
      hide T.TableOf, R.Need, T.Inv, C.HostToGuest, Vpn;
      VpnBound(gva);
      T.MapPageRefines(s.pt, Vpn(gva), C.HostToGuest(s.ct.chunks, host), opts);
      R.NeedStep(s.pt, P.MapUserPage(s, host, gva, opts).s.pt, Vpn(gva), blocks);
    }

    static lemma VpnBound(gva: nat)
      ensures Vpn(gva) < 0x10_0000_0000
    {
    }

    /** The host pages of a range lie in chunks and outside the pool. */
    ghost predicate Mappable(host: nat, pages: nat) reads this {
      forall i: nat | i < pages :: OutsidePool(host + 0x1000 * i) && C.HostToGuest(chunks, host + 0x1000 * i) != 0
    }

    /** map_region on the page map. It succeeds exactly when no page of the range has another
        host page, and then the range, and nothing else, translates linearly with the given
        rights; on a conflict the pages before it stay mapped. The pool is charged three pages
        for each block without a page table, and not again. */
    method MapRegion(host: nat, gva: nat, pages: nat, opts: Opts, ghost blocks: set<nat>) returns (err: int)
      requires Valid() && gva != 0 && host % 0x1000 == gva % 0x1000 && Vpn(gva) + pages <= 0x10_0000_0000
      requires Mappable(host, pages)
      requires R.Touched(Vpn(gva), pages) <= blocks && Need(blocks) <= P.POOL_TABLES
      modifies this`tables
      ensures Valid() && Need(blocks) <= old(Need(blocks))
      ensures err == 0 || err == -1
      ensures err == 0 <==> R.RangeOk(old(Pages()), Vpn(gva), PageBegin(host), pages)
      ensures err == 0 ==> Pages() == R.Overlay(old(Pages()), Vpn(gva), PageBegin(host), pages, opts)
      ensures err != 0 ==>
                exists k: nat :: k < pages && Pages() == R.Overlay(old(Pages()), Vpn(gva), PageBegin(host), k, opts)
    {
      hide Vpn, PageBegin, P.Inv, P.Pages, R.Overlay, R.Need, R.Touched, T.TableOf, C.HostToGuest;
      ghost var v, h, m := Vpn(gva), PageBegin(host), Pages();
      var p, a, i := host, gva, 0;
      R.OverlayEmpty(m, v, h, opts);
      while i < pages
        invariant 0 <= i <= pages && p == host + 0x1000 * i && a == gva + 0x1000 * i
        invariant Valid() && Pages() == R.Overlay(m, v, h, i, opts)
        invariant R.RangeOk(m, v, h, i)
        invariant Need(blocks) <= old(Need(blocks))
      {
        RangeStep(host, gva, i);
        R.OverlayNext(m, v, h, i, opts);
        R.TouchedHas(v, pages, v + i);
        assert OutsidePool(host + 0x1000 * i);
        err := MapNextPage(p, a, opts, blocks);
        if err != 0 {
          return;
        }
        p, a, i := p + 0x1000, a + 0x1000, i + 1;
      }
      err := 0;
    }

    lemma RangeStep(host: nat, gva: nat, i: nat)
      requires Vpn(gva) + i < 0x10_0000_0000
      ensures Vpn(gva + 0x1000 * i) == Vpn(gva) + i
      ensures PageBegin(host + 0x1000 * i) == PageBegin(host) + 0x1000 * i
      ensures (host + 0x1000 * i) % 0x1000 == host % 0x1000 && (gva + 0x1000 * i) % 0x1000 == gva % 0x1000
    {
      assert (gva + 0x1000 * i) / 0x1000 == gva / 0x1000 + i;
    }

    /** free_page as unmap_region sees it. */
    method FreeNextPage(gva: nat, ghost blocks: set<nat>) returns (err: int)
      requires Valid() && gva != 0
      modifies this`tables
      ensures Valid() && Pages() == old(Pages()) - {Vpn(gva)} && |tables| == old(|tables|)
      ensures err == (if Vpn(gva) in old(Pages()) then 0 else -1) && Need(blocks) <= old(Need(blocks))
    {
      hide P.Inv, P.Pages, R.Need, Vpn;
      P.FreePageRefines(S(), gva);
      FreeNeeds(S(), gva, blocks);
      err := FreePage(gva);
    }

    static lemma FreeNeeds(s: P.State, gva: nat, blocks: set<nat>)
      requires P.Inv(s)
      ensures R.Need(P.FreePage(s, gva).s.pt, blocks) <= R.Need(s.pt, blocks)
    {
      hide T.TableOf, R.Need, T.Inv, Vpn;
      VpnBound(gva);
      T.FreePageRefines(s.pt, Vpn(gva));
      R.NeedStays(s.pt, P.FreePage(s, gva).s.pt, blocks);
    }

    /** unmap_region on the page map. It succeeds exactly when every page of the range is
        present, and then removes exactly the range; otherwise the pages before the first
        absent one are gone. */
    method UnmapRegion(gva: nat, pages: nat, ghost blocks: set<nat>) returns (err: int)
      requires Valid() && gva != 0 && Vpn(gva) + pages <= 0x10_0000_0000
      modifies this`tables
      ensures Valid() && |tables| == old(|tables|) && Need(blocks) <= old(Need(blocks))
      ensures err == 0 || err == -1
      ensures err == 0 <==> R.Range(Vpn(gva), pages) <= old(Pages()).Keys
      ensures err == 0 ==> Pages() == old(Pages()) - R.Range(Vpn(gva), pages)
      ensures err != 0 ==> exists k: nat :: R.FirstAbsent(old(Pages()), Vpn(gva), pages, k)
                                            && Pages() == old(Pages()) - R.Range(Vpn(gva), k)
    {
      hide Vpn, P.Inv, P.Pages, R.Range, R.InRange, R.Need;
      ghost var v, m := Vpn(gva), Pages();
      var a, i := gva, 0;
      R.RangeEmpty(m, v);
      while i < pages
        invariant 0 <= i <= pages && a == gva + 0x1000 * i
        invariant Valid() && |tables| == old(|tables|) && Need(blocks) <= old(Need(blocks))
        invariant Pages() == m - R.Range(v, i) && R.Range(v, i) <= m.Keys
      {
        RangeStep(0, gva, i);
        R.RangeNext(m, v, i);
        err := FreeNextPage(a, blocks);
        if err != 0 {
          R.RangeHas(v, i, pages);
          assert Pages() == m - R.Range(v, i);
          assert R.FirstAbsent(m, v, pages, i);
          return;
        }
        a, i := a + 0x1000, i + 1;
      }
      err := 0;
    }

    // ----- kernel pages

    /** map_kernel_page: exactly the step of the value model. The slot the loop stands on is
        the page table entry of the address it carries, inside a table and across tables. */
    method MapKernelPage(host: nat, opts: Opts) returns (gva: nat)
      requires Valid()
      requires |P.MapKernelPage(S(), host, opts).s.pt.tables| <= P.POOL_TABLES
      modifies this`tables
      ensures S() == P.MapKernelPage(old(S()), host, opts).s && gva == P.MapKernelPage(old(S()), host, opts).gva
      ensures |old(chunks)| > 0 && P.KernelMapped(old(S()), host, opts, S(), gva)
    {
      hide Vpn, Digit, P.Inv, P.Pages, K.Search, T.WalkCreate, T.TableOf, P.KernelAddress, T.Inv, P.KernelMapped;
      var g := HostToGuestPhysical(host);
      ghost var off, pt, v := g % 0x1000, Pt(), K.KERNEL_BOTTOM;
      ghost var first, f := T.WalkCreate(pt, v, opts, 0), K.Search(T.WalkCreate(pt, v, opts, 0), v, opts);
      KernelFits(S(), host, g, opts);
      P.MapKernelPageRefines(S(), host, opts);
      gva := P.KernelAddress(0x8_0000_0000, g % 0x1000);
      P.KernelAddressVpn(v, off);
      var t: nat, i: nat := PageTableWalkCreate(gva, opts);
      while tables[t][i].present
        invariant Valid() && pml4 == pt.base && gva == P.KernelAddress(v, off) && K.KERNEL_BOTTOM <= v < 0x10_0000_0000
        invariant t == T.TableOf(Pt(), v, 0) && i == Digit(v, 0) && t < |tables| && i < |tables[t]|
        invariant K.Search(Pt(), v, opts) == f
        decreases 0x10_0000_0000 - v
      {
        assert T.Leaf(Pt(), v).present;
        TablesAreFull(S());
        P.KernelAddressNext(v, off);
        i, gva := i + 1, gva + 0x1000;
        if i == 512 {
          NextKernelTable(Pt(), v, opts, f);
          gva := gva + 0x10_0000;
          v := v + 257;
          P.KernelAddressVpn(v, off);
          t, i := PageTableWalkCreate(gva, opts);
        } else {
          NextKernelPage(Pt(), v, opts, f);
          v := v + 1;
        }
      }
      K.SearchDone(Pt(), v, opts);
      tables := tables[t := tables[t][i := CreateEntry(g, opts)]];
    }

    /** The walks and the search of map_kernel_page stay in the pool and in the address space. */
    lemma KernelFits(s: P.State, host: nat, g: nat, opts: Opts)
      requires P.Inv(s) && |s.pt.tables| <= P.POOL_TABLES && g == C.HostToGuest(s.ct.chunks, host)
      requires |P.MapKernelPage(s, host, opts).s.pt.tables| <= P.POOL_TABLES
      ensures var first := T.WalkCreate(s.pt, K.KERNEL_BOTTOM, opts, 0);
              var f := K.Search(first, K.KERNEL_BOTTOM, opts);
              |first.tables| <= |f.pt.tables| <= P.POOL_TABLES && f.v < 0x10_0000_0000
    {
      hide T.WalkCreate, T.TableOf, K.Search;
      K.MapKernelRefines(s.pt, g, opts);
      K.SearchAhead(T.WalkCreate(s.pt, K.KERNEL_BOTTOM, opts, 0), K.KERNEL_BOTTOM, opts);
    }

    lemma TablesAreFull(s: P.State)
      requires P.Inv(s)
      ensures forall t | 0 <= t < |s.pt.tables| :: |s.pt.tables[t]| == 512
    {
      T.PathInPool(s.pt, 0, 3);
    }

    lemma NextKernelTable(pt: T.PT, v: nat, opts: Opts, f: K.Found)
      requires T.Leaf(pt, v).present && Digit(v, 0) == 511 && v < 0x10_0000_0000
      requires K.Search(pt, v, opts) == f && f.v < 0x10_0000_0000 && |f.pt.tables| <= P.POOL_TABLES
      ensures v + 257 < 0x10_0000_0000 && |T.WalkCreate(pt, v + 257, opts, 0).tables| <= P.POOL_TABLES
      ensures K.Search(T.WalkCreate(pt, v + 257, opts, 0), v + 257, opts) == f
    {
      hide T.WalkCreate, T.TableOf;
      assert (v + 1) % 512 == 0;
      K.SearchAhead(T.WalkCreate(pt, v + 257, opts, 0), v + 257, opts);
    }

    lemma NextKernelPage(pt: T.PT, v: nat, opts: Opts, f: K.Found)
      requires T.Leaf(pt, v).present && Digit(v, 0) < 511 && v < 0x10_0000_0000
      requires K.Search(pt, v, opts) == f && f.v < 0x10_0000_0000
      ensures v + 1 < 0x10_0000_0000 && K.Search(pt, v + 1, opts) == f
      ensures T.TableOf(pt, v + 1, 0) == T.TableOf(pt, v, 0) && Digit(v + 1, 0) == Digit(v, 0) + 1
    {
      hide T.TableOf;
      assert (v + 1) % 512 != 0;
      K.SearchAhead(pt, v + 1, opts);
      T.SameTable(pt, v);
    }
  }
}
