/** RegionManager as the object it is, each method proved against the allocator on values. */
module RegionManagers {
  import opened PageArith
  import C = Chunks
  import P = Pager
  import A = Allocator
  import opened PagerX86

  class RegionManager {
    var regions: seq<A.Region>
    var used: seq<nat>
    var freelists: seq<seq<nat>>
    const pager: PagerX86_64

    ghost function View(): A.Alloc reads this, pager { A.Alloc(regions, used, freelists, pager.chunks) }

    /** The region of the page-table pool: the first one, at the start of chunk 0. */
    ghost predicate PoolInUse() reads this, pager {
      && 0 < |regions| && |pager.chunks| > 0 && pager.pml4 == 0 && pager.chunks[0].gpa == 0
      && exists p: nat :: p in used && p < |regions| && IsPool(regions[p], pager.chunks[0])
    }

    static predicate IsPool(r: A.Region, c: C.Chunk) { r.host == c.host && r.size == P.POOL_SIZE }

    ghost predicate Valid() reads this, pager, pager.tlb {
      A.Inv(View()) && pager.Valid() && PoolInUse()
    }

    /** The manager starts with one chunk whose first 16 MiB are the page-table pool. */
    constructor (host: nat)
      requires C.FreshRange([], host, 0x800_0000)
      ensures Valid() && fresh(pager) && fresh(pager.tlb) && pager.Pages() == map[] && |pager.tables| == 1
      ensures P.FreshTlb(pager.tlb[..])
      ensures pager.chunks == [C.Chunk(host, 0, 0x800_0000, 0)]
      ensures |used| == 1 && used[0] < |regions| && regions[used[0]] == A.Region(host, 0, 0x100_0000, false)
    {
      regions, used, freelists := [], [], seq(A.N_FREELISTS, k => []);
      pager := new PagerX86_64();
      new;
      Boot(host);
    }

    /** The first allocation and set_pml4. */
    method Boot(host: nat)
      requires A.Start(View()) && pager.Booting() && pager.freeSlots == [] && pager.totalMemsz == 0
      requires C.FreshRange([], host, 0x800_0000)
      modifies this, pager
      ensures Valid() && pager.Pages() == map[] && |pager.tables| == 1 && P.FreshTlb(pager.tlb[..])
      ensures pager.chunks == [C.Chunk(host, 0, 0x800_0000, 0)]
      ensures |used| == 1 && used[0] < |regions| && regions[used[0]] == A.Region(host, 0, 0x100_0000, false)
    {
      hide P.Inv, P.Pages, A.Inv, A.Start, A.Allocate, A.FindList;
      ghost var c := C.Chunk(host, 0, A.MEMGROW, 0);
      A.StartInv(View());
      ghost var s := View();
      BootAllocation(s, c);
      var h, c' := AllocateRegion(P.POOL_SIZE, host);
      assert c' == c && pager.chunks == [c];
      var _ := pager.SetPml4(regions[h].host);
      assert IsPool(regions[h], pager.chunks[0]);
    }

    lemma BootAllocation(s: A.Alloc, c: C.Chunk)
      requires A.Start(s) && C.FreshRange([], c.host, A.MEMGROW) && c.size == A.MEMGROW
      ensures s.chunks == [] && |s.freelists| == A.N_FREELISTS && A.GrowSize(P.POOL_SIZE) == A.MEMGROW
      ensures A.FindList(s, P.POOL_SIZE) == A.N_FREELISTS && A.FindList(A.AddChunk(s, c), P.POOL_SIZE) < A.N_FREELISTS
      ensures var r := A.Allocate(s, P.POOL_SIZE, c);
              r.h < |r.s.regions| && r.s.regions[r.h] == A.Region(c.host, 0, 0x100_0000, false) && r.s.used == [r.h]
    {
      A.FirstAllocation(s, P.POOL_SIZE, c);
    }

    // ----- searching

    /** The find_if over one free list. */
    method FindFit(l: seq<nat>, size: nat) returns (p: int)
      requires forall h | h in l :: h < |regions|
      ensures p == A.FirstFit(regions, l, size)
    {
      var i := 0;
      while i < |l|
        invariant 0 <= i <= |l|
        invariant A.FirstFit(regions, l, size) ==
                  if A.FirstFit(regions, l[i..], size) < 0 then -1 else i + A.FirstFit(regions, l[i..], size)
      {
        assert l[i] in l && l[i..][1..] == l[i + 1..];
        if regions[l[i]].size >= size {
          return i;
        }
        i := i + 1;
      }
      p := -1;
    }

    /** find_free_region */
    method FindFreeRegion(size: nat) returns (found: bool, h: nat)
      requires A.Inv(View())
      modifies this`freelists
      ensures found <==> A.FindList(old(View()), size) < A.N_FREELISTS
      ensures !found ==> View() == old(View())
      ensures found ==> View() == A.TakeFound(old(View()), size) && h == A.FoundRegion(old(View()), size)
    {
      hide A.Inv, A.FirstFit, A.FreelistIdx;
      A.ListCount(View());
      ListedInBounds(View());
      var k := A.FreelistIdx(size);
      while k < |freelists|
        invariant freelists == old(freelists)
        invariant A.FreelistIdx(size) <= k <= A.N_FREELISTS
        invariant A.FindList(View(), size) == A.FirstList(View(), k, size)
      {
        var p := FindFit(freelists[k], size);
        if p >= 0 {
          found, h := true, freelists[k][p];
          freelists := freelists[k := freelists[k][..p] + freelists[k][p + 1..]];
          return;
        }
        k := k + 1;
      }
      found, h := false, 0;
    }

    static lemma ListedInBounds(a: A.Alloc)
      requires A.Inv(a)
      ensures forall k, g | 0 <= k < |a.freelists| && g in a.freelists[k] :: g < |a.regions|
    {
      forall k: nat, g | k < |a.freelists| && g in a.freelists[k] ensures g < |a.regions| {
        assert A.FreeOk(a, {}, k, g);
      }
    }

    // ----- allocating and freeing

    /** add_free_region */
    method AddFreeRegion(h: nat)
      requires h < |regions| && |freelists| == A.N_FREELISTS
      modifies this`freelists
      ensures View() == A.AddFree(old(View()), h)
    {
      var k := A.FreelistIdx(regions[h].size);
      freelists := freelists[k := freelists[k] + [h]];
    }

    /** use_region */
    method UseRegion(h: nat)
      requires h < |regions| && regions[h].free
      modifies this`regions, this`used
      ensures View() == A.Use(old(View()), h)
    {
      regions := regions[h := regions[h].(free := false)];
      used := used + [h];
    }

    /** Region::slice_begin on the record of h. */
    method SliceBegin(h: nat, size: nat) returns (n: nat)
      requires h < |regions| && size > 0 && PagesizeAlign(size) < regions[h].size
      modifies this`regions
      ensures n == old(|regions|) && View() == A.SliceBegin(old(View()), h, size)
    {
      var r, k := regions[h], PagesizeAlign(size);
      n := |regions|;
      regions := regions + [A.Region(r.host, 0, k, true)];
      r := r.(host := r.host + k, size := r.size - k);
      if r.addr != 0 {
        r := r.(addr := r.addr + k);
      }
      regions := regions[h := r];
    }

    /** Region::slice_center on the record of h. */
    method SliceCenter(h: nat, off: nat, len: nat) returns (tail: nat, hole: nat)
      requires h < |regions| && 0 < off && off + len < regions[h].size
      modifies this`regions
      ensures tail == old(|regions|) && hole == tail + 1 && View() == A.SliceCenter(old(View()), h, off, len)
    {
      var r := regions[h];
      tail := |regions|;
      regions := regions + [A.Region(r.host + off + len, 0, r.size - off - len, true)];
      regions := regions[tail := regions[tail].(addr := r.addr + off)];
      regions := regions[h := r.(size := off)];
      hole := |regions|;
      regions := regions + [A.Region(r.host + off, 0, len, true)];
    }

    /** free_region */
    method FreeRegion(h: nat)
      requires A.Inv(View()) && h in used
      modifies this`regions, this`used, this`freelists
      ensures View() == (A.FreeRegionKeeps(old(View()), h); A.FreeRegion(old(View()), h)) && A.Inv(View())
    {
      A.FreeRegionKeeps(View(), h);
      var p := 0;
      while used[p] != h
        invariant 0 <= p < |used| && h !in used[..p] && p <= A.IndexOf(used, h)
        decreases |used| - p
      {
        p := p + 1;
      }
      used := used[..p] + used[p + 1..];
      regions := regions[h := regions[h].(free := true, addr := 0)];
      AddFreeRegion(h);
    }

    /** allocate_region, given the range that posix_memalign returns if a chunk is needed. */
    method AllocateRegion(size: nat, host: nat) returns (h: nat, ghost c: C.Chunk)
      requires A.Inv(View()) && size > 0 && (pager.Booting() || pager.Valid())
      requires A.FindList(View(), size) == A.N_FREELISTS ==> C.FreshRange(pager.chunks, host, A.GrowSize(size))
      modifies this, pager
      ensures A.FindList(old(View()), size) == A.N_FREELISTS ==>
                c.host == host && c.size == A.GrowSize(size)
                && pager.Ct() == C.AllocChunk(old(pager.Ct()), host, c.size)
                && c == pager.chunks[|pager.chunks| - 1] && A.FindList(A.AddChunk(old(View()), c), size) < A.N_FREELISTS
      ensures A.FindList(old(View()), size) < A.N_FREELISTS ==> pager.Ct() == old(pager.Ct())
      ensures View() == A.Allocate(old(View()), size, c).s && h == A.Allocate(old(View()), size, c).h
      ensures A.Serves(old(View()), size, A.Allocated(View(), h))
      ensures pager.tables == old(pager.tables) && pager.pml4 == old(pager.pml4)
      ensures old(pager.Booting()) ==> pager.Booting()
      ensures old(pager.Valid()) ==> pager.Valid() && pager.Pages() == old(pager.Pages())
    {
      hide P.Inv, P.Pages, A.FindList, A.FoundRegion, A.Inv, A.UseFront, C.Inv, A.TakeFound, A.AddChunk, A.GrowSize,
           A.Serves;
      A.ListCount(View());
      ghost var s := View();
      c := C.Chunk(host, pager.totalMemsz, A.GrowSize(size), 0);
      var found;
      found, h := FindFreeRegion(size);
      if !found {
        c := AddChunk(size, host);
        A.ChunkServes(s, size, c);
        found, h := FindFreeRegion(size);
        FoundOk(A.AddChunk(s, c), size);
      } else {
        FoundOk(s, size);
      }
      A.AllocateKeeps(s, size, c);
      h := UseFront(h, size);
    }

    /** allocate_region on a running manager: the new region is in use and is not the pool. */
    method Allocate(size: nat, host: nat) returns (h: nat, ghost c: C.Chunk)
      requires Valid() && size > 0
      requires A.FindList(View(), size) == A.N_FREELISTS ==> C.FreshRange(pager.chunks, host, A.GrowSize(size))
      modifies this, pager
      ensures Valid() && A.Serves(old(View()), size, A.Allocated(View(), h)) && h in used && h < |regions|
      ensures !IsPool(regions[h], pager.chunks[0]) && pager.chunks[0] == old(pager.chunks[0])
      ensures A.Grants(old(View()), size, c, A.Allocated(View(), h))
      ensures A.FindList(old(View()), size) == A.N_FREELISTS ==> c.host == host
      ensures pager.Pt() == old(pager.Pt()) && pager.Pages() == old(pager.Pages())
    {
      hide P.Inv, P.Pages, A.FindList, A.Listed, A.Partition, A.Allocate, C.AllocChunk;
      A.ListCount(View());
      ghost var s := View();
      ghost var p: nat :| p in used && p < |regions| && IsPool(regions[p], pager.chunks[0]);
      h, c := AllocateRegion(size, host);
      ChunksStay(old(pager.Ct()), host, c.size);
      PoolStays(s, View(), h, size, p, pager.chunks[0]);
    }

    static lemma ChunksStay(ct: C.ChunkTable, host: nat, size: nat)
      requires |ct.chunks| > 0
      ensures |C.AllocChunk(ct, host, size).chunks| > 0 && C.AllocChunk(ct, host, size).chunks[0] == ct.chunks[0]
    {
    }

    static lemma PoolStays(s: A.Alloc, s': A.Alloc, h: nat, size: nat, p: nat, c: C.Chunk)
      requires A.Inv(s) && A.Serves(s, size, A.Allocated(s', h)) && p in s.used && p < |s.regions|
      requires IsPool(s.regions[p], c)
      ensures p in s'.used && p < |s'.regions| && IsPool(s'.regions[p], c) && !IsPool(s'.regions[h], c)
    {
      assert A.WellFormed(s'.regions[h]);
      assert if p < h then A.Apart(s'.regions[p], s'.regions[h]) else A.Apart(s'.regions[h], s'.regions[p]);
    }

    /** Region::set_guest_addr on a region in use. */
    method SetGuestAddr(h: nat, addr: nat)
      requires Valid() && h in used && h < |regions|
      modifies this`regions
      ensures Valid() && View() == A.SetAddr(old(View()), h, addr)
    {
      hide P.Inv, A.Inv;
      ghost var p: nat :| p in used && p < |regions| && IsPool(regions[p], pager.chunks[0]);
      A.SetAddrKeeps(View(), h, addr);
      regions := regions[h := regions[h].(addr := addr)];
      assert IsPool(regions[p], pager.chunks[0]);
    }

    /** Cutting the front off a region in use and giving it to the free lists. */
    method CutFront(h: nat, len: nat)
      requires Valid() && h in used && h < |regions| && !IsPool(regions[h], pager.chunks[0])
      requires len > 0 && PagesizeAlign(len) < regions[h].size
      modifies this`regions, this`freelists
      ensures |old(View()).freelists| == A.N_FREELISTS && Valid() && View() == A.CutFront(old(View()), h, len)
    {
      hide P.Inv, A.Inv, A.AddFree;
      A.ListCount(View());
      ghost var p: nat :| p in used && p < |regions| && IsPool(regions[p], pager.chunks[0]);
      A.CutFrontKeeps(View(), h, len);
      var n := SliceBegin(h, len);
      AddFreeRegion(n);
      CutFrontRegions(old(View()), h, len, p);
    }

    static lemma CutFrontRegions(a: A.Alloc, h: nat, len: nat, p: nat)
      requires h < |a.regions| && PagesizeAlign(len) <= a.regions[h].size && |a.freelists| == A.N_FREELISTS
               && p < |a.regions| && p != h
      ensures A.CutFront(a, h, len).regions[p] == a.regions[p]
    {
    }

    static lemma RegionAligned(a: A.Alloc, h: nat)
      requires A.Inv(a) && h < |a.regions|
      ensures A.WellFormed(a.regions[h])
    {
    }

    static lemma RegionsApart(a: A.Alloc, h: nat, p: nat)
      requires A.Inv(a) && h < |a.regions| && p < |a.regions| && h != p
      ensures A.Apart(a.regions[h], a.regions[p]) && A.WellFormed(a.regions[p])
    {
      assert h < p ==> A.Apart(a.regions[h], a.regions[p]);
      assert p < h ==> A.Apart(a.regions[p], a.regions[h]);
    }

    /** slice_region: cutting a hole into a region in use. */
    method CutMiddle(h: nat, off: nat, len: nat) returns (tail: nat)
      requires Valid() && h in used && h < |regions| && !IsPool(regions[h], pager.chunks[0])
      requires 0 < off && 0 < len && off % 0x1000 == 0 && len % 0x1000 == 0 && off + len < regions[h].size
      modifies this`regions, this`used, this`freelists
      ensures |old(View()).freelists| == A.N_FREELISTS && Valid() && View() == A.CutMiddle(old(View()), h, off, len)
      ensures tail == old(|regions|) && tail in used && tail < |regions| && !IsPool(regions[tail], pager.chunks[0])
      ensures regions[tail].size == old(regions[h].size) - off - len
      ensures regions[tail].host == old(regions[h].host) + off + len
    {
      hide P.Inv, A.Inv;
      A.ListCount(View());
      ghost var p: nat :| p in used && p < |regions| && IsPool(regions[p], pager.chunks[0]);
      A.CutMiddleKeeps(View(), h, off, len);
      RegionsApart(View(), h, p);
      var hole;
      tail, hole := SliceCenter(h, off, len);
      UseRegion(tail);
      AddFreeRegion(hole);
      assert IsPool(regions[p], pager.chunks[0]);
    }

    /** allocate_region behind the search. */
    method UseFront(h: nat, size: nat) returns (r: nat)
      requires h < |regions| && |freelists| == A.N_FREELISTS && regions[h].free && size > 0
      modifies this`regions, this`used, this`freelists
      ensures View() == A.UseFront(old(View()), h, size).s && r == A.UseFront(old(View()), h, size).h
    {
      r := h;
      if regions[h].size > PagesizeAlign(size) {
        r := SliceBegin(h, size);
        AddFreeRegion(h);
      }
      UseRegion(r);
    }

    lemma FoundOk(s: A.Alloc, size: nat)
      requires A.Inv(s) && A.FindList(s, size) < A.N_FREELISTS
      ensures var h, s1 := A.FoundRegion(s, size), A.TakeFound(s, size);
              h < |s1.regions| && s1.regions[h].free && |s1.freelists| == A.N_FREELISTS
    {
      A.FindFreeComplete(s, size);
    }

    /** add_chunk */
    method AddChunk(size: nat, host: nat) returns (ghost c: C.Chunk)
      requires A.Inv(View()) && (pager.Booting() || pager.Valid())
      requires C.FreshRange(pager.chunks, host, A.GrowSize(size))
      modifies this`regions, this`freelists, pager
      ensures c.host == host && c.size == A.GrowSize(size) && pager.Ct() == C.AllocChunk(old(pager.Ct()), host, c.size)
      ensures c == pager.chunks[|pager.chunks| - 1] && View() == A.AddChunk(old(View()), c)
      ensures pager.tables == old(pager.tables) && pager.pml4 == old(pager.pml4)
      ensures old(pager.Booting()) ==> pager.Booting()
      ensures old(pager.Valid()) ==> pager.Valid() && pager.Pages() == old(pager.Pages())
    {
      hide P.Inv, P.Pages, A.Inv, C.Inv;
      A.ListCount(View());
      var grow := if size > A.MEMGROW then PagesizeAlign(size) else A.MEMGROW;
      var err := pager.CreateMemChunk(host, grow);
      c := pager.chunks[|pager.chunks| - 1];
      regions := regions + [A.Region(host, 0, grow, true)];
      AddFreeRegion(|regions| - 1);
    }

    /** find_region by host address: the first region in use that holds it. */
    method FindRegion(host: nat) returns (found: bool, h: nat)
      requires forall g | g in used :: g < |regions|
      ensures found ==> h in used && A.Holds(regions[h], host)
      ensures !found ==> forall g | g in used :: !A.Holds(regions[g], host)
    {
      var i := 0;
      while i < |used|
        invariant 0 <= i <= |used|
        invariant forall j | 0 <= j < i :: used[j] < |regions| && !A.Holds(regions[used[j]], host)
      {
        assert used[i] in used;
        if A.Holds(regions[used[i]], host) {
          return true, used[i];
        }
        i := i + 1;
      }
      found, h := false, 0;
    }

    // ----- what the pager may assume of a region

    /** A region in use other than the pool lies in one chunk, clear of the pool. */
    lemma RegionPlace(h: nat) returns (k: nat)
      requires Valid() && h in used && h < |regions| && !IsPool(regions[h], pager.chunks[0])
      ensures k < |pager.chunks| && A.InChunk(pager.chunks[k], regions[h])
      ensures regions[h].host + regions[h].size <= pager.chunks[0].host
              || regions[h].host >= pager.chunks[0].host + P.POOL_SIZE
    {
      var p: nat :| p in used && p < |regions| && IsPool(regions[p], pager.chunks[0]);
      k :| k < |pager.chunks| && A.InChunk(pager.chunks[k], regions[h]);
      assert if p < h then A.Apart(regions[p], regions[h]) else A.Apart(regions[h], regions[p]);
    }

    /** Every page of such a region can be mapped: it has a guest-physical address other than 0
        and is outside the pool. */
    lemma RegionMappable(h: nat, pages: nat)
      requires Valid() && h in used && h < |regions| && !IsPool(regions[h], pager.chunks[0])
      requires 0x1000 * pages <= regions[h].size
      ensures pager.Mappable(regions[h].host, pages)
    {
      hide A.Inv, P.Inv, C.HostToGuest;
      ChunkFacts();
      var k := RegionPlace(h);
      forall i: nat | i < pages
        ensures pager.OutsidePool(regions[h].host + 0x1000 * i)
        ensures C.HostToGuest(pager.chunks, regions[h].host + 0x1000 * i) != 0
      {
        PlaceMapped(k, regions[h], i);
      }
    }

    lemma ChunkFacts()
      requires Valid()
      ensures C.ChunksOk(pager.chunks, pager.totalMemsz) && |pager.chunks| > 0 && pager.chunks[0].gpa == 0
      ensures pager.pml4 == 0
    {
    }

    lemma PlaceMapped(k: nat, r: A.Region, i: nat)
      requires C.ChunksOk(pager.chunks, pager.totalMemsz) && k < |pager.chunks| && A.InChunk(pager.chunks[k], r)
      requires pager.chunks[0].gpa == 0 && pager.pml4 == 0 && 0x1000 * i < r.size
      requires r.host + r.size <= pager.chunks[0].host || r.host >= pager.chunks[0].host + P.POOL_SIZE
      ensures pager.OutsidePool(r.host + 0x1000 * i) && C.HostToGuest(pager.chunks, r.host + 0x1000 * i) != 0
    {
      var p := r.host + 0x1000 * i;
      C.HostUnique(pager.chunks, pager.totalMemsz, p, k);
      assert C.WellFormed(pager.chunks[0]);
      assert k > 0 ==> pager.chunks[0].gpa + pager.chunks[0].size <= pager.chunks[k].gpa;
    }
  }
}
