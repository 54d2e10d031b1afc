/** Where mmap without MAP_FIXED puts a mapping: at the host address of its region. In runs of brk,
    such mmap calls and munmap that address is always free; MAP_FIXED may end this. */
module HostRuns {
  import opened PageArith
  import opened PageEntry
  import C = Chunks
  import P = Pager
  import A = Allocator
  import R = PagerRanges
  import opened Mappings
  import B = BrkRuns
  import M = MmapRuns
  import HR = HeapRuns
  import opened RegionManagers

  /** A region in use holds the host address. */
  ghost predicate Backed(a: A.Alloc, x: nat) {
    exists h: nat :: h in a.used && h < |a.regions| && A.Holds(a.regions[h], x)
  }

  /** A guest page in use whose address is a host address of a chunk lies in a region in use. */
  ghost predicate AtHost(s: Heap) {
    forall p | p in s.m && A.InSomeChunk(s.a.chunks, 0x1000 * p) :: Backed(s.a, 0x1000 * p)
  }

  /** posix_memalign's answer, if the allocator asks for one: a range of its own, at which the guest
      has no pages. */
  ghost predicate NewRange(s: Heap, length: nat, host: nat) {
    |s.a.freelists| == A.N_FREELISTS
    && (A.FindList(s.a, length) == A.N_FREELISTS ==>
          && C.FreshRange(s.a.chunks, host, A.GrowSize(length))
          && forall p | p in s.m :: !(host <= 0x1000 * p < host + A.GrowSize(length)))
  }

  // ----- what an allocation cuts from

  /** The region that an allocation cuts from: a free one, or the new chunk. */
  lemma CutFrom(a: A.Alloc, length: nat, host: nat, r: A.Allocated) returns (q: A.Region)
    requires A.Inv(a) && length > 0 && length % 0x1000 == 0 && A.GrantsAt(a, length, host, r)
    ensures r.h < |r.s.regions| && r.s.regions[r.h].host == q.host && length <= q.size && A.WellFormed(q)
    ensures if A.FindList(a, length) == A.N_FREELISTS then q == A.Region(host, 0, A.GrowSize(length), true)
            else q.free && exists h: nat :: h < |a.regions| && a.regions[h] == q
  {
    hide A.Inv, A.FindList, A.FoundRegion, A.Carve, A.GrowSize;
    var c: C.Chunk :| A.Grants(a, length, c, r) && (A.FindList(a, length) == A.N_FREELISTS ==> c.host == host);
    if A.FindList(a, length) == A.N_FREELISTS {
      A.ChunkServes(a, length, c);
      A.CarveHost(A.AddChunk(a, c), length);
      q := A.Region(host, 0, A.GrowSize(length), true);
      NewChunkFound(a, length, c);
    } else {
      A.CarveHost(a, length);
      q := a.regions[A.FoundRegion(a, length)];
      A.FoundFacts(a, length);
      RegionManager.RegionAligned(a, A.FoundRegion(a, length));
    }
  }

  lemma NewChunkFound(a: A.Alloc, length: nat, c: C.Chunk)
    requires A.Inv(a) && A.FindList(a, length) == A.N_FREELISTS && A.FreshChunk(a, c) && c.size == A.GrowSize(length)
    requires A.FindList(A.AddChunk(a, c), length) < A.N_FREELISTS && A.Inv(A.AddChunk(a, c)) && length > 0
    ensures A.AddChunk(a, c).regions[A.FoundRegion(A.AddChunk(a, c), length)] == A.Region(c.host, 0, c.size, true)
    ensures length <= c.size && A.WellFormed(A.Region(c.host, 0, c.size, true))
  {
    hide A.Inv, A.FindList, A.FoundRegion;
    A.ListCount(a);
    var a' := A.AddChunk(a, c);
    A.FindFreeComplete(a, length);
    A.FindFreeComplete(a', length);
    RegionManager.RegionAligned(a', |a.regions|);
  }

  /** What an allocation leaves of the chunks and of the regions in use. */
  lemma GrantedChunks(a: A.Alloc, length: nat, host: nat, r: A.Allocated)
    requires A.Inv(a) && length > 0 && A.GrantsAt(a, length, host, r)
    ensures A.Serves(a, length, r)
    ensures if A.FindList(a, length) == A.N_FREELISTS
            then |r.s.chunks| == |a.chunks| + 1 && r.s.chunks[..|a.chunks|] == a.chunks
                 && r.s.chunks[|a.chunks|].host == host && r.s.chunks[|a.chunks|].size == A.GrowSize(length)
            else r.s.chunks == a.chunks
  {
    hide A.Inv, A.FindList, A.GrowSize, A.Allocate, A.Serves, A.AddChunk;
    var c: C.Chunk :| A.Grants(a, length, c, r) && (A.FindList(a, length) == A.N_FREELISTS ==> c.host == host);
    A.AllocateKeeps(a, length, c);
  }

  lemma SizeIs(a: A.Alloc, length: nat, r: A.Allocated)
    requires A.Serves(a, length, r) && length % 0x1000 == 0
    ensures r.h < |r.s.regions| && r.s.regions[r.h].size == length && r.s.regions[r.h].host % 0x1000 == 0
  {
    RegionManager.RegionAligned(r.s, r.h);
  }

  lemma FrontHolds(host: nat, length: nat, p: nat)
    requires host % 0x1000 == 0 && length % 0x1000 == 0
    ensures R.InRange(Pg(host), length / 0x1000, p) <==> host <= 0x1000 * p < host + length
  {
    var b, n := host / 0x1000, length / 0x1000;
    assert host == 0x1000 * b && length == 0x1000 * n;
  }

  /** No page in use lies in a free region. */
  lemma FreeRegionClear(s: Heap, h: nat)
    requires A.Inv(s.a) && AtHost(s) && h < |s.a.regions| && s.a.regions[h].free
    ensures forall p | p in s.m :: !A.Holds(s.a.regions[h], 0x1000 * p)
  {
    var r := s.a.regions[h];
    var k: nat :| k < |s.a.chunks| && A.InChunk(s.a.chunks[k], r);
    hide A.Inv;
    forall p | p in s.m ensures !A.Holds(r, 0x1000 * p) {
      if A.Holds(r, 0x1000 * p) {
        assert C.ContainsHost(s.a.chunks[k], 0x1000 * p);
        var g: nat :| g in s.a.used && g < |s.a.regions| && A.Holds(s.a.regions[g], 0x1000 * p);
        A.NotFree(s.a, g);
        RegionManager.RegionsApart(s.a, g, h);
      }
    }
  }

  /** The pages at the host range of a granted region are free. */
  lemma PlaceIsFree(s: Heap, length: nat, host: nat, r: A.Allocated)
    requires A.Inv(s.a) && AtHost(s) && length > 0 && length % 0x1000 == 0
    requires NewRange(s, length, host) && A.GrantsAt(s.a, length, host, r)
    ensures r.h < |r.s.regions| && r.s.regions[r.h].host > 0
    ensures R.Range(Pg(r.s.regions[r.h].host), length / 0x1000) !! s.m.Keys
  {
    hide A.Inv, A.FindList, A.GrantsAt, C.FreshRange, A.GrowSize;
    var q := CutFrom(s.a, length, host, r);
    if A.FindList(s.a, length) < A.N_FREELISTS {
      var h: nat :| h < |s.a.regions| && s.a.regions[h] == q;
      FreeRegionClear(s, h);
    }
    forall p | p in R.Range(Pg(q.host), length / 0x1000) ensures p !in s.m {
      FrontHolds(q.host, length, p);
    }
  }

  // ----- create_mapping

  /** Behind an allocation an address is backed if it was before or if the new region holds it. */
  lemma BackedAfter(a: A.Alloc, length: nat, r: A.Allocated, t: nat, x: nat)
    requires A.Serves(a, length, r)
    ensures Backed(A.SetAddr(r.s, r.h, t), x) <==> Backed(a, x) || A.Holds(r.s.regions[r.h], x)
  {
    hide A.Inv;
    var a' := A.SetAddr(r.s, r.h, t);
    if Backed(a, x) {
      var h: nat :| h in a.used && h < |a.regions| && A.Holds(a.regions[h], x);
      assert h in a'.used && A.Holds(a'.regions[h], x);
    }
    assert r.h in a'.used && a'.regions[r.h].host == r.s.regions[r.h].host;
    if Backed(a', x) {
      var h: nat :| h in a'.used && h < |a'.regions| && A.Holds(a'.regions[h], x);
      assert h != r.h ==> h in a.used && A.Holds(a.regions[h], x);
    }
  }

  /** An address of a chunk was one before, or lies in the new one. */
  lemma OldOrNew(a: A.Alloc, length: nat, host: nat, r: A.Allocated, x: nat)
    requires A.Inv(a) && length > 0 && A.GrantsAt(a, length, host, r)
    ensures A.InSomeChunk(r.s.chunks, x) ==>
              || A.InSomeChunk(a.chunks, x)
              || (A.FindList(a, length) == A.N_FREELISTS && host <= x < host + A.GrowSize(length))
  {
    hide A.Inv, A.FindList, A.GrantsAt, A.GrowSize, A.Serves;
    GrantedChunks(a, length, host, r);
    if A.InSomeChunk(r.s.chunks, x) {
      var j: nat :| j < |r.s.chunks| && C.ContainsHost(r.s.chunks[j], x);
      if j < |a.chunks| {
        assert r.s.chunks[j] == a.chunks[j];
      }
    }
  }

  /** A page in use at an address of a chunk was backed before the allocation. */
  lemma OldBacked(s: Heap, length: nat, host: nat, r: A.Allocated, p: nat)
    requires A.Inv(s.a) && length > 0 && AtHost(s) && NewRange(s, length, host) && A.GrantsAt(s.a, length, host, r)
    requires p in s.m && A.InSomeChunk(r.s.chunks, 0x1000 * p)
    ensures Backed(s.a, 0x1000 * p)
  {
    hide A.Inv, A.FindList, A.GrantsAt, A.GrowSize, C.FreshRange;
    OldOrNew(s.a, length, host, r, 0x1000 * p);
  }

  /** The mapping that a new entry of the mmap list is. */
  ghost predicate Added(s: Heap, s': Heap, r: A.Allocated, length: nat)
    requires r.h < |r.s.regions|
  {
    && |s'.mmap| == |s.mmap| + 1 && s'.mmap[..|s.mmap|] == s.mmap && s'.brk == s.brk
    && var z := s'.mmap[|s.mmap|];
       && z.addr == z.host == r.s.regions[r.h].host && z.length == length && z.region == r.h
       && z.pages == length / 0x1000 && s'.a == A.SetAddr(r.s, r.h, z.addr) && s'.a.regions[r.h].size == length
  }

  lemma CreatedIs(s: Heap, r: A.Allocated, length: nat, prot: Prot, anon: bool, fd: int, offset: int)
    requires length > 0 && length % 0x1000 == 0 && A.Serves(s.a, length, r) && (prot.read || prot.write || prot.exec)
    ensures r.h < |r.s.regions|
    ensures var t, s' := r.s.regions[r.h].host, M.CreateIn(s, r, 0, length, prot, anon, fd, offset);
            && s'.a == A.SetAddr(r.s, r.h, t) && s'.a.chunks == r.s.chunks && |s'.a.regions| == |r.s.regions|
            && s'.m == R.Overlay(s.m, Pg(t), t, length / 0x1000, Opts(prot.write, prot.exec))
            && Added(s, s', r, length) && M.Live(s'.a, s'.m, s'.mmap[|s.mmap|])
  {
    hide R.Overlay, FindSame, Pg, M.Linear, M.Counted;
    M.PageArithmetic(0, length);
    RegionManager.RegionAligned(r.s, r.h);
    var z := NewMapping(r.s, r.h, 0, length, prot, anon, fd, offset);
    var s' := M.CreateIn(s, r, 0, length, prot, anon, fd, offset);
    M.FindsItself(s.mmap, z);
    M.LenIs(z, length / 0x1000);
    M.OverlayLive(s.m, z);
    M.LiveFrom(s'.a, s'.m, z);
  }

  /** create_mapping at the host address of its region keeps what the next one needs. */
  lemma CreateAtHost(s: Heap, length: nat, host: nat, r: A.Allocated, s': Heap, opts: Opts)
    requires A.Inv(s.a) && AtHost(s) && NewRange(s, length, host)
    requires length > 0 && length % 0x1000 == 0 && A.GrantsAt(s.a, length, host, r) && r.h < |r.s.regions|
    requires var t := r.s.regions[r.h].host;
             s'.a == A.SetAddr(r.s, r.h, t) && s'.m == R.Overlay(s.m, Pg(t), t, length / 0x1000, opts)
    ensures AtHost(s')
  {
    hide A.Inv, A.FindList, A.GrantsAt, A.Serves, A.GrowSize, Backed, A.WellFormed;
    GrantedChunks(s.a, length, host, r);
    SizeIs(s.a, length, r);
    var t := r.s.regions[r.h].host;
    forall p | p in s'.m && A.InSomeChunk(s'.a.chunks, 0x1000 * p) ensures Backed(s'.a, 0x1000 * p) {
      FrontHolds(t, length, p);
      if !R.InRange(Pg(t), length / 0x1000, p) {
        assert p in s.m;
        OldBacked(s, length, host, r, p);
      }
      BackedAfter(s.a, length, r, t, 0x1000 * p);
    }
  }

  // ----- free_region

  /** A region whose host range holds no page that is left may be freed. */
  lemma FreedAtHost(s: Heap, h: nat, m: P.PageMap, a': A.Alloc, host: nat, size: nat)
    requires A.Inv(s.a) && AtHost(s) && h in s.a.used && h < |s.a.regions| && m.Keys <= s.m.Keys
    requires |a'.regions| == |s.a.regions|
    requires s.a.regions[h].host == host && s.a.regions[h].size == size && a'.chunks == s.a.chunks
    requires forall g | g in s.a.used && g != h :: g in a'.used && g < |s.a.regions| && a'.regions[g] == s.a.regions[g]
    requires host % 0x1000 == 0 && size % 0x1000 == 0 && R.Range(Pg(host), size / 0x1000) !! m.Keys
    ensures AtHost(s.(m := m, a := a'))
  {
    hide A.Inv;
    var s' := s.(m := m, a := a');
    forall p | p in s'.m && A.InSomeChunk(s'.a.chunks, 0x1000 * p) ensures Backed(s'.a, 0x1000 * p) {
      assert p in s.m;
      var g: nat :| g in s.a.used && g < |s.a.regions| && A.Holds(s.a.regions[g], 0x1000 * p);
      FrontHolds(host, size, p);
      assert p !in R.Range(Pg(host), size / 0x1000);
      assert g in s'.a.used && A.Holds(s'.a.regions[g], 0x1000 * p);
    }
  }

  // ----- the allocator under brk

  /** Regions only go out of use. */
  ghost predicate OnlyFrees(a: A.Alloc, a': A.Alloc) {
    a'.chunks == a.chunks && forall g | g in a'.used :: g in a.used && M.RegionStays(a, a', g)
  }

  lemma {:induction false} FreeUnusedAlloc(s: Heap, k: nat, base: nat, limit: nat, top: nat, newbrk: nat)
    requires B.BrkOk(s, k, base, limit, top) && base < newbrk <= top
    ensures OnlyFrees(s.a, B.FreeUnused(s, newbrk).a)
    decreases |s.brk|
  {
    hide A.Inv, Pg, B.TopOk, B.PagesOk, B.PopLast, CanUnmap, B.Survive, B.ChainOk, A.FreeRegion;
    B.ChainInv(s, k, base);
    A.UsedInBounds(s.a);
    B.BaseBelow(s, k, base);
    HR.ChainNotEmpty(s, k, base);
    if newbrk <= B.Last(s).addr {
      B.LastFacts(s, k, base);
      B.PopKeeps(s, k, base, limit, top);
      B.PopLastValue(s, k, base);
      A.FreedRegion(s.a, B.Last(s).region);
      FreeUnusedAlloc(B.PopLast(s), k, base, limit, B.Last(s).addr, newbrk);
    }
  }

  lemma ShrinkAlloc(s: Heap, k: nat, base: nat, limit: nat, newbrk: nat)
    requires B.BrkOk(s, k, base, limit, s.curbrk) && newbrk % 0x1000 == 0 && base < newbrk < s.curbrk
    ensures OnlyFrees(s.a, B.Shrink(s, newbrk).a)
  {
    hide A.Inv, Pg, B.TopOk, B.PagesOk, CanUnmap, B.Survive, B.ChainOk, B.FreeUnused, B.TrimLast, PagesFromSize;
    var s1 := B.FreeUnused(s, newbrk);
    FreeUnusedAlloc(s, k, base, limit, s.curbrk, newbrk);
    var top := B.FreeUnusedKeeps(s, k, base, limit, s.curbrk, newbrk);
    HR.ChainNotEmpty(s1, k, base);
    if B.Last(s1).addr + B.Last(s1).length > newbrk {
      B.TrimLastValue(s1, k, base, newbrk);
    }
  }

  /** brk beyond the last region asks the allocator. */
  ghost predicate Asks(s: Heap, newbrk: nat) {
    |s.brk| > 0 && B.Last(s).region < |s.a.regions| && B.GrowRequest(s, newbrk) > 0 && newbrk >= s.curbrk
  }

  /** What a brk call does to the allocator. */
  lemma BrkAlloc(s: Heap, k: nat, base: nat, limit: nat, newbrk: nat, r: A.Allocated)
    requires B.BrkOk(s, k, base, limit, s.curbrk) && newbrk % 0x1000 == 0 && base < newbrk <= limit
    requires B.Served(s, newbrk, r)
    ensures var a' := B.Brk(s, newbrk, r).a;
            if Asks(s, newbrk) && !Fits(s.a, B.Last(s), newbrk - 1) then
              r.h < |r.s.regions| && a' == A.SetAddr(r.s, r.h, newbrk - B.GrowRequest(s, newbrk))
            else OnlyFrees(s.a, a')
  {
    hide A.Inv, Pg, B.PagesOk, B.ChainOk, B.Shrink, A.Serves, R.Overlay, FindSame, PagesFromSize, PagesizeAlign,
         A.SetAddr;
    B.LastFacts(s, k, base);
    B.ChainInv(s, k, base);
    A.UsedInBounds(s.a);
    B.LastBelowTop(s, k, base, limit, s.curbrk);
    A.NotFree(s.a, B.Last(s).region);
    if newbrk < s.curbrk {
      ShrinkAlloc(s, k, base, limit, newbrk);
    } else if !Fits(s.a, B.Last(s), newbrk - 1) {
      A.HandleOf(s.a, B.GrowRequest(s, newbrk), r);
      var end := newbrk - B.GrowRequest(s, newbrk);
      AppendAlloc(B.FillLast(s).(curbrk := end), end, newbrk, r, s.a);
    }
  }

  lemma AppendAlloc(s: Heap, from: nat, newbrk: nat, r: A.Allocated, a: A.Alloc)
    requires 0 < from < newbrk && A.Serves(a, newbrk - from, r)
    ensures B.Append(s, from, newbrk, r).a == A.SetAddr(r.s, r.h, from)
  {
    hide R.Overlay, FindSame, A.Inv;
  }

  // ----- settled heaps

  ghost predicate OffZone(cs: seq<C.Chunk>, zone: M.Zone) {
    forall p: nat | R.Between(zone.lo, zone.hi, p) :: !A.InSomeChunk(cs, 0x1000 * p)
  }

  /** Every mapping that mmap made lies at the host address of its region and fills it. */
  ghost predicate AtHome(s: Heap, zone: M.Zone) {
    forall i | M.Own(s, zone, i) ::
      && s.mmap[i].addr == s.mmap[i].host && s.mmap[i].region < |s.a.regions|
      && s.mmap[i].length == s.a.regions[s.mmap[i].region].size
  }

  /** No page in use lies at a host address of a brk region. */
  ghost predicate Unsquatted(s: Heap, k: nat) {
    forall p, g: nat | p in s.m && HR.ChainRegion(s, k, g) && g < |s.a.regions| :: !A.Holds(s.a.regions[g], 0x1000 * p)
  }

  /** The heap of a process that has not used MAP_FIXED. The pages of brk are not at host addresses of
      chunks. */
  ghost predicate Settled(s: Heap, k: nat, base: nat, limit: nat) {
    && HR.HeapOk(s, k, base, limit) && AtHost(s) && OffZone(s.a.chunks, HR.ZoneOf(base, limit))
    && AtHome(s, HR.ZoneOf(base, limit)) && Unsquatted(s, k)
  }

  /** posix_memalign's answer, away from the pages of brk too. */
  ghost predicate RangeFor(s: Heap, zone: M.Zone, length: nat, host: nat) {
    && NewRange(s, length, host)
    && (A.FindList(s.a, length) == A.N_FREELISTS ==>
          forall p: nat | R.Between(zone.lo, zone.hi, p) :: !(host <= 0x1000 * p < host + A.GrowSize(length)))
  }

  lemma SettledParts(s: Heap, k: nat, base: nat, limit: nat)
    requires Settled(s, k, base, limit)
    ensures HR.HeapOk(s, k, base, limit) && B.BrkOk(s, k, base, limit, s.curbrk) && B.ChainOk(s, k, base)
    ensures M.MmapOk(s, HR.ZoneOf(base, limit)) && A.Inv(s.a) && AtHost(s)
    ensures OffZone(s.a.chunks, HR.ZoneOf(base, limit)) && AtHome(s, HR.ZoneOf(base, limit)) && Unsquatted(s, k)
    ensures Pg(base) < Pg(limit)
  {
    HR.ChainInside(s, k, base, limit, s.curbrk, k);
  }

  /** Behind an allocation the chunks are still off the zone, and no page that was in use lies in the new
      region. */
  lemma GrantedOff(s: Heap, zone: M.Zone, length: nat, host: nat, r: A.Allocated)
    requires A.Inv(s.a) && AtHost(s) && OffZone(s.a.chunks, zone) && RangeFor(s, zone, length, host) && length > 0
    requires A.GrantsAt(s.a, length, host, r)
    ensures A.Serves(s.a, length, r) && OffZone(r.s.chunks, zone)
    ensures forall p | p in s.m :: !A.Holds(r.s.regions[r.h], 0x1000 * p)
  {
    hide A.Inv, A.FindList, A.GrantsAt, A.GrowSize, C.FreshRange, A.Serves;
    GrantedChunks(s.a, length, host, r);
    A.HandleOf(s.a, length, r);
    forall p: nat | R.Between(zone.lo, zone.hi, p) ensures !A.InSomeChunk(r.s.chunks, 0x1000 * p) {
      OldOrNew(s.a, length, host, r, 0x1000 * p);
    }
    forall p | p in s.m ensures !A.Holds(r.s.regions[r.h], 0x1000 * p) {
      if A.Holds(r.s.regions[r.h], 0x1000 * p) {
        ServedInv(s.a, length, r);
        HeldIsInChunk(r.s, r.h, 0x1000 * p);
        OldBacked(s, length, host, r, p);
        UsedNotNew(s.a, length, r, 0x1000 * p);
      }
    }
  }

  lemma ServedInv(a: A.Alloc, length: nat, r: A.Allocated)
    requires A.Serves(a, length, r)
    ensures A.Inv(r.s) && r.h in r.s.used
  {
  }

  lemma HeldIsInChunk(a: A.Alloc, h: nat, x: nat)
    requires A.Inv(a) && h < |a.regions| && A.Holds(a.regions[h], x)
    ensures A.InSomeChunk(a.chunks, x)
  {
    var k: nat :| k < |a.chunks| && A.InChunk(a.chunks[k], a.regions[h]);
    assert C.ContainsHost(a.chunks[k], x);
  }

  /** An address of a region that was in use is none of the new region's. */
  lemma UsedNotNew(a: A.Alloc, length: nat, r: A.Allocated, x: nat)
    requires A.Serves(a, length, r) && Backed(a, x)
    ensures !A.Holds(r.s.regions[r.h], x)
  {
    hide A.Inv;
    var g: nat :| g in a.used && g < |a.regions| && A.Holds(a.regions[g], x);
    if A.Holds(r.s.regions[r.h], x) {
      A.OneRegion(r.s, g, r.h, x);
    }
  }

  // ----- mmap without MAP_FIXED

  /** Two ranges of pages without a common page lie behind each other. */
  lemma NoCommonPage(u: nat, n: nat, v: nat, l: nat)
    requires forall p: nat | R.InRange(u, n, p) :: !R.InRange(v, l, p)
    ensures n == 0 || l == 0 || u + n <= v || v + l <= u
  {
    if n > 0 && l > 0 && u + n > v && v + l > u {
      var p := if u <= v then v else u;
      assert R.InRange(u, n, p) && R.InRange(v, l, p);
      assert false;
    }
  }

  /** The new range is clear of the pages of brk. */
  lemma PlaceOff(s: Heap, zone: M.Zone, length: nat, host: nat, r: A.Allocated)
    requires A.Inv(s.a) && AtHost(s) && OffZone(s.a.chunks, zone) && RangeFor(s, zone, length, host)
    requires length > 0 && length % 0x1000 == 0 && A.GrantsAt(s.a, length, host, r) && zone.lo < zone.hi
    ensures r.h < |r.s.regions| && M.Off(zone, Pg(r.s.regions[r.h].host), length / 0x1000)
  {
    hide A.Inv, A.GrantsAt, Pg, RangeFor, A.Serves;
    GrantedOff(s, zone, length, host, r);
    SizeIs(s.a, length, r);
    ServedInv(s.a, length, r);
    var t, n := r.s.regions[r.h].host, length / 0x1000;
    forall p: nat | R.InRange(Pg(t), n, p) ensures !R.InRange(zone.lo, zone.hi - zone.lo, p) {
      FrontHolds(t, length, p);
      HeldIsInChunk(r.s, r.h, 0x1000 * p);
      assert R.InRange(zone.lo, zone.hi - zone.lo, p) ==> R.Between(zone.lo, zone.hi, p);
    }
    PagesOf(length);
    NoCommonPage(Pg(t), n, zone.lo, zone.hi - zone.lo);
  }

  /** No mapping covers a page of the new range. */
  lemma PlaceClear(s: Heap, k: nat, base: nat, limit: nat, length: nat, host: nat, r: A.Allocated)
    requires Settled(s, k, base, limit) && RangeFor(s, HR.ZoneOf(base, limit), length, host)
    requires length > 0 && length % 0x1000 == 0 && A.GrantsAt(s.a, length, host, r)
    ensures r.h < |r.s.regions| && M.ClearOf(s.mmap, Pg(r.s.regions[r.h].host), length / 0x1000)
  {
    hide A.Inv, A.GrantsAt, Pg, Settled, RangeFor, A.Serves, PagesFromSize, M.MmapOk, HR.HeapOk, B.BrkOk, B.ChainOk;
    var zone := HR.ZoneOf(base, limit);
    SettledParts(s, k, base, limit);
    RangeIsNew(s, zone, length, host);
    GrantedOff(s, zone, length, host, r);
    PlaceOff(s, zone, length, host, r);
    SizeIs(s.a, length, r);
    var t, n := r.s.regions[r.h].host, length / 0x1000;
    forall j | 0 <= j < |s.mmap|
      ensures Pg(s.mmap[j].addr) + M.Len(s.mmap[j]) <= Pg(t) || Pg(t) + n <= Pg(s.mmap[j].addr)
    {
      var y := s.mmap[j];
      M.LenBelow(y);
      if M.Own(s, zone, j) {
        M.LiveAt(s, zone, j);
        forall p: nat | R.InRange(Pg(t), n, p) ensures !R.InRange(Pg(y.addr), M.Len(y), p) {
          FrontHolds(t, length, p);
          FrontHolds(y.addr, y.length, p);
          if A.Holds(s.a.regions[y.region], 0x1000 * p) {
            UsedNotNew(s.a, length, r, 0x1000 * p);
          }
        }
        NoCommonPage(Pg(t), n, Pg(y.addr), M.Len(y));
        PagesOf(length);
        PagesOf(y.length);
      }
    }
  }

  lemma PagesOf(length: nat)
    requires length > 0 && length % 0x1000 == 0
    ensures length / 0x1000 > 0
  {
  }

  lemma RangeIsNew(s: Heap, zone: M.Zone, length: nat, host: nat)
    requires RangeFor(s, zone, length, host)
    ensures NewRange(s, length, host)
  {
  }

  /** In a settled heap mmap without MAP_FIXED goes through. */
  lemma MmapGoes(s: Heap, k: nat, base: nat, limit: nat, q: M.Request, host: nat, r: A.Allocated)
    requires Settled(s, k, base, limit) && RangeFor(s, HR.ZoneOf(base, limit), PagesizeAlign(q.length), host)
    requires !q.fixed && q.length > 0 && (q.prot.read || q.prot.write || q.prot.exec) && q.addr % 0x1000 == 0
    requires A.GrantsAt(s.a, PagesizeAlign(q.length), host, r)
    ensures M.MmapEnabled(s, HR.ZoneOf(base, limit), q, s, r) && r.h < |r.s.regions|
    ensures A.Serves(s.a, PagesizeAlign(q.length), r) && PagesizeAlign(q.length) > 0
    ensures PagesizeAlign(q.length) % 0x1000 == 0
  {
    hide A.Inv, A.GrantsAt, Pg, Settled, RangeFor, A.Serves, M.MmapOk, HR.HeapOk, B.BrkOk, B.ChainOk, M.ClearOf, M.Off,
         NewRange;
    var zone, len := HR.ZoneOf(base, limit), PagesizeAlign(q.length);
    SettledParts(s, k, base, limit);
    RangeIsNew(s, zone, len, host);
    GrantedOff(s, zone, len, host, r);
    PlaceOff(s, zone, len, host, r);
    PlaceClear(s, k, base, limit, len, host, r);
    PlaceIsFree(s, len, host, r);
  }

  lemma SettledFrom(s: Heap, k: nat, base: nat, limit: nat)
    requires HR.HeapOk(s, k, base, limit) && AtHost(s) && OffZone(s.a.chunks, HR.ZoneOf(base, limit))
    requires AtHome(s, HR.ZoneOf(base, limit)) && Unsquatted(s, k)
    ensures Settled(s, k, base, limit)
  {
  }

  /** Own mappings stay at home while their regions stay as they are. */
  lemma HomeStays(s: Heap, zone: M.Zone, a': A.Alloc, i: nat)
    requires M.MmapOk(s, zone) && M.Own(s, zone, i) && AtHome(s, zone) && M.RegionStays(s.a, a', s.mmap[i].region)
    ensures s.mmap[i].addr == s.mmap[i].host && s.mmap[i].region < |a'.regions|
    ensures s.mmap[i].length == a'.regions[s.mmap[i].region].size
  {
  }

  lemma MmapSettles(s: Heap, k: nat, base: nat, limit: nat, q: M.Request, host: nat, r: A.Allocated, s': Heap)
    requires Settled(s, k, base, limit) && RangeFor(s, HR.ZoneOf(base, limit), PagesizeAlign(q.length), host)
    requires !q.fixed && q.length > 0 && (q.prot.read || q.prot.write || q.prot.exec) && q.addr % 0x1000 == 0
    requires A.GrantsAt(s.a, PagesizeAlign(q.length), host, r) && r.h < |r.s.regions|
    requires s' == M.CreateIn(s, r, 0, PagesizeAlign(q.length), q.prot, q.anon, q.fd, q.offset)
    ensures HR.Step(s, base, limit, HR.MmapOp(M.Mmap(q, s, r)), s') && Settled(s', k, base, limit)
  {
    hide A.Inv, A.GrantsAt, Pg, Settled, RangeFor, A.Serves, M.MmapOk, HR.HeapOk, B.BrkOk, B.ChainOk, NewRange, AtHost,
         M.MmapEnabled, AtHome, Unsquatted, OffZone, M.CreateIn, A.SetAddr, R.Overlay, PagesizeAlign, M.Live, Added;
    var zone, len := HR.ZoneOf(base, limit), PagesizeAlign(q.length);
    SettledParts(s, k, base, limit);
    MmapGoes(s, k, base, limit, q, host, r);
    assert M.Step(s, zone, M.Mmap(q, s, r), s');
    HR.MmapStepKeeps(s, k, base, limit, M.Mmap(q, s, r), s');
    CreatedIs(s, r, len, q.prot, q.anon, q.fd, q.offset);
    RangeIsNew(s, zone, len, host);
    GrantedOff(s, zone, len, host, r);
    CreateAtHost(s, len, host, r, s', Opts(q.prot.write, q.prot.exec));
    MmapAtHome(s, zone, len, r, s');
    MmapUnsquatted(s, k, base, len, r, s', Opts(q.prot.write, q.prot.exec));
    SettledFrom(s', k, base, limit);
  }

  lemma ServedStays(a: A.Alloc, length: nat, r: A.Allocated, t: nat, g: nat)
    requires A.Inv(a) && A.Serves(a, length, r) && g in a.used
    ensures M.RegionStays(a, A.SetAddr(r.s, r.h, t), g) && g != r.h
  {
    A.UsedInBounds(a);
  }

  lemma MmapAtHome(s: Heap, zone: M.Zone, length: nat, r: A.Allocated, s': Heap)
    requires M.MmapOk(s, zone) && AtHome(s, zone) && A.Serves(s.a, length, r) && Added(s, s', r, length)
    requires |s'.a.regions| == |r.s.regions|
    ensures AtHome(s', zone)
  {
    hide A.Inv, M.InZone, M.MmapOk, A.Serves, A.SetAddr;
    M.InvOf(s, zone);
    A.HandleOf(s.a, length, r);
    forall i | M.Own(s', zone, i)
      ensures s'.mmap[i].addr == s'.mmap[i].host && s'.mmap[i].region < |s'.a.regions|
      ensures s'.mmap[i].length == s'.a.regions[s'.mmap[i].region].size
    {
      if i < |s.mmap| {
        assert s'.mmap[..|s.mmap|][i] == s.mmap[i];
        assert M.Own(s, zone, i);
        HR.OwnUsed(s, zone, i);
        ServedStays(s.a, length, r, s'.mmap[|s.mmap|].addr, s.mmap[i].region);
        HomeStays(s, zone, s'.a, i);
      }
    }
  }

  lemma MmapUnsquatted(s: Heap, k: nat, base: nat, length: nat, r: A.Allocated, s': Heap, opts: Opts)
    requires B.ChainOk(s, k, base) && Unsquatted(s, k) && A.Serves(s.a, length, r) && Added(s, s', r, length)
    requires length > 0 && length % 0x1000 == 0 && s'.brk == s.brk
    requires var t := r.s.regions[r.h].host;
             s'.m == R.Overlay(s.m, Pg(t), t, length / 0x1000, opts) && s'.a == A.SetAddr(r.s, r.h, t)
    ensures Unsquatted(s', k)
  {
    hide A.Inv, B.ChainOk, A.Serves, Pg, A.SetAddr;
    B.ChainInv(s, k, base);
    SizeIs(s.a, length, r);
    ServedInv(s.a, length, r);
    var t := r.s.regions[r.h].host;
    forall p, g: nat | p in s'.m && HR.ChainRegion(s', k, g) && g < |s'.a.regions|
      ensures !A.Holds(s'.a.regions[g], 0x1000 * p)
    {
      assert HR.ChainRegion(s, k, g);
      HR.ChainUsed(s, k, base, g);
      ServedStays(s.a, length, r, t, g);
      FrontHolds(t, length, p);
      if R.InRange(Pg(t), length / 0x1000, p) {
        if A.Holds(s.a.regions[g], 0x1000 * p) {
          UsedNotNew(s.a, length, r, 0x1000 * p);
        }
      } else {
        assert p in s.m;
      }
    }
  }

  // ----- munmap

  lemma MunmapSettles(s: Heap, k: nat, base: nat, limit: nat, i: nat, addr: nat, pages: nat, s': Heap)
    requires Settled(s, k, base, limit) && M.Own(s, HR.ZoneOf(base, limit), i) && CanUnmap(s, InMmap(i), addr, pages)
    requires addr % 0x1000 == 0 && s' == Unmap(s, InMmap(i), addr, pages)
    ensures HR.Step(s, base, limit, HR.MmapOp(M.Munmap(i, addr, pages)), s') && Settled(s', k, base, limit)
  {
    hide A.Inv, Pg, Settled, M.MmapOk, HR.HeapOk, B.BrkOk, B.ChainOk, AtHost, AtHome, Unsquatted, OffZone, Unmap,
         CanUnmap, R.Range, A.FreeRegion, Erase;
    var zone, x := HR.ZoneOf(base, limit), s.mmap[i];
    SettledParts(s, k, base, limit);
    PagesBound(s, i, addr, pages);
    assert M.Step(s, zone, M.Munmap(i, addr, pages), s');
    HR.MmapStepKeeps(s, k, base, limit, M.Munmap(i, addr, pages), s');
    if pages < x.pages {
      M.UnmapPartKeeps(s, zone, i, addr, pages);
      PartAtHost(s, s');
      PartAtHome(s, zone, i, s', pages);
    } else {
      M.UnmapAllKeeps(s, zone, i, addr, pages);
      M.LiveAt(s, zone, i);
      A.FreedRegion(s.a, x.region);
      FreedAtHost(s, x.region, s'.m, s'.a, x.host, x.length);
      SameAtHost(s.(m := s'.m, a := s'.a), s');
      AllAtHome(s, zone, i, s');
    }
    LessUnsquatted(s, k, base, s', i, zone);
    SettledFrom(s', k, base, limit);
  }

  lemma PagesBound(s: Heap, i: nat, addr: nat, pages: nat)
    requires CanUnmap(s, InMmap(i), addr, pages)
    ensures i < |s.mmap| && pages <= s.mmap[i].pages
  {
  }

  lemma SameAtHost(s: Heap, s': Heap)
    requires AtHost(s) && s'.m == s.m && s'.a == s.a
    ensures AtHost(s')
  {
  }

  lemma PartAtHost(s: Heap, s': Heap)
    requires AtHost(s) && s'.m.Keys <= s.m.Keys && s'.a == s.a
    ensures AtHost(s')
  {
    forall p | p in s'.m && A.InSomeChunk(s'.a.chunks, 0x1000 * p) ensures Backed(s'.a, 0x1000 * p) {
      assert p in s.m;
    }
  }

  lemma PartAtHome(s: Heap, zone: M.Zone, i: nat, s': Heap, pages: nat)
    requires AtHome(s, zone) && M.Own(s, zone, i) && s'.a == s.a && pages <= s.mmap[i].pages
    requires s'.mmap == s.mmap[i := s.mmap[i].(pages := s.mmap[i].pages - pages)]
    ensures AtHome(s', zone)
  {
    forall j | M.Own(s', zone, j)
      ensures s'.mmap[j].addr == s'.mmap[j].host && s'.mmap[j].region < |s'.a.regions|
      ensures s'.mmap[j].length == s'.a.regions[s'.mmap[j].region].size
    {
      assert M.Own(s, zone, j);
    }
  }

  lemma AllAtHome(s: Heap, zone: M.Zone, i: nat, s': Heap)
    requires M.MmapOk(s, zone) && AtHome(s, zone) && M.Own(s, zone, i) && s'.mmap == Erase(s.mmap, i)
    requires forall g: nat | g < |s.a.regions| && g != s.mmap[i].region ::
               g < |s'.a.regions| && s'.a.regions[g] == s.a.regions[g]
    ensures AtHome(s', zone)
  {
    hide M.InZone, M.Live, A.Inv;
    forall j | M.Own(s', zone, j)
      ensures s'.mmap[j].addr == s'.mmap[j].host && s'.mmap[j].region < |s'.a.regions|
      ensures s'.mmap[j].length == s'.a.regions[s'.mmap[j].region].size
    {
      var j0 := if j < i then j else j + 1;
      assert s'.mmap[j] == s.mmap[j0] && M.Own(s, zone, j0);
      assert M.Separate(s.mmap[i], s.mmap[j0]) || M.Separate(s.mmap[j0], s.mmap[i]);
    }
  }

  /** munmap changes no brk region and adds no page. */
  lemma LessUnsquatted(s: Heap, k: nat, base: nat, s': Heap, i: nat, zone: M.Zone)
    requires Unsquatted(s, k) && B.ChainOk(s, k, base) && M.Own(s, zone, i) && s'.brk == s.brk && s'.m.Keys <= s.m.Keys
    requires forall g | HR.ChainRegion(s, k, g) :: !M.OwnRegion(s, zone, g)
    requires forall g: nat | g < |s.a.regions| && g != s.mmap[i].region ::
               g < |s'.a.regions| && s'.a.regions[g] == s.a.regions[g]
    ensures Unsquatted(s', k)
  {
    hide A.Inv, B.ChainOk, M.InZone;
    B.ChainInv(s, k, base);
    A.UsedInBounds(s.a);
    assert M.OwnRegion(s, zone, s.mmap[i].region);
    forall p, g: nat | p in s'.m && HR.ChainRegion(s', k, g) && g < |s'.a.regions|
      ensures !A.Holds(s'.a.regions[g], 0x1000 * p)
    {
      assert HR.ChainRegion(s, k, g) && p in s.m;
      HR.ChainUsed(s, k, base, g);
    }
  }

  // ----- brk

  /** What brk does to the allocator: regions go out of use, or a granted one comes in. */
  lemma BrkAtHost(s: Heap, k: nat, zone: M.Zone, s': Heap)
    requires AtHost(s) && Unsquatted(s, k) && HR.Frame(s, k, zone, s') && OffZone(s'.a.chunks, zone)
    requires s'.a.chunks == s.a.chunks
    ensures AtHost(s')
  {
    hide M.InZone, A.InSomeChunk, HR.ChainRegion;
    forall p | p in s'.m && A.InSomeChunk(s'.a.chunks, 0x1000 * p) ensures Backed(s'.a, 0x1000 * p) {
      assert !R.Between(zone.lo, zone.hi, p);
      var g: nat :| g in s.a.used && g < |s.a.regions| && A.Holds(s.a.regions[g], 0x1000 * p);
      assert M.RegionStays(s.a, s'.a, g);
    }
  }

  lemma GrownAtHost(s: Heap, k: nat, zone: M.Zone, length: nat, host: nat, r: A.Allocated, t: nat, s': Heap)
    requires A.Inv(s.a) && AtHost(s) && HR.Frame(s, k, zone, s') && OffZone(s'.a.chunks, zone) && length > 0
    requires NewRange(s, length, host) && A.GrantsAt(s.a, length, host, r) && A.Serves(s.a, length, r)
    requires s'.a == A.SetAddr(r.s, r.h, t) && s'.a.chunks == r.s.chunks
    ensures AtHost(s')
  {
    hide M.InZone, A.InSomeChunk, HR.ChainRegion, A.Inv, A.GrantsAt, A.Serves, Backed, A.SetAddr, NewRange;
    forall p | p in s'.m && A.InSomeChunk(s'.a.chunks, 0x1000 * p) ensures Backed(s'.a, 0x1000 * p) {
      assert !R.Between(zone.lo, zone.hi, p);
      OldBacked(s, length, host, r, p);
      A.HandleOf(s.a, length, r);
      BackedAfter(s.a, length, r, t, 0x1000 * p);
    }
  }

  lemma BrkAtHome(s: Heap, k: nat, base: nat, limit: nat, s': Heap)
    requires HR.HeapOk(s, k, base, limit) && AtHome(s, HR.ZoneOf(base, limit))
    requires HR.Frame(s, k, HR.ZoneOf(base, limit), s')
    ensures AtHome(s', HR.ZoneOf(base, limit))
  {
    hide M.InZone, HR.ChainRegion, A.Inv, B.BrkOk, M.MmapOk, HR.SameOut, Pg;
    var zone := HR.ZoneOf(base, limit);
    forall i | M.Own(s', zone, i)
      ensures s'.mmap[i].addr == s'.mmap[i].host && s'.mmap[i].region < |s'.a.regions|
      ensures s'.mmap[i].length == s'.a.regions[s'.mmap[i].region].size
    {
      assert i < |s.mmap| && s'.mmap[..|s.mmap|][i] == s.mmap[i];
      assert M.Own(s, zone, i);
      assert M.OwnRegion(s, zone, s.mmap[i].region);
      HR.OwnUsed(s, zone, i);
      HomeStays(s, zone, s'.a, i);
    }
  }

  lemma BrkUnsquatted(s: Heap, k: nat, base: nat, zone: M.Zone, s': Heap)
    requires Unsquatted(s, k) && HR.Frame(s, k, zone, s') && B.ChainOk(s', k, base) && OffZone(s'.a.chunks, zone)
    requires forall g | g in s'.a.used && g in s.a.used :: M.RegionStays(s.a, s'.a, g)
    requires forall g, p | g in s'.a.used && g !in s.a.used && p in s.m ::
               g < |s'.a.regions| ==> !A.Holds(s'.a.regions[g], 0x1000 * p)
    ensures Unsquatted(s', k)
  {
    hide A.Inv, B.ChainOk, M.InZone, HR.ChainRegion;
    B.ChainInv(s', k, base);
    forall p, g: nat | p in s'.m && HR.ChainRegion(s', k, g) && g < |s'.a.regions|
      ensures !A.Holds(s'.a.regions[g], 0x1000 * p)
    {
      HR.ChainUsed(s', k, base, g);
      if A.Holds(s'.a.regions[g], 0x1000 * p) {
        HeldIsInChunk(s'.a, g, 0x1000 * p);
      }
    }
  }

  lemma BrkSettles(s: Heap, k: nat, base: nat, limit: nat, newbrk: nat, host: nat, r: A.Allocated, s': Heap)
    requires Settled(s, k, base, limit) && newbrk % 0x1000 == 0 && base < newbrk <= limit
    requires Asks(s, newbrk) ==> RangeFor(s, HR.ZoneOf(base, limit), B.GrowRequest(s, newbrk), host)
                                 && A.GrantsAt(s.a, B.GrowRequest(s, newbrk), host, r)
    requires s' == B.Brk(s, newbrk, r)
    ensures HR.Step(s, base, limit, HR.BrkOp(newbrk, r), s') && Settled(s', k, base, limit)
  {
    hide A.Inv, A.Grants, Pg, Settled, M.MmapOk, HR.HeapOk, B.BrkOk, B.ChainOk, AtHost, AtHome, Unsquatted, OffZone,
         B.Brk, HR.Frame, RangeFor, A.Serves, NewRange, HR.SameOut, M.SameIn, B.Survive, OnlyFrees, A.SetAddr;
    var zone := HR.ZoneOf(base, limit);
    SettledParts(s, k, base, limit);
    HR.StepKeeps(s, k, base, limit, HR.BrkOp(newbrk, r), s');
    HR.HeapParts(s', k, base, limit);
    B.GrantedServes(s, newbrk, r);
    HR.BrkFrame(s, k, base, limit, newbrk, r);
    BrkAlloc(s, k, base, limit, newbrk, r);
    ChainOf(s', k, base, limit, s'.curbrk);
    BrkAtHome(s, k, base, limit, s');
    if Asks(s, newbrk) && !Fits(s.a, B.Last(s), newbrk - 1) {
      GrownSettles(s, k, base, limit, B.GrowRequest(s, newbrk), host, r, newbrk - B.GrowRequest(s, newbrk), s');
    } else {
      FreedSettles(s, k, base, zone, s');
    }
    SettledFrom(s', k, base, limit);
  }

  lemma ChainOf(s: Heap, k: nat, base: nat, limit: nat, top: nat)
    requires B.BrkOk(s, k, base, limit, top)
    ensures B.ChainOk(s, k, base)
  {
  }

  lemma FreedSettles(s: Heap, k: nat, base: nat, zone: M.Zone, s': Heap)
    requires AtHost(s) && Unsquatted(s, k) && HR.Frame(s, k, zone, s') && OffZone(s.a.chunks, zone)
    requires OnlyFrees(s.a, s'.a)
    requires B.ChainOk(s', k, base)
    ensures AtHost(s') && OffZone(s'.a.chunks, zone) && Unsquatted(s', k)
  {
    hide AtHost, Unsquatted, HR.Frame, OffZone, B.ChainOk;
    BrkAtHost(s, k, zone, s');
    BrkUnsquatted(s, k, base, zone, s');
  }

  lemma GrownSettles(s: Heap, k: nat, base: nat, limit: nat, length: nat, host: nat, r: A.Allocated, t: nat, s': Heap)
    requires Settled(s, k, base, limit) && length > 0 && RangeFor(s, HR.ZoneOf(base, limit), length, host)
    requires A.GrantsAt(s.a, length, host, r) && r.h < |r.s.regions| && s'.a == A.SetAddr(r.s, r.h, t)
    requires HR.Frame(s, k, HR.ZoneOf(base, limit), s') && B.ChainOk(s', k, base)
    ensures AtHost(s') && OffZone(s'.a.chunks, HR.ZoneOf(base, limit)) && Unsquatted(s', k)
  {
    hide A.Inv, A.GrantsAt, Settled, M.MmapOk, HR.HeapOk, B.BrkOk, B.ChainOk, AtHost, AtHome, Unsquatted, OffZone,
         HR.Frame, RangeFor, NewRange, Pg;
    var zone := HR.ZoneOf(base, limit);
    SettledParts(s, k, base, limit);
    RangeIsNew(s, zone, length, host);
    GrantedOff(s, zone, length, host, r);
    GrownAtHost(s, k, zone, length, host, r, t, s');
    forall g | g in s'.a.used && g in s.a.used ensures M.RegionStays(s.a, s'.a, g) {
      ServedStays(s.a, length, r, t, g);
    }
    BrkUnsquatted(s, k, base, zone, s');
  }

  // ----- runs

  datatype Op =
    | BrkOp(newbrk: nat, host: nat, r: A.Allocated)
    | MmapOp(q: M.Request, host: nat, r: A.Allocated)
    | MunmapOp(i: nat, addr: nat, pages: nat)

  /** What callers and posix_memalign owe. That the pages of a new mapping are free is not among it. */
  ghost predicate Step(s: Heap, base: nat, limit: nat, op: Op, s': Heap) {
    var zone := HR.ZoneOf(base, limit);
    match op
    case BrkOp(newbrk, host, r) =>
      && newbrk % 0x1000 == 0 && base < newbrk <= limit && s' == B.Brk(s, newbrk, r)
      && (Asks(s, newbrk) ==>
            RangeFor(s, zone, B.GrowRequest(s, newbrk), host) && A.GrantsAt(s.a, B.GrowRequest(s, newbrk), host, r))
    case MmapOp(q, host, r) =>
      && !q.fixed && q.length > 0 && (q.prot.read || q.prot.write || q.prot.exec) && q.addr % 0x1000 == 0
      && RangeFor(s, zone, PagesizeAlign(q.length), host) && A.GrantsAt(s.a, PagesizeAlign(q.length), host, r)
      && r.h < |r.s.regions| && s' == M.CreateIn(s, r, 0, PagesizeAlign(q.length), q.prot, q.anon, q.fd, q.offset)
    case MunmapOp(i, addr, pages) =>
      && M.Own(s, zone, i) && CanUnmap(s, InMmap(i), addr, pages) && addr % 0x1000 == 0
      && s' == Unmap(s, InMmap(i), addr, pages)
  }

  /** The step of a mixed run that it is. */
  function AsMixed(s: Heap, op: Op): HR.Op {
    match op
    case BrkOp(newbrk, host, r) => HR.BrkOp(newbrk, r)
    case MmapOp(q, host, r) => HR.MmapOp(M.Mmap(q, s, r))
    case MunmapOp(i, addr, pages) => HR.MmapOp(M.Munmap(i, addr, pages))
  }

  lemma StepGoes(s: Heap, k: nat, base: nat, limit: nat, op: Op, s': Heap)
    requires Settled(s, k, base, limit) && Step(s, base, limit, op, s')
    ensures HR.Step(s, base, limit, AsMixed(s, op), s') && Settled(s', k, base, limit)
  {
    hide Settled, HR.Step, RangeFor, A.GrantsAt, B.Brk, M.CreateIn, Unmap, CanUnmap, M.Own;
    match op
    case BrkOp(newbrk, host, r) => BrkSettles(s, k, base, limit, newbrk, host, r, s');
    case MmapOp(q, host, r) => MmapSettles(s, k, base, limit, q, host, r, s');
    case MunmapOp(i, addr, pages) => MunmapSettles(s, k, base, limit, i, addr, pages, s');
  }

  ghost predicate Run(states: seq<Heap>, base: nat, limit: nat, ops: seq<Op>) {
    |states| == |ops| + 1 && forall n | 0 <= n < |ops| :: Step(states[n], base, limit, ops[n], states[n + 1])
  }

  /** In every run of brk, mmap without MAP_FIXED and munmap every mmap finds its pages free, so that
      the run is one of the mixed runs, and every state is settled again. */
  lemma {:induction false} RunGoes(states: seq<Heap>, k: nat, base: nat, limit: nat, ops: seq<Op>, n: nat)
    requires Run(states, base, limit, ops) && n < |states| && Settled(states[0], k, base, limit)
    ensures Settled(states[n], k, base, limit)
    ensures n < |ops| ==> HR.Step(states[n], base, limit, AsMixed(states[n], ops[n]), states[n + 1])
  {
    hide Settled, Step, HR.Step;
    if n > 0 {
      RunGoes(states, k, base, limit, ops, n - 1);
      assert Step(states[n - 1], base, limit, ops[n - 1], states[n]);
      StepGoes(states[n - 1], k, base, limit, ops[n - 1], states[n]);
    }
    if n < |ops| {
      assert Step(states[n], base, limit, ops[n], states[n + 1]);
      StepGoes(states[n], k, base, limit, ops[n], states[n + 1]);
    }
  }

  // ----- when mmap without MAP_FIXED goes through

  /** The assert behind map_region holds if and only if the pages at the granted host range are free, as
      long as no page in use maps into a region that is not in use. */
  lemma GoesThroughIff(s: Heap, length: nat, r: A.Allocated)
    requires A.Serves(s.a, length, r) && length % 0x1000 == 0 && forall p | p in s.m :: Backed(s.a, s.m[p].host)
    ensures var t, n := r.s.regions[r.h].host, length / 0x1000;
            R.RangeOk(s.m, Pg(t), t, n) <==> R.Range(Pg(t), n) !! s.m.Keys
  {
    hide A.Inv, Pg;
    SizeIs(s.a, length, r);
    var t, n := r.s.regions[r.h].host, length / 0x1000;
    if R.Range(Pg(t), n) !! s.m.Keys {
      R.FreeRange(s.m, Pg(t), t, n);
    }
    if R.RangeOk(s.m, Pg(t), t, n) {
      forall p | p in R.Range(Pg(t), n) ensures p !in s.m {
        FrontHolds(t, length, p);
        if p in s.m {
          PageHost(t, p);
          UsedNotNew(s.a, length, r, s.m[p].host);
        }
      }
    }
  }

  lemma PageHost(t: nat, p: nat)
    requires t % 0x1000 == 0 && p >= Pg(t)
    ensures t + 0x1000 * (p - Pg(t)) == 0x1000 * p
  {
  }

  /** Before the first mmap, with no page at a host address of a chunk. */
  lemma StartSettled(s: Heap, k: nat, base: nat, limit: nat)
    requires HR.HeapOk(s, k, base, limit) && s.mmap == [] && OffZone(s.a.chunks, HR.ZoneOf(base, limit))
    requires forall p | p in s.m :: !A.InSomeChunk(s.a.chunks, 0x1000 * p)
    ensures Settled(s, k, base, limit)
  {
    hide HR.HeapOk, A.InSomeChunk;
    HR.HeapParts(s, k, base, limit);
    forall p, g: nat | p in s.m && HR.ChainRegion(s, k, g) && g < |s.a.regions|
      ensures !A.Holds(s.a.regions[g], 0x1000 * p)
    {
      if A.Holds(s.a.regions[g], 0x1000 * p) {
        HeldIsInChunk(s.a, g, 0x1000 * p);
      }
    }
  }

  // ----- MAP_FIXED inside a mapping at home

  /** Of the addresses of region h those from lo to hi are no longer backed, all others still are. */
  ghost predicate Holed(a: A.Alloc, h: nat, a1: A.Alloc, lo: nat, hi: nat)
    requires h < |a.regions|
  {
    && A.Inv(a1) && a1.chunks == a.chunks && (forall g | g in a.used && g != h :: M.RegionStays(a, a1, g))
    && forall y: nat | A.Holds(a.regions[h], y) :: Backed(a1, y) <==> !(lo <= y < hi)
  }

  /** A free region backs nothing. */
  lemma FreeBacksNot(a: A.Alloc, h: nat, y: nat)
    requires A.Inv(a) && h < |a.regions| && a.regions[h].free && A.Holds(a.regions[h], y)
    ensures !Backed(a, y)
  {
    hide A.Inv;
    if Backed(a, y) {
      var g: nat :| g in a.used && g < |a.regions| && A.Holds(a.regions[g], y);
      A.NotFree(a, g);
      A.OneRegion(a, g, h, y);
    }
  }

  lemma FrontHoled(a: A.Alloc, h: nat, len: nat)
    requires A.Inv(a) && h in a.used && h < |a.regions| && 0 < len < a.regions[h].size && len % 0x1000 == 0
    requires |a.freelists| == A.N_FREELISTS && PagesizeAlign(len) == len
    ensures Holed(a, h, A.CutFront(a, h, len), a.regions[h].host, a.regions[h].host + len)
  {
    hide A.Inv;
    A.UsedInBounds(a);
    A.CutFrontKeeps(a, h, len);
    var a1, n := A.CutFront(a, h, len), |a.regions|;
    forall y: nat | A.Holds(a.regions[h], y)
      ensures Backed(a1, y) <==> !(a.regions[h].host <= y < a.regions[h].host + len)
    {
      if y < a.regions[h].host + len {
        FreeBacksNot(a1, n, y);
      } else {
        assert A.Holds(a1.regions[h], y);
      }
    }
  }

  lemma MiddleHoled(a: A.Alloc, h: nat, off: nat, len: nat, t: nat)
    requires A.Inv(a) && h in a.used && h < |a.regions| && |a.freelists| == A.N_FREELISTS
    requires 0 < off && 0 < len && off % 0x1000 == 0 && len % 0x1000 == 0 && off + len < a.regions[h].size
    ensures |a.regions| < |A.CutMiddle(a, h, off, len).regions|
    ensures Holed(a, h, A.SetAddr(A.CutMiddle(a, h, off, len), |a.regions|, t), a.regions[h].host + off,
                  a.regions[h].host + off + len)
  {
    hide A.Inv;
    A.UsedInBounds(a);
    A.CutMiddleKeeps(a, h, off, len);
    var n, host := |a.regions|, a.regions[h].host;
    A.SetAddrKeeps(A.CutMiddle(a, h, off, len), n, t);
    var a1 := A.SetAddr(A.CutMiddle(a, h, off, len), n, t);
    forall y: nat | A.Holds(a.regions[h], y) ensures Backed(a1, y) <==> !(host + off <= y < host + off + len) {
      if y < host + off {
        assert h in a1.used && A.Holds(a1.regions[h], y);
      } else if y < host + off + len {
        FreeBacksNot(a1, n + 1, y);
      } else {
        assert n in a1.used && A.Holds(a1.regions[n], y);
      }
    }
  }

  /** What MAP_FIXED replaces: part of full mapping i, which is at home. */
  ghost predicate FixedInside(s: Heap, zone: M.Zone, i: nat, base: nat, len: nat) {
    && M.MmapOk(s, zone) && M.Own(s, zone, i) && M.Full(s.mmap[i]) && Contains(s.mmap[i], base)
    && base + len <= s.mmap[i].addr + s.mmap[i].length && base % 0x1000 == 0 && len % 0x1000 == 0 && len > 0
    && M.SliceFits(s.mmap[i], base, len) && s.mmap[i].addr == s.mmap[i].host && s.mmap[i].region < |s.a.regions|
    && s.mmap[i].length == s.a.regions[s.mmap[i].region].size
  }

  /** slice_end leaves the hole in the region of the mapping. */
  predicate AtItsEnd(x: Mapping, base: nat, len: nat) { base != x.addr && base + len == x.addr + x.length }

  lemma SliceHoles(s: Heap, zone: M.Zone, i: nat, base: nat, len: nat)
    requires FixedInside(s, zone, i, base, len)
    ensures M.CanSlice(s, i, base, len)
    ensures var x, a1 := s.mmap[i], M.Slice(s, i, base, len).a;
            if AtItsEnd(x, base, len) then a1 == s.a else Holed(s.a, x.region, a1, base, base + len)
  {
    hide M.MmapOk, A.Inv, Pg, CanUnmap, Unmap, PagesFromSize, PagesizeAlign, A.CutFront, A.CutMiddle, A.SetAddr,
         M.CanSlice, Holed, M.Live, R.Range, R.Overlay, M.Full, MapIn;
    var x := s.mmap[i];
    M.LiveAt(s, zone, i);
    M.InvOf(s, zone);
    A.ListCount(s.a);
    M.SliceKeeps(s, zone, i, base, len);
    if base == x.addr {
      M.PageArithmetic(x.addr, len);
      M.SliceFrontKeeps(s, zone, i, len);
      M.UnmapPartKeeps(s, zone, i, x.addr, PagesFromSize(len));
      FrontHoled(s.a, x.region, len);
    } else if Contains(x, base + len) {
      M.LengthMinus(base, x.addr);
      M.PageArithmetic(x.addr, len);
      M.SliceMiddleKeeps(s, zone, i, base - x.addr, len);
      M.MiddleValue(s, zone, i, base - x.addr, len, SetLength(x, base - x.addr), M.TailOf(s, x, base - x.addr, len));
      MiddleHoled(s.a, x.region, base - x.addr, len, base + len);
    } else {
      M.SliceEndKeeps(s, zone, i, base);
      M.UnmapPartKeeps(s, zone, i, base, PagesFromSize(x.addr + x.length - base));
    }
  }

  lemma SlicedAtHost(s: Heap, zone: M.Zone, i: nat, base: nat, len: nat)
    requires FixedInside(s, zone, i, base, len) && AtHost(s)
    ensures M.CanSlice(s, i, base, len)
    ensures var s1 := M.Slice(s, i, base, len);
            AtHost(s1) && A.Inv(s1.a) && s1.m == s.m - R.Range(Pg(base), len / 0x1000) && s1.a.chunks == s.a.chunks
  {
    hide M.MmapOk, A.Inv, Pg, M.CanSlice, M.Slice, M.Frame, M.ClearOf, A.InSomeChunk, M.Live, R.Range;
    M.SliceKeeps(s, zone, i, base, len);
    var x, s1 := s.mmap[i], M.Slice(s, i, base, len);
    M.InvOf(s1, zone);
    M.InvOf(s, zone);
    M.LiveAt(s, zone, i);
    SliceHoles(s, zone, i, base, len);
    forall p | p in s1.m && A.InSomeChunk(s1.a.chunks, 0x1000 * p) ensures Backed(s1.a, 0x1000 * p) {
      var g: nat :| g in s.a.used && g < |s.a.regions| && A.Holds(s.a.regions[g], 0x1000 * p);
      FrontHolds(base, len, p);
      NotInHole(base, len, p, s.m);
      assert g != x.region && !AtItsEnd(x, base, len) ==> M.RegionStays(s.a, s1.a, g);
    }
  }

  lemma NotInHole(base: nat, len: nat, p: nat, m: P.PageMap)
    requires p in m - R.Range(Pg(base), len / 0x1000)
    ensures p in m && !R.InRange(Pg(base), len / 0x1000, p)
  {
    R.RangeIs(Pg(base), len / 0x1000, p);
  }

  /** MAP_FIXED inside a mapping at home: the next mmap without MAP_FIXED may still count on its host
      range if and only if the hole lies at the end of the mapping, where the region keeps it, or the new
      region is the hole itself. */
  lemma FixedKeepsIff(s: Heap, zone: M.Zone, i: nat, q: M.Request, host: nat, s1: Heap, r: A.Allocated, s': Heap)
    requires FixedInside(s, zone, i, q.addr, q.length) && AtHost(s) && q.addr > 0
    requires M.CanSlice(s, i, q.addr, q.length) && s1 == M.Slice(s, i, q.addr, q.length) && NewRange(s1, q.length, host)
    requires A.GrantsAt(s1.a, q.length, host, r) && r.h < |r.s.regions|
    requires s' == M.CreateIn(s1, r, q.addr, q.length, q.prot, q.anon, q.fd, q.offset)
    ensures AtHost(s') <==> AtItsEnd(s.mmap[i], q.addr, q.length) || r.s.regions[r.h].host == q.addr
  {
    hide M.MmapOk, A.Inv, Pg, M.CanSlice, M.Slice, A.GrantsAt, NewRange, A.Serves, M.CreateIn, R.Overlay, AtHost,
         A.SetAddr;
    M.InvOf(s, zone);
    M.LiveAt(s, zone, i);
    SlicedAtHost(s, zone, i, q.addr, q.length);
    GrantedChunks(s1.a, q.length, host, r);
    FixedValue(s1, r, q);
    HoleBacked(s, zone, i, q.addr, q.length, r, s'.a);
    FixedPages(s1, q, host, r, s', s.a, s.mmap[i].region);
  }

  lemma FixedValue(s1: Heap, r: A.Allocated, q: M.Request)
    requires A.Serves(s1.a, q.length, r) && q.length % 0x1000 == 0 && q.length > 0 && q.addr > 0
    ensures r.h < |r.s.regions|
    ensures var s' := M.CreateIn(s1, r, q.addr, q.length, q.prot, q.anon, q.fd, q.offset);
            && s'.a == A.SetAddr(r.s, r.h, q.addr) && s'.a.chunks == r.s.chunks
            && s'.m == R.Overlay(s1.m, Pg(q.addr), r.s.regions[r.h].host, q.length / 0x1000,
                                 Opts(q.prot.write, q.prot.exec))
  {
    hide R.Overlay, FindSame, Pg;
    M.PageArithmetic(0, q.length);
  }

  /** Every page of the hole is backed. */
  ghost predicate AllBacked(a: A.Alloc, base: nat, len: nat) {
    forall p: nat | R.InRange(Pg(base), len / 0x1000, p) :: Backed(a, 0x1000 * p)
  }

  /** When the pages of the hole are backed again. */
  lemma HoleBacked(s: Heap, zone: M.Zone, i: nat, base: nat, len: nat, r: A.Allocated, a': A.Alloc)
    requires FixedInside(s, zone, i, base, len) && M.CanSlice(s, i, base, len)
    requires A.Serves(M.Slice(s, i, base, len).a, len, r) && a' == A.SetAddr(r.s, r.h, base)
    ensures AllBacked(a', base, len) <==> AtItsEnd(s.mmap[i], base, len) || r.s.regions[r.h].host == base
  {
    hide M.MmapOk, A.Inv, Pg, M.CanSlice, M.Slice, A.Serves, A.SetAddr, M.Live, Backed;
    A.HandleOf(M.Slice(s, i, base, len).a, len, r);
    var x, a1, t := s.mmap[i], M.Slice(s, i, base, len).a, r.s.regions[r.h].host;
    M.LiveAt(s, zone, i);
    SliceHoles(s, zone, i, base, len);
    SizeIs(a1, len, r);
    forall p: nat | R.InRange(Pg(base), len / 0x1000, p)
      ensures Backed(a', 0x1000 * p) <==> AtItsEnd(x, base, len) || t <= 0x1000 * p < t + len
    {
      FrontHolds(base, len, p);
      BackedAfter(a1, len, r, base, 0x1000 * p);
      if AtItsEnd(x, base, len) {
        OwnBacked(s, zone, i, 0x1000 * p);
      }
    }
    if AllBacked(a', base, len) && !AtItsEnd(x, base, len) {
      SameRange(base, t, len);
    }
    if t == base {
      forall p: nat | R.InRange(Pg(base), len / 0x1000, p) ensures Backed(a', 0x1000 * p) {
        FrontHolds(base, len, p);
      }
    }
  }

  lemma OwnBacked(s: Heap, zone: M.Zone, i: nat, y: nat)
    requires M.MmapOk(s, zone) && M.Own(s, zone, i) && s.mmap[i].region < |s.a.regions|
    requires A.Holds(s.a.regions[s.mmap[i].region], y)
    ensures Backed(s.a, y)
  {
    HR.OwnUsed(s, zone, i);
  }

  /** A range of the same length that holds every page is the same range. */
  lemma SameRange(base: nat, t: nat, len: nat)
    requires base % 0x1000 == 0 && t % 0x1000 == 0 && len % 0x1000 == 0 && len > 0
    requires forall p: nat | R.InRange(Pg(base), len / 0x1000, p) :: t <= 0x1000 * p < t + len
    ensures t == base
  {
    var b, n, c := Pg(base), len / 0x1000, t / 0x1000;
    assert base == 0x1000 * b && len == 0x1000 * n && t == 0x1000 * c;
    assert R.InRange(Pg(base), len / 0x1000, b) && R.InRange(Pg(base), len / 0x1000, b + n - 1);
  }

  /** All other pages are backed as before. */
  lemma FixedPages(s1: Heap, q: M.Request, host: nat, r: A.Allocated, s': Heap, a: A.Alloc, h: nat)
    requires AtHost(s1) && A.Inv(s1.a) && NewRange(s1, q.length, host) && A.GrantsAt(s1.a, q.length, host, r)
    requires A.Serves(s1.a, q.length, r) && q.length % 0x1000 == 0 && q.length > 0 && q.addr % 0x1000 == 0
    requires s'.a == A.SetAddr(r.s, r.h, q.addr) && s'.a.chunks == r.s.chunks
    requires s'.m == R.Overlay(s1.m, Pg(q.addr), r.s.regions[r.h].host, q.length / 0x1000,
                               Opts(q.prot.write, q.prot.exec))
    requires A.Inv(a) && h < |a.regions| && a.regions[h].host <= q.addr && s1.a.chunks == a.chunks
    requires q.addr + q.length <= a.regions[h].host + a.regions[h].size
    ensures AtHost(s') <==> AllBacked(s'.a, q.addr, q.length)
  {
    hide A.Inv, Pg, A.GrantsAt, NewRange, A.Serves, A.SetAddr, Backed, A.InSomeChunk;
    var u, n := Pg(q.addr), q.length / 0x1000;
    forall p | p in s'.m && A.InSomeChunk(s'.a.chunks, 0x1000 * p) && !R.InRange(u, n, p)
      ensures Backed(s'.a, 0x1000 * p)
    {
      OldBacked(s1, q.length, host, r, p);
      BackedAfter(s1.a, q.length, r, q.addr, 0x1000 * p);
    }
    forall p: nat | R.InRange(u, n, p) ensures p in s'.m && A.InSomeChunk(s'.a.chunks, 0x1000 * p) {
      FrontHolds(q.addr, q.length, p);
      HeldIsInChunk(a, h, 0x1000 * p);
      ChunkStays(s1.a, q.length, host, r, 0x1000 * p);
    }
  }

  lemma ChunkStays(a: A.Alloc, length: nat, host: nat, r: A.Allocated, x: nat)
    requires A.Inv(a) && length > 0 && A.GrantsAt(a, length, host, r) && A.InSomeChunk(a.chunks, x)
    ensures A.InSomeChunk(r.s.chunks, x)
  {
    hide A.Inv, A.FindList, A.GrantsAt, A.GrowSize, A.Serves;
    GrantedChunks(a, length, host, r);
    var j: nat :| j < |a.chunks| && C.ContainsHost(a.chunks[j], x);
    assert r.s.chunks[j] == a.chunks[j];
  }
}
