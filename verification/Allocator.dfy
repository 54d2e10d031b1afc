/** The region allocator on values (src/region_manager.cc, src/region.cc): an arena of region
    records, the list of allocated ones and 17 free lists by size class. A handle is the index
    of a record and stands for the shared pointer the code passes around. */
module Allocator {
  import opened PageArith
  import C = Chunks

  const N_FREELISTS: nat := 17

  /** ELKVM_SYSTEM_MEMGROW */
  const MEMGROW: nat := 0x800_0000

  datatype Region = Region(host: nat, addr: nat, size: nat, free: bool)

  datatype Alloc = Alloc(regions: seq<Region>, used: seq<nat>, freelists: seq<seq<nat>>, chunks: seq<C.Chunk>)

  predicate Holds(r: Region, a: nat) { r.host <= a < r.host + r.size }

  /** get_freelist_idx */
  function FreelistIdx(size: nat): (k: nat)
    ensures k < N_FREELISTS
  {
    if size <= 0x1000 then 0
    else if size <= 0x2000 then 1
    else if size <= 0x4000 then 2
    else if size <= 0x8000 then 3
    else if size <= 0x1_0000 then 4
    else if size <= 0x2_0000 then 5
    else if size <= 0x4_0000 then 6
    else if size <= 0x8_0000 then 7
    else if size <= 0x10_0000 then 8
    else if size <= 0x20_0000 then 9
    else if size <= 0x40_0000 then 10
    else if size <= 0x80_0000 then 11
    else if size <= 0x100_0000 then 12
    else if size <= 0x200_0000 then 13
    else if size <= 0x400_0000 then 14
    else if size <= 0x800_0000 then 15
    else 16
  }

  /** Class k below the last one ends at 2^k pages, and each class starts where the one before
      it ends. */
  lemma FreelistIdxBounds(size: nat)
    ensures var k := FreelistIdx(size);
            (k < 16 ==> size <= 0x1000 * Pow2(k)) && (k > 0 ==> size > 0x1000 * Pow2(k - 1))
  {
    assert Pow2(4) == 16;
    Pow2Add(4, 4);
    Pow2Add(8, 4);
    assert Pow2(8) == 256 && Pow2(12) == 4096;
    assert Pow2(7) == 128 && Pow2(6) == 64 && Pow2(5) == 32;
    assert Pow2(11) == 2048 && Pow2(10) == 1024 && Pow2(9) == 512;
    assert Pow2(13) == 8192 && Pow2(14) == 16384 && Pow2(15) == 32768;
  }

  lemma FreelistIdxMonotone(a: nat, b: nat)
    requires a <= b
    ensures FreelistIdx(a) <= FreelistIdx(b)
  {
  }

  // ----- region slicing

  /** slice_begin: the part handed out and what the region keeps. */
  function SliceTaken(r: Region, size: nat): Region { Region(r.host, 0, PagesizeAlign(size), true) }

  function SliceRest(r: Region, size: nat): Region
    requires PagesizeAlign(size) <= r.size
  {
    var n := PagesizeAlign(size);
    r.(host := r.host + n, size := r.size - n, addr := if r.addr != 0 then r.addr + n else 0)
  }

  /** slice_center: the region keeps the part below off; the tail behind the hole and the hole
      become regions. */
  function SliceTail(r: Region, off: nat, len: nat): Region
    requires off + len <= r.size
  {
    Region(r.host + off + len, r.addr + off, r.size - off - len, true)
  }

  function SliceHole(r: Region, off: nat, len: nat): Region { Region(r.host + off, 0, len, true) }

  // ----- the invariant

  ghost predicate NoDup(l: seq<nat>) { forall i, j | 0 <= i < j < |l| :: l[i] != l[j] }

  predicate WellFormed(r: Region) {
    r.host > 0 && r.size > 0 && r.host % 0x1000 == 0 && r.size % 0x1000 == 0
  }

  predicate Apart(r: Region, q: Region) { r.host + r.size <= q.host || q.host + q.size <= r.host }

  predicate InChunk(c: C.Chunk, r: Region) { c.host <= r.host && r.host + r.size <= c.host + c.size }

  ghost predicate UsedOk(s: Alloc, loose: set<nat>, h: nat) {
    h < |s.regions| && h !in loose && !s.regions[h].free
  }

  ghost predicate FreeOk(s: Alloc, loose: set<nat>, k: nat, h: nat) {
    h < |s.regions| && h !in loose && s.regions[h].free && s.regions[h].addr == 0 && FreelistIdx(s.regions[h].size) == k
  }

  ghost predicate InItsList(s: Alloc, h: nat)
    requires |s.freelists| == N_FREELISTS && h < |s.regions|
  {
    if s.regions[h].free then h in s.freelists[FreelistIdx(s.regions[h].size)] else h in s.used
  }

  /** Every region is in the one list its flag and size call for; the loose handles are in
      none. */
  ghost predicate Listed(s: Alloc, loose: set<nat>) {
    && |s.freelists| == N_FREELISTS
    && NoDup(s.used)
    && (forall k | 0 <= k < N_FREELISTS :: NoDup(s.freelists[k]))
    && (forall h | h in s.used :: UsedOk(s, loose, h))
    && (forall k, h | 0 <= k < N_FREELISTS && h in s.freelists[k] :: FreeOk(s, loose, k, h))
    && (forall h: nat | h < |s.regions| && h !in loose :: InItsList(s, h))
  }

  ghost predicate Owned(rs: seq<Region>, a: nat) { exists h: nat :: h < |rs| && Holds(rs[h], a) }

  ghost predicate InSomeChunk(cs: seq<C.Chunk>, a: nat) { exists k: nat :: k < |cs| && C.ContainsHost(cs[k], a) }

  /** Conservation: the regions are pairwise disjoint and their union is that of the chunks. */
  ghost predicate Partition(rs: seq<Region>, cs: seq<C.Chunk>) {
    && (forall h: nat | h < |rs| :: WellFormed(rs[h]))
    && (forall h: nat, g: nat | h < g < |rs| :: Apart(rs[h], rs[g]))
    && (forall h: nat | h < |rs| :: exists k: nat :: k < |cs| && InChunk(cs[k], rs[h]))
    && (forall a: nat | InSomeChunk(cs, a) :: Owned(rs, a))
  }

  ghost predicate InvExcept(s: Alloc, loose: set<nat>) { Listed(s, loose) && Partition(s.regions, s.chunks) }

  ghost predicate Inv(s: Alloc) { InvExcept(s, {}) }

  // ----- splitting a region record

  /** Replacing a region by pieces that tile it keeps the partition. */
  lemma SplitKeeps(rs: seq<Region>, cs: seq<C.Chunk>, h: nat, keep: Region, new1: Region)
    requires Partition(rs, cs) && h < |rs| && WellFormed(keep) && WellFormed(new1) && Apart(keep, new1)
    requires forall a :: Holds(rs[h], a) <==> Holds(keep, a) || Holds(new1, a)
    ensures Partition(rs[h := keep] + [new1], cs)
  {
    var rs' := rs[h := keep] + [new1];
    Inside(rs[h], keep);
    Inside(rs[h], new1);
    forall i: nat | i < |rs'| ensures exists k: nat :: k < |cs| && InChunk(cs[k], rs'[i]) {
      var j := if i < |rs| then i else h;
      var k: nat :| k < |cs| && InChunk(cs[k], rs[j]);
      assert InChunk(cs[k], rs'[i]);
    }
    forall a: nat | InSomeChunk(cs, a) ensures Owned(rs', a) {
      var g: nat :| g < |rs| && Holds(rs[g], a);
      assert if g != h then Holds(rs'[g], a) else Holds(rs'[h], a) || Holds(rs'[|rs|], a);
    }
  }

  /** A piece of a region lies between its ends. */
  lemma Inside(r: Region, p: Region)
    requires WellFormed(r) && WellFormed(p) && forall a | Holds(p, a) :: Holds(r, a)
    ensures r.host <= p.host && p.host + p.size <= r.host + r.size
  {
    assert Holds(p, p.host);
    assert Holds(p, p.host + p.size - 1);
  }

  // ----- primitive steps

  /** Region::slice_begin on the record of h; the part handed out gets the next handle. */
  function SliceBegin(s: Alloc, h: nat, size: nat): Alloc
    requires h < |s.regions| && PagesizeAlign(size) <= s.regions[h].size
  {
    s.(regions := s.regions[h := SliceRest(s.regions[h], size)] + [SliceTaken(s.regions[h], size)])
  }

  /** Region::slice_center on the record of h; the tail and the hole get the next handles. */
  function SliceCenter(s: Alloc, h: nat, off: nat, len: nat): Alloc
    requires h < |s.regions| && off + len <= s.regions[h].size
  {
    var r := s.regions[h];
    s.(regions := s.regions[h := r.(size := off)] + [SliceTail(r, off, len), SliceHole(r, off, len)])
  }

  /** add_free_region */
  function AddFree(s: Alloc, h: nat): Alloc
    requires h < |s.regions| && |s.freelists| == N_FREELISTS
  {
    var k := FreelistIdx(s.regions[h].size);
    s.(freelists := s.freelists[k := s.freelists[k] + [h]])
  }

  /** use_region */
  function Use(s: Alloc, h: nat): Alloc
    requires h < |s.regions|
  {
    s.(regions := s.regions[h := s.regions[h].(free := false)], used := s.used + [h])
  }

  /** A region that is in no free list may be cut, and new regions start out loose. */
  lemma CutListed(s: Alloc, loose: set<nat>, s': Alloc, loose': set<nat>, h: nat)
    requires Listed(s, loose) && h < |s.regions| <= |s'.regions|
    requires s'.used == s.used && s'.freelists == s.freelists
    requires forall g: nat | g < |s.regions| && g != h :: s'.regions[g] == s.regions[g]
    requires h in loose || (!s.regions[h].free && !s'.regions[h].free)
    requires loose <= loose' && (forall g | g in loose' - loose :: g >= |s.regions|)
    requires forall g: nat | |s.regions| <= g < |s'.regions| :: g in loose'
    ensures Listed(s', loose')
  {
    forall g | g in s'.used ensures UsedOk(s', loose', g) {
      assert UsedOk(s, loose, g);
      assert g !in loose' - loose;
    }
    forall k, g | 0 <= k < N_FREELISTS && g in s'.freelists[k] ensures FreeOk(s', loose', k, g) {
      assert FreeOk(s, loose, k, g);
      assert g !in loose' - loose;
    }
    forall g: nat | g < |s'.regions| && g !in loose' ensures InItsList(s', g) {
      assert InItsList(s, g);
    }
  }

  lemma SliceBeginKeeps(s: Alloc, loose: set<nat>, h: nat, size: nat)
    requires InvExcept(s, loose) && h < |s.regions| && (h in loose || !s.regions[h].free)
    requires 0 < size && PagesizeAlign(size) < s.regions[h].size
    ensures InvExcept(SliceBegin(s, h, size), loose + {|s.regions|})
    ensures var r, n := s.regions[h], 0x1000 * ((size + 0xFFF) / 0x1000);
            n < r.size
            && SliceBegin(s, h, size).regions ==
               s.regions[h := Region(r.host + n, if r.addr == 0 then 0 else r.addr + n, r.size - n, r.free)]
               + [Region(r.host, 0, n, true)]
  {
    var r, s' := s.regions[h], SliceBegin(s, h, size);
    SplitKeeps(s.regions, s.chunks, h, SliceRest(r, size), SliceTaken(r, size));
    CutListed(s, loose, s', loose + {|s.regions|}, h);
  }

  lemma SliceCenterKeeps(s: Alloc, loose: set<nat>, h: nat, off: nat, len: nat)
    requires InvExcept(s, loose) && h < |s.regions| && (h in loose || !s.regions[h].free)
    requires 0 < off && 0 < len && off % 0x1000 == 0 && len % 0x1000 == 0 && off + len < s.regions[h].size
    ensures InvExcept(SliceCenter(s, h, off, len), loose + {|s.regions|, |s.regions| + 1})
    ensures var r := s.regions[h];
            SliceCenter(s, h, off, len).regions ==
            s.regions[h := Region(r.host, r.addr, off, r.free)]
            + [Region(r.host + off + len, r.addr + off, r.size - off - len, true), Region(r.host + off, 0, len, true)]
  {
    var r, s' := s.regions[h], SliceCenter(s, h, off, len);
    var low := Region(r.host, r.addr, off + len, r.free);
    var rs1 := s.regions[h := low] + [SliceTail(r, off, len)];
    SplitKeeps(s.regions, s.chunks, h, low, SliceTail(r, off, len));
    SplitKeeps(rs1, s.chunks, h, r.(size := off), SliceHole(r, off, len));
    assert rs1[h := r.(size := off)] + [SliceHole(r, off, len)] == s'.regions;
    CutListed(s, loose, s', loose + {|s.regions|, |s.regions| + 1}, h);
  }

  lemma AddFreeKeeps(s: Alloc, loose: set<nat>, h: nat)
    requires InvExcept(s, loose) && h in loose && h < |s.regions| && s.regions[h].free && s.regions[h].addr == 0
    ensures InvExcept(AddFree(s, h), loose - {h})
  {
    var s' := AddFree(s, h);
    var j := FreelistIdx(s.regions[h].size);
    assert h in s.freelists[j] ==> FreeOk(s, loose, j, h);
    forall g | g in s'.used ensures UsedOk(s', loose - {h}, g) {
      assert UsedOk(s, loose, g);
    }
    forall k, g | 0 <= k < N_FREELISTS && g in s'.freelists[k] ensures FreeOk(s', loose - {h}, k, g) {
      assert g != h ==> FreeOk(s, loose, k, g);
    }
    forall g: nat | g < |s'.regions| && g !in loose - {h} ensures InItsList(s', g) {
      assert g != h ==> InItsList(s, g);
    }
  }

  lemma UseKeeps(s: Alloc, loose: set<nat>, h: nat)
    requires InvExcept(s, loose) && h in loose && h < |s.regions|
    ensures InvExcept(Use(s, h), loose - {h})
  {
    var s' := Use(s, h);
    assert h in s.used ==> UsedOk(s, loose, h);
    RelabelKeeps(s.regions, s.chunks, h, s.regions[h].(free := false));
    forall g | g in s'.used ensures UsedOk(s', loose - {h}, g) {
      assert g != h ==> UsedOk(s, loose, g);
    }
    forall k, g | 0 <= k < N_FREELISTS && g in s'.freelists[k] ensures FreeOk(s', loose - {h}, k, g) {
      assert FreeOk(s, loose, k, g);
    }
    forall g: nat | g < |s'.regions| && g !in loose - {h} ensures InItsList(s', g) {
      assert g != h ==> InItsList(s, g);
    }
  }

  /** Flag and guest address do not matter to the partition. */
  lemma RelabelKeeps(rs: seq<Region>, cs: seq<C.Chunk>, h: nat, r: Region)
    requires Partition(rs, cs) && h < |rs| && r.host == rs[h].host && r.size == rs[h].size
    ensures Partition(rs[h := r], cs)
  {
    var rs' := rs[h := r];
    forall i: nat | i < |rs'| ensures exists k: nat :: k < |cs| && InChunk(cs[k], rs'[i]) {
      var k: nat :| k < |cs| && InChunk(cs[k], rs[i]);
      assert InChunk(cs[k], rs'[i]);
    }
    forall a: nat | InSomeChunk(cs, a) ensures Owned(rs', a) {
      var g: nat :| g < |rs| && Holds(rs[g], a);
      assert Holds(rs'[g], a);
    }
  }

  // ----- find_free_region

  /** First position in a list whose region has at least `size` bytes, -1 if none. */
  function FirstFit(rs: seq<Region>, l: seq<nat>, size: nat): (p: int)
    ensures -1 <= p < |l|
    ensures p >= 0 ==> l[p] < |rs| && rs[l[p]].size >= size
    ensures forall i | 0 <= i < (if p < 0 then |l| else p) :: l[i] < |rs| ==> rs[l[i]].size < size
  {
    if |l| == 0 then -1
    else if l[0] < |rs| && rs[l[0]].size >= size then 0
    else
      var p := FirstFit(rs, l[1..], size);
      if p < 0 then -1 else p + 1
  }

  /** The first list from k on that holds a fit; N_FREELISTS if there is none. */
  function FirstList(s: Alloc, k: nat, size: nat): (j: nat)
    requires |s.freelists| == N_FREELISTS && k <= N_FREELISTS
    ensures k <= j <= N_FREELISTS
    ensures j < N_FREELISTS ==> FirstFit(s.regions, s.freelists[j], size) >= 0
    ensures forall i | k <= i < j :: FirstFit(s.regions, s.freelists[i], size) < 0
    decreases N_FREELISTS - k
  {
    if k == N_FREELISTS || FirstFit(s.regions, s.freelists[k], size) >= 0 then k else FirstList(s, k + 1, size)
  }

  function FindList(s: Alloc, size: nat): (k: nat)
    requires |s.freelists| == N_FREELISTS
    ensures FreelistIdx(size) <= k <= N_FREELISTS
  {
    FirstList(s, FreelistIdx(size), size)
  }

  /** The region that find_free_region takes. */
  function FoundRegion(s: Alloc, size: nat): (h: nat)
    requires |s.freelists| == N_FREELISTS && FindList(s, size) < N_FREELISTS
    ensures h < |s.regions| && s.regions[h].size >= size
  {
    var l := s.freelists[FindList(s, size)];
    l[FirstFit(s.regions, l, size)]
  }

  function RemoveAt(l: seq<nat>, p: nat): seq<nat>
    requires p < |l|
  {
    l[..p] + l[p + 1..]
  }

  /** find_free_region, once it has found a list. */
  function TakeFound(s: Alloc, size: nat): Alloc
    requires |s.freelists| == N_FREELISTS && FindList(s, size) < N_FREELISTS
  {
    var k := FindList(s, size);
    s.(freelists := s.freelists[k := RemoveAt(s.freelists[k], FirstFit(s.regions, s.freelists[k], size))])
  }

  lemma RemoveAtMembers(l: seq<nat>, p: nat)
    requires p < |l| && NoDup(l)
    ensures NoDup(RemoveAt(l, p)) && forall h :: h in RemoveAt(l, p) <==> h in l && h != l[p]
  {
    var l' := RemoveAt(l, p);
    assert forall i | 0 <= i < |l'| :: l'[i] == l[if i < p then i else i + 1];
    forall h | h in l && h != l[p] ensures h in l' {
      var i :| 0 <= i < |l| && l[i] == h;
      assert l'[if i < p then i else i - 1] == h;
    }
  }

  /** The search is complete and exact: it fails only when no free region is large enough,
      otherwise its choice is a free region that is large enough, and no free region of a
      smaller class is. */
  lemma FindFreeComplete(s: Alloc, size: nat)
    requires Inv(s)
    ensures FindList(s, size) == N_FREELISTS <==>
            forall h: nat | h < |s.regions| && s.regions[h].free :: s.regions[h].size < size
    ensures FindList(s, size) < N_FREELISTS ==>
            var h := FoundRegion(s, size);
            && h < |s.regions| && s.regions[h].free && s.regions[h].size >= size
            && forall g: nat | g < |s.regions| && s.regions[g].free && s.regions[g].size >= size ::
                 FreelistIdx(s.regions[h].size) <= FreelistIdx(s.regions[g].size)
  {
    var j := FindList(s, size);
    forall g: nat | g < |s.regions| && s.regions[g].free && s.regions[g].size >= size
      ensures j <= FreelistIdx(s.regions[g].size)
    {
      FreelistIdxMonotone(size, s.regions[g].size);
      assert InItsList(s, g);
    }
    if j < N_FREELISTS {
      assert FreeOk(s, {}, j, FoundRegion(s, size));
    }
  }

  lemma TakeFoundKeeps(s: Alloc, size: nat)
    requires Inv(s) && FindList(s, size) < N_FREELISTS
    ensures InvExcept(TakeFound(s, size), {FoundRegion(s, size)})
  {
    var k, h, s' := FindList(s, size), FoundRegion(s, size), TakeFound(s, size);
    RemoveAtMembers(s.freelists[k], FirstFit(s.regions, s.freelists[k], size));
    assert FreeOk(s, {}, k, h);
    forall g | g in s'.used ensures UsedOk(s', {h}, g) {
      assert UsedOk(s, {}, g);
    }
    forall j, g | 0 <= j < N_FREELISTS && g in s'.freelists[j] ensures FreeOk(s', {h}, j, g) {
      assert FreeOk(s, {}, j, g);
    }
    forall g: nat | g < |s'.regions| && g !in {h} ensures InItsList(s', g) {
      assert InItsList(s, g);
    }
  }

  // ----- add_chunk

  function GrowSize(size: nat): (r: nat)
    ensures r % 0x1000 == 0 && size <= r && 0x800_0000 <= r && (r == 0x800_0000 || r < size + 0x1000)
  {
    if size > MEMGROW then PagesizeAlign(size) else MEMGROW
  }

  /** add_chunk, given the chunk that create_mem_chunk made. */
  function AddChunk(s: Alloc, c: C.Chunk): Alloc
    requires |s.freelists| == N_FREELISTS
  {
    AddFree(s.(regions := s.regions + [Region(c.host, 0, c.size, true)], chunks := s.chunks + [c]), |s.regions|)
  }

  /** posix_memalign's promise about a new chunk. */
  ghost predicate FreshChunk(s: Alloc, c: C.Chunk) { C.FreshRange(s.chunks, c.host, c.size) }

  lemma AddChunkPartition(rs: seq<Region>, cs: seq<C.Chunk>, c: C.Chunk)
    requires Partition(rs, cs) && C.FreshRange(cs, c.host, c.size)
    ensures Partition(rs + [Region(c.host, 0, c.size, true)], cs + [c])
  {
    var r := Region(c.host, 0, c.size, true);
    var rs', cs' := rs + [r], cs + [c];
    forall h: nat | h < |rs| ensures Apart(rs[h], r) && exists k: nat :: k < |cs'| && InChunk(cs'[k], rs[h]) {
      var k: nat :| k < |cs| && InChunk(cs[k], rs[h]);
      assert C.HostDisjoint(cs[k], c.host, c.size);
      assert InChunk(cs'[k], rs[h]);
    }
    assert InChunk(cs'[|cs|], r);
    forall a: nat | InSomeChunk(cs', a) ensures Owned(rs', a) {
      var k: nat :| k < |cs'| && C.ContainsHost(cs'[k], a);
      if k == |cs| {
        assert Holds(rs'[|rs|], a);
      } else {
        assert C.ContainsHost(cs[k], a);
        assert InSomeChunk(cs, a) && Owned(rs, a);
        var h: nat :| h < |rs| && Holds(rs[h], a);
        assert Holds(rs'[h], a);
      }
    }
  }

  lemma AddChunkKeeps(s: Alloc, c: C.Chunk)
    requires Inv(s) && FreshChunk(s, c)
    ensures Inv(AddChunk(s, c))
    ensures FindList(AddChunk(s, c), c.size) < N_FREELISTS
  {
    var n := |s.regions|;
    var s1 := s.(regions := s.regions + [Region(c.host, 0, c.size, true)], chunks := s.chunks + [c]);
    AddChunkPartition(s.regions, s.chunks, c);
    assert Listed(s1, {n}) by {
      forall g | g in s1.used ensures UsedOk(s1, {n}, g) { assert UsedOk(s, {}, g); }
      forall k, g | 0 <= k < N_FREELISTS && g in s1.freelists[k] ensures FreeOk(s1, {n}, k, g) {
        assert FreeOk(s, {}, k, g);
      }
      forall g: nat | g < |s1.regions| && g !in {n} ensures InItsList(s1, g) { assert InItsList(s, g); }
    }
    AddFreeKeeps(s1, {n}, n);
    assert {n} - {n} == {};
    FindFreeComplete(AddChunk(s, c), c.size);
    assert AddChunk(s, c).regions[n].free;
  }

  // ----- allocate_region

  datatype Allocated = Allocated(s: Alloc, h: nat)

  /** allocate_region behind the search: cut the found region when it is too large, and use
      the front. */
  function UseFront(s: Alloc, h: nat, size: nat): Allocated
    requires h < |s.regions| && |s.freelists| == N_FREELISTS
  {
    if s.regions[h].size > PagesizeAlign(size) then
      Allocated(Use(AddFree(SliceBegin(s, h, size), h), |s.regions|), |s.regions|)
    else Allocated(Use(s, h), h)
  }

  function Carve(s: Alloc, size: nat): Allocated
    requires |s.freelists| == N_FREELISTS && FindList(s, size) < N_FREELISTS
  {
    UseFront(TakeFound(s, size), FoundRegion(s, size), size)
  }

  /** allocate_region; c is the chunk that add_chunk makes if one is needed. */
  function Allocate(s: Alloc, size: nat, c: C.Chunk): Allocated
    requires |s.freelists| == N_FREELISTS
    requires FindList(s, size) == N_FREELISTS ==> FindList(AddChunk(s, c), size) < N_FREELISTS
  {
    if FindList(s, size) == N_FREELISTS then Carve(AddChunk(s, c), size) else Carve(s, size)
  }

  /** No region that is in use changes. */
  ghost predicate UsedStay(s: Alloc, s': Alloc) {
    forall h | h in s.used :: h < |s.regions| && h < |s'.regions| && s'.regions[h] == s.regions[h]
  }

  /** What a caller of allocate_region gets: the invariant, no change to any region in use, and
      a region that was not in use, of exactly the page-aligned size. */
  ghost predicate Serves(s: Alloc, size: nat, r: Allocated) {
    && Inv(r.s) && UsedStay(s, r.s) && r.s.used == s.used + [r.h] && r.h !in s.used
    && r.h < |r.s.regions| && r.s.regions[r.h].size == PagesizeAlign(size) && r.s.regions[r.h].addr == 0
    && !r.s.regions[r.h].free
  }

  lemma HandleOf(s: Alloc, size: nat, r: Allocated)
    requires Serves(s, size, r)
    ensures r.h < |r.s.regions|
  {
  }

  lemma CarveWhole(s: Alloc, s1: Alloc, h: nat, size: nat)
    requires Inv(s) && InvExcept(s1, {h}) && h < |s.regions| && h !in s.used
    requires s1.regions == s.regions && s1.used == s.used
    requires s.regions[h].size == PagesizeAlign(size) && s.regions[h].addr == 0
    ensures Serves(s, size, Allocated(Use(s1, h), h))
  {
    assert forall g | g in s.used :: UsedOk(s, {}, g);
    UseKeeps(s1, {h}, h);
    assert {h} - {h} == {};
  }

  lemma CarveCut(s: Alloc, s1: Alloc, h: nat, size: nat)
    requires Inv(s) && InvExcept(s1, {h}) && h < |s.regions| && h !in s.used && size > 0
    requires s1.regions == s.regions && s1.used == s.used && |s1.freelists| == N_FREELISTS
    requires s.regions[h].size > PagesizeAlign(size) && s.regions[h].addr == 0 && s.regions[h].free
    ensures Serves(s, size, Allocated(Use(AddFree(SliceBegin(s1, h, size), h), |s.regions|), |s.regions|))
  {
    assert forall g | g in s.used :: UsedOk(s, {}, g);
    var n := |s.regions|;
    hide Partition, Listed, FreelistIdx;
    SliceBeginKeeps(s1, {h}, h, size);
    var s2 := SliceBegin(s1, h, size);
    AddFreeKeeps(s2, {h} + {n}, h);
    assert {h} + {n} - {h} == {n};
    UseKeeps(AddFree(s2, h), {n}, n);
    assert {n} - {n} == {};
  }

  lemma FoundFacts(s: Alloc, size: nat)
    requires Inv(s) && size > 0 && FindList(s, size) < N_FREELISTS
    ensures |s.freelists| == N_FREELISTS
    ensures var h := FoundRegion(s, size);
            h < |s.regions| && h !in s.used && s.regions[h].free && s.regions[h].addr == 0
            && s.regions[h].size >= PagesizeAlign(size)
  {
    var h := FoundRegion(s, size);
    FindFreeComplete(s, size);
    assert FreeOk(s, {}, FindList(s, size), h);
    assert WellFormed(s.regions[h]);
    assert h in s.used ==> UsedOk(s, {}, h);
  }

  lemma CarveKeeps(s: Alloc, size: nat)
    requires Inv(s) && size > 0 && FindList(s, size) < N_FREELISTS
    ensures Serves(s, size, Carve(s, size)) && Carve(s, size).s.chunks == s.chunks
  {
    hide Inv, InvExcept, Serves, FindList, FoundRegion, PagesizeAlign;
    FoundFacts(s, size);
    var h, s1 := FoundRegion(s, size), TakeFound(s, size);
    TakeFoundKeeps(s, size);
    if s.regions[h].size > PagesizeAlign(size) {
      CarveCut(s, s1, h, size);
    } else {
      CarveWhole(s, s1, h, size);
    }
  }

  lemma ServesAfterChunk(s: Alloc, size: nat, c: C.Chunk, r: Allocated)
    requires Inv(s) && Serves(AddChunk(s, c), size, r)
    ensures Serves(s, size, r)
  {
    assert forall g | g in s.used :: UsedOk(s, {}, g);
  }

  /** allocate_region serves every request, from a new chunk if no free region is large enough. */
  lemma AllocateKeeps(s: Alloc, size: nat, c: C.Chunk)
    requires Inv(s) && size > 0
    requires FindList(s, size) == N_FREELISTS ==> FreshChunk(s, c) && c.size == GrowSize(size)
    ensures FindList(s, size) == N_FREELISTS ==> FindList(AddChunk(s, c), size) < N_FREELISTS
    ensures Serves(s, size, Allocate(s, size, c))
    ensures Allocate(s, size, c).s.chunks == if FindList(s, size) == N_FREELISTS then s.chunks + [c] else s.chunks
  {
    if FindList(s, size) == N_FREELISTS {
      ChunkServes(s, size, c);
      CarveKeeps(AddChunk(s, c), size);
      ServesAfterChunk(s, size, c, Carve(AddChunk(s, c), size));
    } else {
      CarveKeeps(s, size);
    }
  }

  /** r is the allocation that allocate_region makes, with the fresh chunk c if it needs one. */
  ghost predicate Grants(s: Alloc, size: nat, c: C.Chunk, r: Allocated) {
    && |s.freelists| == N_FREELISTS
    && (FindList(s, size) == N_FREELISTS ==>
          FreshChunk(s, c) && c.size == GrowSize(size) && FindList(AddChunk(s, c), size) < N_FREELISTS)
    && r == Allocate(s, size, c) && r.h < |r.s.regions|
  }

  /** And the host range of the chunk starts at host. */
  ghost predicate GrantsAt(s: Alloc, size: nat, host: nat, r: Allocated) {
    exists c: C.Chunk :: Grants(s, size, c, r) && (FindList(s, size) == N_FREELISTS ==> c.host == host)
  }

  lemma GrantsServes(s: Alloc, size: nat, c: C.Chunk, r: Allocated)
    requires Inv(s) && size > 0 && Grants(s, size, c, r)
    ensures Serves(s, size, r)
  {
    AllocateKeeps(s, size, c);
  }

  /** After add_chunk there is a region for the request. */
  lemma ChunkServes(s: Alloc, size: nat, c: C.Chunk)
    requires Inv(s) && FreshChunk(s, c) && c.size == GrowSize(size)
    ensures Inv(AddChunk(s, c)) && FindList(AddChunk(s, c), size) < N_FREELISTS
  {
    AddChunkKeeps(s, c);
    FindFreeComplete(AddChunk(s, c), size);
    FindFreeComplete(AddChunk(s, c), c.size);
  }

  // ----- free_region

  function IndexOf(l: seq<nat>, h: nat): (p: nat)
    requires h in l
    ensures p < |l| && l[p] == h && h !in l[..p]
  {
    if l[0] == h then 0 else 1 + IndexOf(l[1..], h)
  }

  function FreeRegion(s: Alloc, h: nat): Alloc
    requires h in s.used && h < |s.regions| && |s.freelists| == N_FREELISTS
  {
    AddFree(s.(used := RemoveAt(s.used, IndexOf(s.used, h)),
               regions := s.regions[h := s.regions[h].(free := true, addr := 0)]), h)
  }

  lemma FreeRegionKeeps(s: Alloc, h: nat)
    requires Inv(s) && h in s.used
    ensures h < |s.regions| && Inv(FreeRegion(s, h))
    ensures forall g :: g in FreeRegion(s, h).used <==> g in s.used && g != h
  {
    assert UsedOk(s, {}, h);
    var s1 := s.(used := RemoveAt(s.used, IndexOf(s.used, h)),
                 regions := s.regions[h := s.regions[h].(free := true, addr := 0)]);
    RemoveAtMembers(s.used, IndexOf(s.used, h));
    RelabelKeeps(s.regions, s.chunks, h, s.regions[h].(free := true, addr := 0));
    assert Listed(s1, {h}) by {
      forall g | g in s1.used ensures UsedOk(s1, {h}, g) { assert UsedOk(s, {}, g); }
      forall k, g | 0 <= k < N_FREELISTS && g in s1.freelists[k] ensures FreeOk(s1, {h}, k, g) {
        assert FreeOk(s, {}, k, g);
      }
      forall g: nat | g < |s1.regions| && g !in {h} ensures InItsList(s1, g) { assert InItsList(s, g); }
    }
    AddFreeKeeps(s1, {h}, h);
    assert {h} - {h} == {};
  }

  /** What freeing a region in use means for the others. */
  lemma FreedRegion(s: Alloc, h: nat)
    requires Inv(s) && h in s.used
    ensures h < |s.regions| && |s.freelists| == N_FREELISTS
    ensures var s' := FreeRegion(s, h);
            && Inv(s') && |s'.regions| == |s.regions| && s'.chunks == s.chunks && h !in s'.used && s'.regions[h].free
            && (forall g: nat | g < |s.regions| && g != h :: s'.regions[g] == s.regions[g])
            && (forall g | g in s.used && g != h :: g in s'.used && g < |s.regions|)
            && (forall g | g in s'.used :: g in s.used && g != h)
  {
    FreeRegionKeeps(s, h);
    UsedInBounds(s);
  }

  lemma UsedInBounds(s: Alloc)
    requires Inv(s)
    ensures forall g | g in s.used :: g < |s.regions|
  {
    forall g | g in s.used ensures g < |s.regions| {
      assert UsedOk(s, {}, g);
    }
  }

  /** Only one region holds an address. */
  lemma OneRegion(s: Alloc, h: nat, g: nat, x: nat)
    requires Inv(s) && h < |s.regions| && g < |s.regions| && Holds(s.regions[h], x) && Holds(s.regions[g], x)
    ensures h == g
  {
    assert h < g ==> Apart(s.regions[h], s.regions[g]);
    assert g < h ==> Apart(s.regions[g], s.regions[h]);
  }

  lemma ListCount(s: Alloc)
    requires Inv(s)
    ensures |s.freelists| == N_FREELISTS
  {
  }

  // ----- cutting a region that is in use

  /** The allocator's part of HeapManager::slice_begin: the front goes to the free lists. */
  function CutFront(s: Alloc, h: nat, len: nat): Alloc
    requires h < |s.regions| && PagesizeAlign(len) <= s.regions[h].size && |s.freelists| == N_FREELISTS
  {
    AddFree(SliceBegin(s, h, len), |s.regions|)
  }

  /** HeapManager::slice_region: the tail is in use, the hole goes to the free lists. */
  function CutMiddle(s: Alloc, h: nat, off: nat, len: nat): Alloc
    requires h < |s.regions| && off + len <= s.regions[h].size && |s.freelists| == N_FREELISTS
  {
    AddFree(Use(SliceCenter(s, h, off, len), |s.regions|), |s.regions| + 1)
  }

  function SetAddr(s: Alloc, h: nat, addr: nat): Alloc
    requires h < |s.regions|
  {
    s.(regions := s.regions[h := s.regions[h].(addr := addr)])
  }

  lemma CutFrontKeeps(s: Alloc, h: nat, len: nat)
    requires Inv(s) && h in s.used && len > 0
    requires h < |s.regions| && PagesizeAlign(len) < s.regions[h].size
    ensures Inv(CutFront(s, h, len)) && CutFront(s, h, len).used == s.used
  {
    assert UsedOk(s, {}, h);
    SliceBeginKeeps(s, {}, h, len);
    var n := |s.regions|;
    assert {} + {n} == {n} && {n} - {n} == {};
    AddFreeKeeps(SliceBegin(s, h, len), {n}, n);
  }

  lemma NotFree(s: Alloc, h: nat)
    requires Inv(s) && h in s.used
    ensures h < |s.regions| && !s.regions[h].free && |s.freelists| == N_FREELISTS
  {
    assert UsedOk(s, {}, h);
  }

  lemma CutMiddleKeeps(s: Alloc, h: nat, off: nat, len: nat)
    requires Inv(s) && h in s.used && h < |s.regions|
    requires 0 < off && 0 < len && off % 0x1000 == 0 && len % 0x1000 == 0 && off + len < s.regions[h].size
    ensures Inv(CutMiddle(s, h, off, len)) && CutMiddle(s, h, off, len).used == s.used + [|s.regions|]
  {
    hide Listed, Partition;
    NotFree(s, h);
    SliceCenterKeeps(s, {}, h, off, len);
    var n := |s.regions|;
    assert {} + {n, n + 1} == {n, n + 1} && {n, n + 1} - {n} == {n + 1} && {n + 1} - {n + 1} == {};
    UseKeeps(SliceCenter(s, h, off, len), {n, n + 1}, n);
    AddFreeKeeps(Use(SliceCenter(s, h, off, len), n), {n + 1}, n + 1);
  }

  lemma SetAddrKeeps(s: Alloc, h: nat, addr: nat)
    requires Inv(s) && h in s.used
    ensures h < |s.regions| && Inv(SetAddr(s, h, addr))
  {
    assert UsedOk(s, {}, h);
    var s' := SetAddr(s, h, addr);
    RelabelKeeps(s.regions, s.chunks, h, s.regions[h].(addr := addr));
    CutListed(s, {}, s', {}, h);
  }

  // ----- runs

  datatype Op =
    | AllocateOp(size: nat, c: C.Chunk)
    | FreeOp(h: nat)
    | CutFrontOp(h: nat, len: nat)
    | CutMiddleOp(h: nat, off: nat, len: nat)
    | SetAddrOp(h: nat, addr: nat)

  /** The asserts of the code, and posix_memalign's promise. */
  ghost predicate Enabled(s: Alloc, op: Op)
    requires |s.freelists| == N_FREELISTS
  {
    match op
    case AllocateOp(size, c) =>
      size > 0 && (FindList(s, size) == N_FREELISTS ==> FreshChunk(s, c) && c.size == GrowSize(size))
    case FreeOp(h) => h in s.used
    case CutFrontOp(h, len) => h in s.used && h < |s.regions| && len > 0 && PagesizeAlign(len) < s.regions[h].size
    case CutMiddleOp(h, off, len) =>
      && h in s.used && h < |s.regions| && 0 < off && 0 < len && off % 0x1000 == 0 && len % 0x1000 == 0
      && off + len < s.regions[h].size
    case SetAddrOp(h, addr) => h in s.used
  }

  ghost function Apply(s: Alloc, op: Op): Alloc
    requires Inv(s) && Enabled(s, op)
    ensures Inv(Apply(s, op))
  {
    match op
    case AllocateOp(size, c) => AllocateKeeps(s, size, c); Allocate(s, size, c).s
    case FreeOp(h) => FreeRegionKeeps(s, h); FreeRegion(s, h)
    case CutFrontOp(h, len) => CutFrontKeeps(s, h, len); CutFront(s, h, len)
    case CutMiddleOp(h, off, len) => CutMiddleKeeps(s, h, off, len); CutMiddle(s, h, off, len)
    case SetAddrOp(h, addr) => SetAddrKeeps(s, h, addr); SetAddr(s, h, addr)
  }

  ghost predicate Runs(s: Alloc, ops: seq<Op>, s': Alloc)
    requires Inv(s)
    decreases |ops|
  {
    if |ops| == 0 then s' == s else Enabled(s, ops[0]) && Runs(Apply(s, ops[0]), ops[1..], s')
  }

  /** Before the first chunk there is nothing. */
  ghost predicate Start(s: Alloc) {
    s.regions == [] && s.used == [] && s.chunks == [] && |s.freelists| == N_FREELISTS
    && forall k | 0 <= k < N_FREELISTS :: s.freelists[k] == []
  }

  lemma StartInv(s: Alloc)
    requires Start(s)
    ensures Inv(s)
  {
  }

  /** The first region ever allocated starts its chunk. */
  lemma FirstAllocation(s: Alloc, size: nat, c: C.Chunk)
    requires Start(s) && 0 < size && PagesizeAlign(size) < c.size && FreshChunk(s, c) && c.size == GrowSize(size)
    ensures FindList(s, size) == N_FREELISTS && FindList(AddChunk(s, c), size) < N_FREELISTS
    ensures var r := Allocate(s, size, c);
            r.h < |r.s.regions| && r.s.regions[r.h].host == c.host && r.s.used == [r.h]
  {
    hide *;
    StartSearch(s, size);
    StartChunk(s, size, c);
    CarveHost(AddChunk(s, c), size);
    AllocateIsCarve(s, size, c);
  }

  lemma StartSearch(s: Alloc, size: nat)
    requires Start(s)
    ensures |s.freelists| == N_FREELISTS && FindList(s, size) == N_FREELISTS
  {
    StartInv(s);
    FindFreeComplete(s, size);
  }

  lemma StartChunk(s: Alloc, size: nat, c: C.Chunk)
    requires Start(s) && FreshChunk(s, c) && c.size == GrowSize(size)
    ensures |s.freelists| == N_FREELISTS
    ensures var s1 := AddChunk(s, c);
            && |s1.freelists| == N_FREELISTS && FindList(s1, size) < N_FREELISTS && s1.used == []
            && s1.regions == [Region(c.host, 0, c.size, true)]
  {
    StartInv(s);
    hide FindList, Inv;
    ChunkServes(s, size, c);
  }

  lemma AllocateIsCarve(s: Alloc, size: nat, c: C.Chunk)
    requires |s.freelists| == N_FREELISTS && FindList(s, size) == N_FREELISTS
    requires FindList(AddChunk(s, c), size) < N_FREELISTS
    ensures Allocate(s, size, c) == Carve(AddChunk(s, c), size)
  {
  }

  /** The region handed out starts where the found one started. */
  lemma CarveHost(s: Alloc, size: nat)
    requires |s.freelists| == N_FREELISTS && FindList(s, size) < N_FREELISTS
    ensures var r := Carve(s, size);
            r.h < |r.s.regions| && r.s.regions[r.h].host == s.regions[FoundRegion(s, size)].host
            && r.s.used == s.used + [r.h]
  {
    hide FindList, FoundRegion, FirstFit;
  }

  /** Over every run of allocating, freeing and cutting: an address lies in a chunk exactly when
      it lies in a region, in one region only, and that region is in use or free as its flag
      says. */
  lemma {:induction false} RunConserves(s: Alloc, ops: seq<Op>, s': Alloc)
    requires Inv(s) && Runs(s, ops, s')
    ensures Inv(s')
    ensures forall a: nat :: InSomeChunk(s'.chunks, a) <==> Owned(s'.regions, a)
    ensures forall a: nat, h: nat, g: nat | h < |s'.regions| && g < |s'.regions|
              && Holds(s'.regions[h], a) && Holds(s'.regions[g], a) :: h == g
    ensures forall h: nat | h < |s'.regions| :: h in s'.used <==> !s'.regions[h].free
    decreases |ops|
  {
    if |ops| > 0 {
      RunConserves(Apply(s, ops[0]), ops[1..], s');
    } else {
      forall a: nat | Owned(s'.regions, a) ensures InSomeChunk(s'.chunks, a) {
        var h: nat :| h < |s'.regions| && Holds(s'.regions[h], a);
        var k: nat :| k < |s'.chunks| && InChunk(s'.chunks[k], s'.regions[h]);
        assert C.ContainsHost(s'.chunks[k], a);
      }
      forall a: nat, h: nat, g: nat | h < |s'.regions| && g < |s'.regions|
        && Holds(s'.regions[h], a) && Holds(s'.regions[g], a) ensures h == g
      {
        assert h < g ==> Apart(s'.regions[h], s'.regions[g]);
        assert g < h ==> Apart(s'.regions[g], s'.regions[h]);
      }
      forall h: nat | h < |s'.regions| ensures h in s'.used <==> !s'.regions[h].free {
        assert InItsList(s', h);
        assert h in s'.used ==> UsedOk(s', {}, h);
      }
    }
  }
}
