/** Five system calls behind which an mmap without MAP_FIXED finds its page taken: A = mmap of one page,
    B = mmap of three, munmap of A, MAP_FIXED on the second page of B, mmap of one page. The first
    two have been made, at the host addresses of their regions. */
module FixedExample {
  import C = Chunks
  import P = Pager
  import A = Allocator
  import R = PagerRanges
  import opened Mappings
  import M = MmapRuns
  import HR = HostRuns

  const RW: Prot := Prot(true, true, false)
  /** No page is kept for brk. */
  const ZONE: M.Zone := M.Zone(0, 0)

  /** Free lists with regions of one page only. */
  function Lists(l: seq<nat>): (ls: seq<seq<nat>>)
    ensures |ls| == A.N_FREELISTS && ls[0] == l && forall k | 0 < k < A.N_FREELISTS :: ls[k] == []
  {
    [l] + seq(16, k => [])
  }

  lemma ListsSet(l: seq<nat>, l': seq<nat>)
    ensures Lists(l)[0 := l'] == Lists(l')
  {
    assert forall k | 0 <= k < A.N_FREELISTS :: Lists(l)[0 := l'][k] == Lists(l')[k];
  }

  function Chunks(): seq<C.Chunk> { [C.Chunk(0x1_0000, 0, 0x4000, 0)] }

  /** A at 0x10000 and B behind it. */
  function Alloc0(): A.Alloc {
    A.Alloc([A.Region(0x1_0000, 0x1_0000, 0x1000, false), A.Region(0x1_1000, 0x1_1000, 0x3000, false)],
            [0, 1], Lists([]), Chunks())
  }

  function MapA(): Mapping { Mapping(0x1_0000, 0x1_0000, 0x1000, 1, RW, true, 0, 0, 0) }

  function MapB(): Mapping { Mapping(0x1_1000, 0x1_1000, 0x3000, 3, RW, true, 0, 0, 1) }

  function Home(p: nat): P.Page { P.Page(0x1000 * p, true, false) }

  ghost function Start(): Heap {
    Heap([], [MapA(), MapB()], 0, Alloc0(),
         map[0x10 := Home(0x10), 0x11 := Home(0x11), 0x12 := Home(0x12), 0x13 := Home(0x13)])
  }

  lemma Alloc0Inv()
    ensures A.Inv(Alloc0())
  {
    var a := Alloc0();
    assert a.regions[0] == A.Region(0x1_0000, 0x1_0000, 0x1000, false);
    assert a.regions[1] == A.Region(0x1_1000, 0x1_1000, 0x3000, false);
    assert A.InChunk(a.chunks[0], a.regions[0]) && A.InChunk(a.chunks[0], a.regions[1]);
    forall x: nat | A.InSomeChunk(a.chunks, x) ensures A.Owned(a.regions, x) {
      assert A.Holds(a.regions[0], x) || A.Holds(a.regions[1], x);
    }
    forall h: nat | h < |a.regions| ensures A.InItsList(a, h) {
      assert a.used[h] == h;
    }
  }

  lemma MapsLive()
    ensures M.Live(Alloc0(), Start().m, MapA()) && M.Live(Alloc0(), Start().m, MapB())
  {
    var a, m := Alloc0(), Start().m;
    assert a.used[0] == 0 && a.used[1] == 1;
    assert R.Range(0x10, 1) <= m.Keys && R.Range(0x11, 3) <= m.Keys;
    hide R.Range;
    M.CountFull(m, 0x10, 1);
    M.CountFull(m, 0x11, 3);
  }

  lemma StartOk()
    ensures M.MmapOk(Start(), ZONE) && HR.AtHost(Start())
  {
    hide A.Inv, M.Live;
    Alloc0Inv();
    MapsLive();
    var s := Start();
    assert M.Separate(s.mmap[0], s.mmap[1]);
    forall p | p in s.m ensures HR.Backed(s.a, 0x1000 * p) {
      assert s.a.used[0] == 0 && s.a.used[1] == 1;
      assert A.Holds(s.a.regions[0], 0x1000 * p) || A.Holds(s.a.regions[1], 0x1000 * p);
    }
  }

  // ----- munmap of A

  function Alloc1(): A.Alloc {
    A.Alloc([A.Region(0x1_0000, 0, 0x1000, true), A.Region(0x1_1000, 0x1_1000, 0x3000, false)],
            [1], Lists([0]), Chunks())
  }

  ghost function After1(): Heap {
    Heap([], [MapB()], 0, Alloc1(), map[0x11 := Home(0x11), 0x12 := Home(0x12), 0x13 := Home(0x13)])
  }

  lemma Freed()
    ensures 0 in Alloc0().used && A.FreeRegion(Alloc0(), 0) == Alloc1()
  {
    var a := Alloc0();
    assert a.used[0] == 0 && A.IndexOf(a.used, 0) == 0;
    assert A.RemoveAt(a.used, 0) == [1];
    assert a.regions[0 := a.regions[0].(free := true, addr := 0)] == Alloc1().regions;
    ListsSet([], [0]);
    assert a.freelists[0] + [0] == [0];
    assert A.FreeRegion(a, 0).freelists == Alloc1().freelists;
  }

  lemma Munmap()
    ensures M.Step(Start(), ZONE, M.Munmap(0, 0x1_0000, 1), After1())
  {
    hide A.FreeRegion;
    var s := Start();
    Freed();
    R.RangeHas(0x10, 0, 1);
    assert R.Range(0x10, 1) == {0x10};
    M.UnmapAllValue(s, 0, 0x1_0000, 1);
    assert Erase(s.mmap, 0) == [MapB()];
    assert s.m - R.Range(0x10, 1) == After1().m;
  }

  // ----- MAP_FIXED on the second page of B

  /** The hole is freed behind A. */
  function Alloc2(): A.Alloc {
    A.Alloc([A.Region(0x1_0000, 0, 0x1000, true), A.Region(0x1_1000, 0x1_1000, 0x1000, false),
             A.Region(0x1_3000, 0x1_3000, 0x1000, false), A.Region(0x1_2000, 0, 0x1000, true)],
            [1, 2], Lists([0, 3]), Chunks())
  }

  lemma Cut()
    ensures A.SetAddr(A.CutMiddle(Alloc1(), 1, 0x1000, 0x1000), 2, 0x1_3000) == Alloc2()
  {
    var a := Alloc1();
    var a' := A.SetAddr(A.CutMiddle(a, 1, 0x1000, 0x1000), 2, 0x1_3000);
    ListsSet([0], [0, 3]);
    assert a.freelists[0] + [3] == [0, 3];
    assert a'.freelists == Alloc2().freelists;
    assert a.used + [2] == [1, 2];
    assert a'.regions == Alloc2().regions;
  }

  function Request(): M.Request { M.Request(0x1_2000, 0x1000, RW, true, true, 0, 0) }

  /** First fit gives A to the fixed mapping. */
  function Alloc3(): A.Alloc {
    A.Alloc([A.Region(0x1_0000, 0, 0x1000, false), A.Region(0x1_1000, 0x1_1000, 0x1000, false),
             A.Region(0x1_3000, 0x1_3000, 0x1000, false), A.Region(0x1_2000, 0, 0x1000, true)],
            [1, 2, 0], Lists([3]), Chunks())
  }

  lemma Fit(c: C.Chunk)
    ensures A.FindList(Alloc2(), 0x1000) == 0 && A.Allocate(Alloc2(), 0x1000, c) == A.Allocated(Alloc3(), 0)
  {
    var a := Alloc2();
    assert A.FirstFit(a.regions, [0, 3], 0x1000) == 0;
    assert A.RemoveAt([0, 3], 0) == [3];
    ListsSet([0, 3], [3]);
    assert a.regions[0 := a.regions[0].(free := false)] == Alloc3().regions;
    assert a.used + [0] == Alloc3().used;
  }

  lemma Fixed() returns (s2: Heap, r: A.Allocated, s3: Heap)
    requires M.MmapOk(After1(), ZONE)
    ensures M.Step(After1(), ZONE, M.Mmap(Request(), s2, r), s3) && s3.a == A.SetAddr(Alloc3(), 0, 0x1_2000)
    ensures 0x12 in s3.m && s3.m[0x12].host == 0x1_0000
  {
    hide A.Inv, M.MmapOk, M.CanSlice, M.Slice, A.Serves, A.Allocate, M.CreateIn, A.FindList, A.SetAddr, A.CutMiddle,
         M.Frame;
    var s, q := After1(), Request();
    assert M.Own(s, ZONE, 0) && M.FindContaining(s.mmap, 0x1_2000) == 0 && M.FindExact(s.mmap, 0x1_2000, 0x1000) == -1;
    M.SliceKeeps(s, ZONE, 0, 0x1_2000, 0x1000);
    s2 := M.Slice(s, 0, 0x1_2000, 0x1000);
    SlicedAlloc(s2);
    M.InvOf(s2, ZONE);
    r := A.Allocated(Alloc3(), 0);
    var c := C.Chunk(1, 0, 1, 0);
    Fit(c);
    A.AllocateKeeps(s2.a, 0x1000, c);
    s3 := M.CreateIn(s2, r, 0x1_2000, 0x1000, RW, true, 0, 0);
    HR.FixedValue(s2, r, q);
  }

  lemma SlicedAlloc(s2: Heap)
    requires M.MmapOk(After1(), ZONE) && M.CanSlice(After1(), 0, 0x1_2000, 0x1000)
    requires s2 == M.Slice(After1(), 0, 0x1_2000, 0x1000)
    ensures s2.a == Alloc2()
  {
    hide A.Inv, M.MmapOk, A.SetAddr, A.CutMiddle, R.Overlay, M.SliceMiddle;
    var s, x := After1(), MapB();
    M.MiddleValue(s, ZONE, 0, 0x1000, 0x1000, SetLength(x, 0x1000), M.TailOf(s, x, 0x1000, 0x1000));
    Cut();
  }

  // ----- the last mmap

  lemma LastFit(c: C.Chunk)
    ensures var a := A.SetAddr(Alloc3(), 0, 0x1_2000);
            && A.FindList(a, 0x1000) == 0
            && var r := A.Allocate(a, 0x1000, c);
            r.h == 3 && 3 < |r.s.regions| && r.s.regions[3].host == 0x1_2000
  {
    var a := A.SetAddr(Alloc3(), 0, 0x1_2000);
    assert A.FirstFit(a.regions, [3], 0x1000) == 0;
  }

  /** The steps before it are steps of an ordinary run from an ordinary heap. The last mmap is granted the
      hole, whose page is taken, so that map_region fails and the assert behind it with it. */
  lemma NextMmapAborts() returns (s1: Heap, s2: Heap, r: A.Allocated, s3: Heap)
    ensures M.MmapOk(Start(), ZONE) && HR.AtHost(Start()) && M.Step(Start(), ZONE, M.Munmap(0, 0x1_0000, 1), s1)
    ensures M.Step(s1, ZONE, M.Mmap(Request(), s2, r), s3) && M.MmapOk(s3, ZONE)
    ensures forall host: nat, r' | A.GrantsAt(s3.a, 0x1000, host, r') ::
              r'.h < |r'.s.regions| && !R.RangeOk(s3.m, Pg(r'.s.regions[r'.h].host), r'.s.regions[r'.h].host, 1)
  {
    hide M.MmapOk, M.Step, A.Allocate, A.FindList, A.SetAddr;
    StartOk();
    Munmap();
    s1 := After1();
    M.StepKeeps(Start(), ZONE, M.Munmap(0, 0x1_0000, 1), s1);
    s2, r, s3 := Fixed();
    M.StepKeeps(s1, ZONE, M.Mmap(Request(), s2, r), s3);
    forall host: nat, r' | A.GrantsAt(s3.a, 0x1000, host, r')
      ensures r'.h < |r'.s.regions| && !R.RangeOk(s3.m, Pg(r'.s.regions[r'.h].host), r'.s.regions[r'.h].host, 1)
    {
      var c: C.Chunk :| A.Grants(s3.a, 0x1000, c, r');
      LastFit(c);
      assert R.InRange(0x12, 1, 0x12);
    }
  }
}
