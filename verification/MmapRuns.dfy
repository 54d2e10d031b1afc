/** mmap, MAP_FIXED replacement and munmap (src/heap.cc: get_mapping, create_mapping, unmap and
    the slices), and what every run of them keeps. */
module MmapRuns {
  import opened PageArith
  import opened PageEntry
  import P = Pager
  import A = Allocator
  import R = PagerRanges
  import opened Mappings

  /** Page count of a mapping. */
  function Len(x: Mapping): nat { x.length / 0x1000 }

  // ----- counting present pages

  ghost function Count(m: P.PageMap, v: nat, n: nat): nat { |R.Range(v, n) * m.Keys| }

  /** All pages of a range are present exactly when their count is its length. */
  lemma CountFull(m: P.PageMap, v: nat, n: nat)
    ensures R.Range(v, n) <= m.Keys <==> Count(m, v, n) == n
  {
    R.RangeSize(v, n);
    var here := R.Range(v, n) * m.Keys;
    if R.Range(v, n) <= m.Keys {
      assert here == R.Range(v, n);
    } else if |here| == n {
      SameSize(here, R.Range(v, n));
    }
  }

  lemma SameSize(a: set<nat>, b: set<nat>)
    requires a <= b && |a| == |b|
    ensures a == b
  {
    assert b == a + (b - a);
    assert |b| == |a| + |b - a|;
  }

  /** Unmapping k present pages of a range lowers its count by k. */
  lemma CountUnmap(m: P.PageMap, v: nat, n: nat, u: nat, k: nat)
    requires R.Range(u, k) <= R.Range(v, n) && R.Range(u, k) <= m.Keys
    ensures Count(m - R.Range(u, k), v, n) + k == Count(m, v, n)
  {
    hide R.Range;
    R.RangeSize(u, k);
    var here := R.Range(v, n) * m.Keys;
    assert R.Range(v, n) * (m - R.Range(u, k)).Keys == here - R.Range(u, k);
    CardMinus(here, R.Range(u, k));
  }

  lemma CardMinus(a: set<nat>, b: set<nat>)
    requires b <= a
    ensures |a - b| + |b| == |a|
  {
    assert a == (a - b) + b;
  }

  lemma CountSame(m: P.PageMap, m': P.PageMap, v: nat, n: nat)
    requires forall p: nat | R.InRange(v, n, p) :: p in m <==> p in m'
    ensures Count(m, v, n) == Count(m', v, n)
  {
    assert R.Range(v, n) * m.Keys == R.Range(v, n) * m'.Keys;
  }

  // ----- the invariant

  function PageOf(x: Mapping, p: nat): P.Page
    requires p >= Pg(x.addr)
  {
    P.Page(x.host + 0x1000 * (p - Pg(x.addr)), x.prot.write, x.prot.exec)
  }

  /** Mapping and region agree. */
  ghost predicate Locked(a: A.Alloc, x: Mapping) {
    && x.region in a.used && x.region < |a.regions|
    && a.regions[x.region].host == x.host && a.regions[x.region].addr == x.addr
    && x.addr > 0 && x.addr % 0x1000 == 0 && x.length % 0x1000 == 0 && 0 < x.length <= a.regions[x.region].size
    && (x.prot.read || x.prot.write || x.prot.exec)
  }

  /** Each present page translates to host base plus offset, with the mapping's rights. */
  ghost predicate Linear(m: P.PageMap, x: Mapping) {
    forall p: nat | R.InRange(Pg(x.addr), Len(x), p) && p in m :: m[p] == PageOf(x, p)
  }

  /** mapped_pages is the number of pages still present. */
  ghost predicate Counted(m: P.PageMap, x: Mapping) { 0 < x.pages == Count(m, Pg(x.addr), Len(x)) }

  ghost predicate Live(a: A.Alloc, m: P.PageMap, x: Mapping) { Locked(a, x) && Linear(m, x) && Counted(m, x) }

  predicate ApartM(x: Mapping, y: Mapping) { Pg(x.addr) + Len(x) <= Pg(y.addr) || Pg(y.addr) + Len(y) <= Pg(x.addr) }

  /** Two mappings share neither a region nor a page. */
  predicate Separate(x: Mapping, y: Mapping) { x.region != y.region && ApartM(x, y) }

  /** The pages from lo to hi, which belong to brk. HeapManager::map puts copies of brk mappings
      on the mmap list; they lie in there. */
  datatype Zone = Zone(lo: nat, hi: nat)

  predicate InZone(zone: Zone, x: Mapping) {
    && x.length > 0 && x.addr % 0x1000 == 0
    && zone.lo <= Pg(x.addr) && Pg(x.addr) + PagesFromSize(x.length) <= zone.hi
  }

  /** k pages from u on lie outside. */
  predicate Off(zone: Zone, u: nat, k: nat) { u + k <= zone.lo || zone.hi <= u }

  /** Entry i of the mmap list is no copy of a brk mapping. */
  predicate Own(s: Heap, zone: Zone, i: int) { 0 <= i < |s.mmap| && !InZone(zone, s.mmap[i]) }

  ghost predicate MmapOk(s: Heap, zone: Zone) {
    && A.Inv(s.a)
    && (forall i | 0 <= i < |s.brk| :: s.brk[i].pages > 0)
    && (forall i | 0 <= i < |s.mmap| :: s.mmap[i].pages > 0)
    && (forall i | Own(s, zone, i) :: Live(s.a, s.m, s.mmap[i]) && Off(zone, Pg(s.mmap[i].addr), Len(s.mmap[i])))
    && (forall i, j | Own(s, zone, i) && Own(s, zone, j) && i < j :: Separate(s.mmap[i], s.mmap[j]))
  }

  // ----- what mmap and munmap leave to brk

  /** A mapping of the mmap list that is no copy has region g. */
  ghost predicate OwnRegion(s: Heap, zone: Zone, g: nat) { exists i :: Own(s, zone, i) && s.mmap[i].region == g }

  ghost predicate RegionStays(a: A.Alloc, a': A.Alloc, g: nat) {
    g in a'.used && g < |a.regions| && g < |a'.regions| && a'.regions[g] == a.regions[g]
  }

  ghost predicate RegionsStay(s: Heap, zone: Zone, s': Heap) {
    && (forall g | g in s.a.used && !OwnRegion(s, zone, g) :: RegionStays(s.a, s'.a, g))
    && (forall g | OwnRegion(s', zone, g) && g in s.a.used :: OwnRegion(s, zone, g))
  }

  ghost predicate SameIn(zone: Zone, m: P.PageMap, m': P.PageMap) {
    forall p: nat | R.Between(zone.lo, zone.hi, p) :: (p in m' <==> p in m) && (p in m ==> m'[p] == m[p])
  }

  /** The brk list, the break, the pages of the zone and the regions of no own mapping stay. */
  ghost predicate Frame(s: Heap, zone: Zone, s': Heap) {
    s'.brk == s.brk && s'.curbrk == s.curbrk && SameIn(zone, s.m, s'.m) && RegionsStay(s, zone, s')
  }

  lemma FrameTrans(s: Heap, zone: Zone, s1: Heap, s2: Heap)
    requires Frame(s, zone, s1) && Frame(s1, zone, s2)
    ensures Frame(s, zone, s2)
  {
    hide OwnRegion;
    forall g | g in s.a.used && !OwnRegion(s, zone, g) ensures RegionStays(s.a, s2.a, g) {
      assert RegionStays(s.a, s1.a, g);
      assert RegionStays(s1.a, s2.a, g);
    }
    assert forall g | g in s.a.used && !OwnRegion(s, zone, g) :: RegionStays(s.a, s1.a, g);
  }

  /** Own mapping i has changed inside its own pages, or is gone. */
  lemma ReplacedFrame(s: Heap, zone: Zone, i: nat, s': Heap)
    requires Own(s, zone, i) && s'.brk == s.brk && s'.curbrk == s.curbrk && SameIn(zone, s.m, s'.m)
    requires forall j | Own(s', zone, j) :: OwnRegion(s, zone, s'.mmap[j].region)
    requires forall g | g in s.a.used && g != s.mmap[i].region :: RegionStays(s.a, s'.a, g)
    ensures Frame(s, zone, s')
  {
    assert OwnRegion(s, zone, s.mmap[i].region);
  }

  /** A mapping on a region that was not in use. */
  lemma AppendedFrame(s: Heap, zone: Zone, z: Mapping, s': Heap)
    requires s'.mmap == s.mmap + [z] && z.region !in s.a.used
    requires s'.brk == s.brk && s'.curbrk == s.curbrk && SameIn(zone, s.m, s'.m)
    requires forall g | g in s.a.used :: RegionStays(s.a, s'.a, g)
    ensures Frame(s, zone, s')
  {
    forall g | OwnRegion(s', zone, g) && g in s.a.used ensures OwnRegion(s, zone, g) {
      var j :| Own(s', zone, j) && s'.mmap[j].region == g;
      assert Own(s, zone, j);
    }
  }

  /** Pages outside the zone do not matter to it. */
  lemma HoleOff(zone: Zone, m: P.PageMap, u: nat, k: nat)
    requires Off(zone, u, k)
    ensures SameIn(zone, m, m - R.Range(u, k))
  {
    forall p: nat | R.Between(zone.lo, zone.hi, p) ensures p !in R.Range(u, k) {
    }
  }

  lemma OverlayOff(zone: Zone, m: P.PageMap, u: nat, host: nat, k: nat, opts: Opts)
    requires Off(zone, u, k)
    ensures SameIn(zone, m, R.Overlay(m, u, host, k, opts))
  {
    forall p: nat | R.Between(zone.lo, zone.hi, p) ensures !R.InRange(u, k, p) {
    }
  }

  /** Nothing that a mapping depends on has changed. */
  ghost predicate Untouched(a: A.Alloc, m: P.PageMap, a': A.Alloc, m': P.PageMap, x: Mapping) {
    && x.region in a'.used && x.region < |a'.regions| && x.region < |a.regions|
    && a'.regions[x.region] == a.regions[x.region]
    && forall p: nat | R.InRange(Pg(x.addr), Len(x), p) :: (p in m' <==> p in m) && (p in m ==> m'[p] == m[p])
  }

  lemma LiveStays(a: A.Alloc, m: P.PageMap, a': A.Alloc, m': P.PageMap, x: Mapping)
    requires Live(a, m, x) && Untouched(a, m, a', m', x)
    ensures Live(a', m', x)
  {
    CountSame(m, m', Pg(x.addr), Len(x));
  }

  // ----- munmap

  /** The pages of an unmap lie in the mapping. */
  lemma UnmapInside(x: Mapping, addr: nat, pages: nat)
    requires x.addr % 0x1000 == 0 && x.length % 0x1000 == 0 && addr % 0x1000 == 0 && pages > 0
    requires Contains(x, addr) && Contains(x, addr + (pages - 1) * 0x1000)
    ensures Pg(x.addr) <= Pg(addr) && Pg(addr) + pages <= Pg(x.addr) + Len(x)
    ensures R.Range(Pg(addr), pages) <= R.Range(Pg(x.addr), Len(x))
  {
    UnmapBounds(x.addr, x.length, addr, pages);
    forall p | p in R.Range(Pg(addr), pages) ensures p in R.Range(Pg(x.addr), Len(x)) {
      assert R.InRange(Pg(x.addr), Len(x), p);
    }
  }

  lemma UnmapBounds(base: nat, length: nat, addr: nat, pages: nat)
    requires base % 0x1000 == 0 && length % 0x1000 == 0 && addr % 0x1000 == 0 && pages > 0
    requires base <= addr && addr + (pages - 1) * 0x1000 < base + length
    ensures Pg(base) <= Pg(addr) && Pg(addr) + pages <= Pg(base) + length / 0x1000
  {
    var b, l, k := base / 0x1000, length / 0x1000, addr / 0x1000;
    assert base == 0x1000 * b && length == 0x1000 * l && addr == 0x1000 * k;
  }

  /** A mapping whose pages lie elsewhere does not notice the unmap. */
  lemma OthersNotUnmapped(a: A.Alloc, m: P.PageMap, a': A.Alloc, x: Mapping, y: Mapping, u: nat, k: nat)
    requires Live(a, m, y) && Separate(x, y) && Pg(x.addr) <= u && u + k <= Pg(x.addr) + Len(x)
    requires y.region in a'.used && y.region < |a'.regions| && a'.regions[y.region] == a.regions[y.region]
    ensures Live(a', m - R.Range(u, k), y)
  {
    var m' := m - R.Range(u, k);
    forall p: nat | R.InRange(Pg(y.addr), Len(y), p) ensures (p in m' <==> p in m) && (p in m ==> m'[p] == m[p]) {
      assert p !in R.Range(u, k);
    }
    LiveStays(a, m, a', m', y);
  }

  lemma PartUnmapped(a: A.Alloc, m: P.PageMap, x: Mapping, u: nat, k: nat)
    requires Live(a, m, x) && R.Range(u, k) <= R.Range(Pg(x.addr), Len(x)) && R.Range(u, k) <= m.Keys && k < x.pages
    ensures Live(a, m - R.Range(u, k), x.(pages := x.pages - k))
  {
    CountUnmap(m, Pg(x.addr), Len(x), u, k);
  }

  /** Unmapping part of a mapping: the count follows. */
  lemma UnmapPartKeeps(s: Heap, zone: Zone, i: nat, addr: nat, pages: nat)
    requires MmapOk(s, zone) && Own(s, zone, i) && CanUnmap(s, InMmap(i), addr, pages)
    requires addr % 0x1000 == 0 && pages < s.mmap[i].pages
    ensures var x, s' := s.mmap[i], Unmap(s, InMmap(i), addr, pages);
            && s' == s.(mmap := s.mmap[i := x.(pages := x.pages - pages)], m := s.m - R.Range(Pg(addr), pages))
            && MmapOk(s', zone) && Frame(s, zone, s')
  {
    hide Pg, R.Range, A.Inv, Counted, Linear, Locked, MmapOk, Frame;
    LiveAt(s, zone, i);
    UnmapInside(s.mmap[i], addr, pages);
    PartUnmapped(s.a, s.m, s.mmap[i], Pg(addr), pages);
    InvOf(s, zone);
    A.UsedInBounds(s.a);
    OthersUnmapped(s, zone, i, Pg(addr), pages, s.a);
    ReplacedOk(s, zone, i, s.mmap[i].(pages := s.mmap[i].pages - pages), s.a, s.m - R.Range(Pg(addr), pages));
  }

  /** y covers pages of x only. */
  predicate Within(y: Mapping, x: Mapping) {
    y.region == x.region && Pg(x.addr) <= Pg(y.addr) && Pg(y.addr) + Len(y) <= Pg(x.addr) + Len(x)
  }

  lemma ReplacedOk(s: Heap, zone: Zone, i: nat, y: Mapping, a': A.Alloc, m': P.PageMap)
    requires MmapOk(s, zone) && Own(s, zone, i) && A.Inv(a') && Within(y, s.mmap[i]) && Live(a', m', y)
    requires forall j | Own(s, zone, j) && j != i :: Live(a', m', s.mmap[j])
    ensures MmapOk(s.(mmap := s.mmap[i := y], a := a', m := m'), zone)
    ensures SameIn(zone, s.m, m') && (forall g | g in s.a.used && g != y.region :: RegionStays(s.a, a', g)) ==>
              Frame(s, zone, s.(mmap := s.mmap[i := y], a := a', m := m'))
  {
    hide Live, A.Inv, Pg, Len, InZone, Off, Frame, SameIn, RegionStays;
    var s' := s.(mmap := s.mmap[i := y], a := a', m := m');
    NotInZone(a', m', y, zone, s.mmap[i]);
    OwnAsBefore(s, zone, i, y, s');
    forall j, k | Own(s', zone, j) && Own(s', zone, k) && j < k ensures Separate(s'.mmap[j], s'.mmap[k]) {
      assert Separate(s.mmap[j], s.mmap[k]);
    }
    if SameIn(zone, s.m, m') && forall g | g in s.a.used && g != y.region :: RegionStays(s.a, a', g) {
      ReplacedFrame(s, zone, i, s');
    }
  }

  lemma OwnAsBefore(s: Heap, zone: Zone, i: nat, y: Mapping, s': Heap)
    requires Own(s, zone, i) && s'.mmap == s.mmap[i := y] && !InZone(zone, y) && y.region == s.mmap[i].region
    ensures forall j | Own(s', zone, j) :: Own(s, zone, j) && OwnRegion(s, zone, s'.mmap[j].region)
  {
    hide InZone;
    forall j | Own(s', zone, j) ensures Own(s, zone, j) && OwnRegion(s, zone, s'.mmap[j].region) {
      assert Own(s, zone, j);
    }
  }

  lemma NotInZone(a: A.Alloc, m: P.PageMap, y: Mapping, zone: Zone, x: Mapping)
    requires Live(a, m, y) && Within(y, x) && Off(zone, Pg(x.addr), Len(x))
    ensures !InZone(zone, y) && Off(zone, Pg(y.addr), Len(y)) && y.pages > 0
  {
  }

  lemma LiveAt(s: Heap, zone: Zone, i: nat)
    requires MmapOk(s, zone) && Own(s, zone, i)
    ensures Live(s.a, s.m, s.mmap[i]) && Locked(s.a, s.mmap[i]) && s.mmap[i].pages > 0
    ensures s.mmap[i].addr % 0x1000 == 0 && s.mmap[i].length % 0x1000 == 0
    ensures Off(zone, Pg(s.mmap[i].addr), Len(s.mmap[i]))
  {
  }

  /** Every own mapping but number i outlives an unmap inside number i. */
  lemma OthersUnmapped(s: Heap, zone: Zone, i: nat, u: nat, k: nat, a': A.Alloc)
    requires MmapOk(s, zone) && Own(s, zone, i)
    requires Pg(s.mmap[i].addr) <= u && u + k <= Pg(s.mmap[i].addr) + Len(s.mmap[i])
    requires forall g | g in s.a.used && g != s.mmap[i].region :: RegionStays(s.a, a', g)
    ensures forall j | Own(s, zone, j) && j != i :: Live(a', s.m - R.Range(u, k), s.mmap[j])
    ensures SameIn(zone, s.m, s.m - R.Range(u, k))
  {
    hide InZone;
    forall j | Own(s, zone, j) && j != i ensures Live(a', s.m - R.Range(u, k), s.mmap[j]) {
      var x, y := s.mmap[i], s.mmap[j];
      assert Live(s.a, s.m, y);
      assert Separate(x, y) || Separate(y, x);
      assert RegionStays(s.a, a', y.region);
      OthersNotUnmapped(s.a, s.m, a', x, y, u, k);
    }
    HoleOff(zone, s.m, u, k);
  }

  lemma UnmapAllValue(s: Heap, i: nat, addr: nat, pages: nat)
    requires CanUnmap(s, InMmap(i), addr, pages) && pages == s.mmap[i].pages
    requires forall j | 0 <= j < |s.brk| :: s.brk[j].pages > 0
    requires forall j | 0 <= j < |s.mmap| :: s.mmap[j].pages > 0
    ensures Unmap(s, InMmap(i), addr, pages) ==
            s.(mmap := Erase(s.mmap, i), m := s.m - R.Range(Pg(addr), pages), a := A.FreeRegion(s.a, s.mmap[i].region))
  {
    hide Pg, R.Range, A.FreeRegion;
    var y := s.mmap[i].(pages := 0);
    var l := s.mmap[i := y];
    FindNone(s.brk, y);
    FindEmptied(l, i);
    assert Erase(l, i) == Erase(s.mmap, i);
  }

  lemma PagesThere(s: Heap, zone: Zone)
    requires MmapOk(s, zone)
    ensures (forall j | 0 <= j < |s.brk| :: s.brk[j].pages > 0) && (forall j | 0 <= j < |s.mmap| :: s.mmap[j].pages > 0)
  {
  }

  lemma ErasedOk(s: Heap, zone: Zone, i: nat, a': A.Alloc, m': P.PageMap)
    requires MmapOk(s, zone) && Own(s, zone, i) && A.Inv(a')
    requires forall j | Own(s, zone, j) && j != i :: Live(a', m', s.mmap[j])
    requires SameIn(zone, s.m, m') && forall g | g in s.a.used && g != s.mmap[i].region :: RegionStays(s.a, a', g)
    ensures var s' := s.(mmap := Erase(s.mmap, i), a := a', m := m');
            MmapOk(s', zone) && Frame(s, zone, s')
  {
    hide Live, Separate, A.Inv, InZone, Off, SameIn, RegionStays, Frame;
    var s' := s.(mmap := Erase(s.mmap, i), a := a', m := m');
    forall j | Own(s', zone, j)
      ensures Own(s, zone, if j < i then j else j + 1) && s'.mmap[j] == s.mmap[if j < i then j else j + 1]
    {
    }
    forall j | Own(s', zone, j) ensures OwnRegion(s, zone, s'.mmap[j].region) {
      assert Own(s, zone, if j < i then j else j + 1);
    }
    forall j, k | Own(s', zone, j) && Own(s', zone, k) && j < k ensures Separate(s'.mmap[j], s'.mmap[k]) {
      assert Own(s, zone, if j < i then j else j + 1) && Own(s, zone, if k < i then k else k + 1);
    }
    ReplacedFrame(s, zone, i, s');
  }

  /** Unmapping the last pages: the region goes back to the free lists, the mapping away. */
  lemma UnmapAllKeeps(s: Heap, zone: Zone, i: nat, addr: nat, pages: nat)
    requires MmapOk(s, zone) && Own(s, zone, i) && CanUnmap(s, InMmap(i), addr, pages)
    requires addr % 0x1000 == 0 && pages == s.mmap[i].pages
    ensures var x, s' := s.mmap[i], Unmap(s, InMmap(i), addr, pages);
            && s' == s.(mmap := Erase(s.mmap, i), m := s.m - R.Range(Pg(addr), pages), a := A.FreeRegion(s.a, x.region))
            && MmapOk(s', zone) && Frame(s, zone, s') && R.Range(Pg(x.addr), Len(x)) !! s'.m.Keys
            && x.region !in s'.a.used && x.region < |s'.a.regions| && s'.a.regions[x.region].free
  {
    hide Pg, Len, R.Range, A.Inv, Linear, Unmap, A.FreeRegion, MmapOk, Erase, Frame;
    var x := s.mmap[i];
    LiveAt(s, zone, i);
    InvOf(s, zone);
    PagesThere(s, zone);
    UnmapAllValue(s, i, addr, pages);
    UnmapInside(x, addr, pages);
    A.FreedRegion(s.a, x.region);
    OthersUnmapped(s, zone, i, Pg(addr), pages, A.FreeRegion(s.a, x.region));
    ErasedOk(s, zone, i, A.FreeRegion(s.a, x.region), s.m - R.Range(Pg(addr), pages));
    CountUnmap(s.m, Pg(x.addr), Len(x), Pg(addr), pages);
  }

  lemma InvOf(s: Heap, zone: Zone)
    requires MmapOk(s, zone)
    ensures A.Inv(s.a)
  {
  }

  // ----- slicing

  /** Every page of the mapping is mapped. */
  predicate Full(x: Mapping) { x.pages == Len(x) }

  lemma FullPages(a: A.Alloc, m: P.PageMap, x: Mapping)
    requires Live(a, m, x) && Full(x)
    ensures forall p: nat | R.InRange(Pg(x.addr), Len(x), p) :: p in m && m[p] == PageOf(x, p)
  {
    CountFull(m, Pg(x.addr), Len(x));
    forall p: nat | R.InRange(Pg(x.addr), Len(x), p) ensures p in m && m[p] == PageOf(x, p) {
      assert p in R.Range(Pg(x.addr), Len(x));
    }
  }

  /** y is the part of x between two of its pages. */
  predicate PartOf(y: Mapping, x: Mapping) {
    && y.prot == x.prot && Pg(x.addr) <= Pg(y.addr) && Pg(y.addr) + Len(y) <= Pg(x.addr) + Len(x)
    && y.host == x.host + 0x1000 * (Pg(y.addr) - Pg(x.addr)) && y.pages == Len(y) > 0
  }

  /** The part of a full mapping outside the unmapped range is live once it has its region. */
  lemma PartLive(a: A.Alloc, m: P.PageMap, x: Mapping, a': A.Alloc, u: nat, k: nat, y: Mapping)
    requires Live(a, m, x) && Full(x) && PartOf(y, x) && Locked(a', y)
    requires Pg(y.addr) + Len(y) <= u || u + k <= Pg(y.addr)
    ensures Live(a', m - R.Range(u, k), y)
  {
    hide Locked, Pg, Len;
    var m' := m - R.Range(u, k);
    FullPages(a, m, x);
    forall p: nat | R.InRange(Pg(y.addr), Len(y), p) ensures p in m' && m'[p] == PageOf(y, p) {
      assert R.InRange(Pg(x.addr), Len(x), p);
      assert p !in R.Range(u, k);
    }
    assert R.Range(Pg(y.addr), Len(y)) <= m'.Keys;
    CountFull(m', Pg(y.addr), Len(y));
  }

  /** slice_begin */
  ghost function SliceFront(s: Heap, i: nat, len: nat): Heap
    requires i < |s.mmap| && CanUnmap(s, InMmap(i), s.mmap[i].addr, PagesFromSize(len))
    requires len <= s.mmap[i].length && PagesizeAlign(len) <= s.a.regions[s.mmap[i].region].size
    requires PagesFromSize(len) < s.mmap[i].pages
  {
    var x, s1 := s.mmap[i], Unmap(s, InMmap(i), s.mmap[i].addr, PagesFromSize(len));
    s1.(mmap := s1.mmap[i := MoveUp(x, len)], a := A.CutFront(s1.a, x.region, len))
  }

  /** slice_center up to the tail: the hole is unmapped and cut out of the region. */
  ghost function CutHole(s: Heap, i: nat, off: nat, len: nat): Heap
    requires i < |s.mmap| && CanUnmap(s, InMmap(i), s.mmap[i].addr + off, PagesFromSize(len))
    requires off + len <= s.mmap[i].length && off + len <= s.a.regions[s.mmap[i].region].size
    requires PagesFromSize(len) < s.mmap[i].pages
  {
    var x, s1 := s.mmap[i], Unmap(s, InMmap(i), s.mmap[i].addr + off, PagesFromSize(len));
    s1.(mmap := s1.mmap[i := SetLength(x, off)], a := A.CutMiddle(s1.a, x.region, off, len))
  }

  /** slice_center, with the tail mapping that it creates. */
  ghost function SliceMiddle(s: Heap, i: nat, off: nat, len: nat): Heap
    requires i < |s.mmap| && CanUnmap(s, InMmap(i), s.mmap[i].addr + off, PagesFromSize(len))
    requires off + len <= s.mmap[i].length && off + len <= s.a.regions[s.mmap[i].region].size
    requires PagesFromSize(len) < s.mmap[i].pages
  {
    var x, s2, n := s.mmap[i], CutHole(s, i, off, len), |s.a.regions|;
    if x.length > off + len then
      CreateIn(s2, A.Allocated(s2.a, n), x.addr + off + len, x.length - off - len, x.prot, x.anon, x.fd,
               x.offset + off + len)
    else s2
  }

  /** slice_end: the region keeps its size. */
  ghost function SliceEnd(s: Heap, i: nat, base: nat): Heap
    requires i < |s.mmap| && s.mmap[i].addr <= base <= s.mmap[i].addr + s.mmap[i].length
    requires CanUnmap(s, InMmap(i), base, PagesFromSize(s.mmap[i].addr + s.mmap[i].length - base))
    requires PagesFromSize(s.mmap[i].addr + s.mmap[i].length - base) < s.mmap[i].pages
  {
    var x := s.mmap[i];
    var s1 := Unmap(s, InMmap(i), base, PagesFromSize(x.addr + x.length - base));
    s1.(mmap := s1.mmap[i := SetLength(x, base - x.addr)])
  }

  /** create_mapping with region r.h of r.s. */
  ghost function CreateIn(s: Heap, r: A.Allocated, addr: nat, length: nat, prot: Prot, anon: bool, fd: int,
                          offset: int): Heap
    requires r.h < |r.s.regions|
  {
    var y := NewMapping(r.s, r.h, addr, PagesizeAlign(length), prot, anon, fd, offset);
    MapIn(s.(mmap := s.mmap + [y], a := A.SetAddr(r.s, r.h, y.addr)), y)
  }

  /** No mapping covers any of the k pages from u on. */
  ghost predicate ClearOf(l: seq<Mapping>, u: nat, k: nat) {
    forall j | 0 <= j < |l| :: Pg(l[j].addr) + Len(l[j]) <= u || u + k <= Pg(l[j].addr)
  }

  /** What a slice achieves: k pages from u on are gone from the page map and from every
      mapping, and nothing else is. */
  ghost predicate Sliced(s: Heap, zone: Zone, s': Heap, u: nat, k: nat) {
    MmapOk(s', zone) && s'.m == s.m - R.Range(u, k) && ClearOf(s'.mmap, u, k) && Frame(s, zone, s') && Off(zone, u, k)
  }

  lemma ClearAfter(s: Heap, zone: Zone, i: nat, y: Mapping, u: nat, k: nat)
    requires MmapOk(s, zone) && Own(s, zone, i)
    requires Pg(s.mmap[i].addr) <= u && u + k <= Pg(s.mmap[i].addr) + Len(s.mmap[i])
    requires Pg(y.addr) + Len(y) <= u || u + k <= Pg(y.addr)
    ensures ClearOf(s.mmap[i := y], u, k)
  {
    hide Live, Pg, Len, A.Inv, PagesFromSize;
    var l := s.mmap[i := y];
    forall j | 0 <= j < |l| ensures Pg(l[j].addr) + Len(l[j]) <= u || u + k <= Pg(l[j].addr) {
      if j != i {
        if Own(s, zone, j) {
          assert Separate(s.mmap[i], s.mmap[j]) || Separate(s.mmap[j], s.mmap[i]);
        } else {
          LenBelow(s.mmap[j]);
        }
      }
    }
  }

  lemma LenBelow(x: Mapping)
    ensures Len(x) <= PagesFromSize(x.length)
  {
  }

  /** A slice that leaves one part: the common argument of slice_begin and slice_end. */
  lemma OnePartLeft(s: Heap, zone: Zone, i: nat, u: nat, k: nat, y: Mapping, a': A.Alloc)
    requires MmapOk(s, zone) && Own(s, zone, i) && Full(s.mmap[i]) && A.Inv(a')
    requires Pg(s.mmap[i].addr) <= u && u + k <= Pg(s.mmap[i].addr) + Len(s.mmap[i])
    requires PartOf(y, s.mmap[i]) && y.region == s.mmap[i].region && Locked(a', y)
    requires Pg(y.addr) + Len(y) <= u || u + k <= Pg(y.addr)
    requires forall g | g in s.a.used && g != y.region :: RegionStays(s.a, a', g)
    ensures Sliced(s, zone, s.(mmap := s.mmap[i := y], m := s.m - R.Range(u, k), a := a'), u, k)
  {
    hide Live, Locked, Pg, Len, A.Inv, MmapOk, R.Range, Full, Frame, SameIn, RegionStays, InZone;
    LiveAt(s, zone, i);
    PartLive(s.a, s.m, s.mmap[i], a', u, k, y);
    OthersUnmapped(s, zone, i, u, k, a');
    ReplacedOk(s, zone, i, y, a', s.m - R.Range(u, k));
    ClearAfter(s, zone, i, y, u, k);
  }

  /** Whole pages: sizes, page counts and page numbers of aligned quantities. */
  lemma PageArithmetic(addr: nat, off: nat)
    requires addr % 0x1000 == 0 && off % 0x1000 == 0
    ensures PagesFromSize(off) == off / 0x1000 && PagesizeAlign(off) == off && off == 0x1000 * (off / 0x1000)
    ensures Pg(addr + off) == Pg(addr) + off / 0x1000 && (addr + off) % 0x1000 == 0
  {
  }

  lemma LengthMinus(a: nat, b: nat)
    requires a % 0x1000 == 0 && b % 0x1000 == 0 && b <= a
    ensures (a - b) / 0x1000 == a / 0x1000 - b / 0x1000 && (a - b) % 0x1000 == 0
  {
    var i, j := a / 0x1000, b / 0x1000;
    assert a - b == 0x1000 * (i - j);
  }

  /** Any range of pages of a full mapping can be unmapped. */
  lemma CanUnmapPart(s: Heap, zone: Zone, i: nat, off: nat, len: nat)
    requires MmapOk(s, zone) && Own(s, zone, i) && Full(s.mmap[i])
    requires off % 0x1000 == 0 && len % 0x1000 == 0 && 0 < len < s.mmap[i].length && off + len <= s.mmap[i].length
    ensures var x := s.mmap[i];
            && CanUnmap(s, InMmap(i), x.addr + off, len / 0x1000) && len / 0x1000 < x.pages
            && (x.addr + off) % 0x1000 == 0 && PagesFromSize(len) == len / 0x1000 && PagesizeAlign(len) == len
            && Pg(x.addr + off) == Pg(x.addr) + off / 0x1000
            && Pg(x.addr + off) + len / 0x1000 <= Pg(x.addr) + Len(x)
  {
    var x := s.mmap[i];
    LiveAt(s, zone, i);
    InvOf(s, zone);
    A.UsedInBounds(s.a);
    PageArithmetic(x.addr, off);
    PageArithmetic(x.addr, len);
    PartBounds(x.addr, x.length, off, len);
    FullPages(s.a, s.m, x);
    RangePresent(s.m, x, Pg(x.addr + off), len / 0x1000);
  }

  lemma PartBounds(addr: nat, length: nat, off: nat, len: nat)
    requires addr % 0x1000 == 0 && length % 0x1000 == 0 && off % 0x1000 == 0 && len % 0x1000 == 0
             && 0 < len < length && off + len <= length
    ensures 0 < len / 0x1000 < length / 0x1000 && off / 0x1000 + len / 0x1000 <= length / 0x1000
    ensures addr <= addr + off + (len / 0x1000 - 1) * 0x1000 < addr + length
  {
    var l, o, k := length / 0x1000, off / 0x1000, len / 0x1000;
    assert length == 0x1000 * l && off == 0x1000 * o && len == 0x1000 * k;
  }

  lemma RangePresent(m: P.PageMap, x: Mapping, u: nat, k: nat)
    requires forall p: nat | R.InRange(Pg(x.addr), Len(x), p) :: p in m
    requires Pg(x.addr) <= u && u + k <= Pg(x.addr) + Len(x)
    ensures R.Range(u, k) <= m.Keys
  {
    forall p | p in R.Range(u, k) ensures p in m {
      assert R.InRange(Pg(x.addr), Len(x), p);
    }
  }

  /** The allocator's side of slice_begin. */
  lemma FrontCut(s: Heap, zone: Zone, i: nat, len: nat)
    requires MmapOk(s, zone) && Own(s, zone, i) && 0 < len < s.mmap[i].length && len % 0x1000 == 0
    requires PagesizeAlign(len) == len
    ensures var x := s.mmap[i];
            && x.region < |s.a.regions| && len <= s.a.regions[x.region].size && |s.a.freelists| == A.N_FREELISTS
            && var a' := A.CutFront(s.a, x.region, len);
            && A.Inv(a') && Locked(a', MoveUp(x, len))
            && forall g | g in s.a.used && g != x.region :: RegionStays(s.a, a', g)
  {
    var x := s.mmap[i];
    LiveAt(s, zone, i);
    InvOf(s, zone);
    A.UsedInBounds(s.a);
    A.CutFrontKeeps(s.a, x.region, len);
    LengthMinus(x.length, len);
    assert (x.addr + len) % 0x1000 == 0 by { PageArithmetic(x.addr, len); }
  }

  /** slice_begin on a full mapping. */
  lemma SliceFrontKeeps(s: Heap, zone: Zone, i: nat, len: nat)
    requires MmapOk(s, zone) && Own(s, zone, i) && Full(s.mmap[i]) && 0 < len < s.mmap[i].length && len % 0x1000 == 0
    ensures var x := s.mmap[i];
            && CanUnmap(s, InMmap(i), x.addr, PagesFromSize(len)) && PagesFromSize(len) < x.pages
            && PagesizeAlign(len) <= s.a.regions[x.region].size
            && Sliced(s, zone, SliceFront(s, i, len), Pg(x.addr), len / 0x1000)
            && SliceFront(s, i, len).mmap ==
               s.mmap[i := x.(addr := x.addr + len, host := x.host + len, length := x.length - len,
                              pages := x.pages - len / 0x1000)]
  {
    hide Pg, MmapOk, A.Inv, Locked, Live, R.Range, Unmap, A.CutFront, PagesFromSize, CanUnmap;
    var x := s.mmap[i];
    LiveAt(s, zone, i);
    CanUnmapPart(s, zone, i, 0, len);
    UnmapPartKeeps(s, zone, i, x.addr, len / 0x1000);
    FrontCut(s, zone, i, len);
    LengthMinus(x.length, len);
    PageArithmetic(x.addr, len);
    PageArithmetic(x.addr, x.length - len);
    OnePartLeft(s, zone, i, Pg(x.addr), len / 0x1000, MoveUp(x, len), A.CutFront(s.a, x.region, len));
    assert s.mmap[i := x.(pages := x.pages - len / 0x1000)][i := MoveUp(x, len)] == s.mmap[i := MoveUp(x, len)];
  }

  /** slice_end on a full mapping. */
  lemma SliceEndKeeps(s: Heap, zone: Zone, i: nat, base: nat)
    requires MmapOk(s, zone) && Own(s, zone, i) && Full(s.mmap[i]) && base % 0x1000 == 0
    requires s.mmap[i].addr < base < s.mmap[i].addr + s.mmap[i].length
    ensures var x := s.mmap[i];
            var cnt := PagesFromSize(x.addr + x.length - base);
            && CanUnmap(s, InMmap(i), base, cnt) && cnt < x.pages
            && cnt == (x.addr + x.length - base) / 0x1000
            && Sliced(s, zone, SliceEnd(s, i, base), Pg(base), cnt)
            && SliceEnd(s, i, base).mmap == s.mmap[i := x.(length := base - x.addr, pages := x.pages - cnt)]
  {
    hide Pg, MmapOk, A.Inv, Live, R.Range, Unmap, PagesFromSize, CanUnmap;
    var x := s.mmap[i];
    LiveAt(s, zone, i);
    InvOf(s, zone);
    A.UsedInBounds(s.a);
    var off, len := base - x.addr, x.addr + x.length - base;
    LengthMinus(base, x.addr);
    LengthMinus(x.length, off);
    CanUnmapPart(s, zone, i, off, len);
    UnmapPartKeeps(s, zone, i, base, len / 0x1000);
    PageArithmetic(x.addr, off);
    var y := SetLength(x, off);
    OnePartLeft(s, zone, i, Pg(base), len / 0x1000, y, s.a);
    assert s.mmap[i := x.(pages := x.pages - len / 0x1000)][i := y] == s.mmap[i := y];
  }

  // ----- new mappings

  lemma AppendOk(s: Heap, zone: Zone, z: Mapping)
    requires MmapOk(s, zone) && Live(s.a, s.m, z) && Off(zone, Pg(z.addr), Len(z))
    requires forall j | Own(s, zone, j) :: Separate(s.mmap[j], z)
    ensures MmapOk(s.(mmap := s.mmap + [z]), zone)
  {
    hide Live, Separate, A.Inv, InZone, Off;
    var s' := s.(mmap := s.mmap + [z]);
    LivePages(s.a, s.m, z);
    forall j | Own(s', zone, j) ensures j < |s.mmap| ==> Own(s, zone, j) {
    }
    forall j, k | Own(s', zone, j) && Own(s', zone, k) && j < k ensures Separate(s'.mmap[j], s'.mmap[k]) {
      assert Own(s, zone, j);
    }
  }

  lemma LivePages(a: A.Alloc, m: P.PageMap, x: Mapping)
    requires Live(a, m, x)
    ensures x.pages > 0
  {
  }

  lemma FindsItself(l: seq<Mapping>, z: Mapping)
    ensures FindSame(l + [z], z) >= 0
  {
    assert Same((l + [z])[|l|], z);
  }

  /** Mapping pages again with the same host pages and rights changes nothing. */
  lemma OverlaySame(m: P.PageMap, z: Mapping)
    requires forall p: nat | R.InRange(Pg(z.addr), z.pages, p) :: p in m && m[p] == PageOf(z, p)
    ensures R.Overlay(m, Pg(z.addr), z.host, z.pages, OptsOf(z)) == m
    ensures R.RangeOk(m, Pg(z.addr), z.host, z.pages)
  {
  }

  /** The allocator's side of slice_center: the mapping keeps the part below the hole, the part
      behind it has a region of its own. */
  lemma MiddleCut(s: Heap, zone: Zone, i: nat, off: nat, len: nat)
    requires MmapOk(s, zone) && Own(s, zone, i) && 0 < off && 0 < len && off % 0x1000 == 0 && len % 0x1000 == 0
    requires off + len < s.mmap[i].length
    ensures var x, n := s.mmap[i], |s.a.regions|;
            && x.region < n && off + len <= s.a.regions[x.region].size && |s.a.freelists| == A.N_FREELISTS
            && var a1 := A.CutMiddle(s.a, x.region, off, len);
            && n < |a1.regions| && !a1.regions[n].free && a1.regions[n].host == x.host + off + len
            && var a2 := A.SetAddr(a1, n, x.addr + off + len);
            && A.Inv(a2) && Locked(a2, SetLength(x, off)) && n < |a2.regions| && !a2.regions[n].free
            && n in a2.used && a2.regions[n].addr == x.addr + off + len && x.length - off - len <= a2.regions[n].size
            && a2.regions[n].host == x.host + off + len && n !in s.a.used
            && forall g | g in s.a.used && g != x.region :: RegionStays(s.a, a2, g)
  {
    hide MmapOk, A.Inv;
    var x, n := s.mmap[i], |s.a.regions|;
    LiveAt(s, zone, i);
    InvOf(s, zone);
    A.UsedInBounds(s.a);
    A.ListCount(s.a);
    A.CutMiddleKeeps(s.a, x.region, off, len);
    A.SetAddrKeeps(A.CutMiddle(s.a, x.region, off, len), n, x.addr + off + len);
  }

  /** The mapping that slice_center makes for the part behind the hole. */
  function TailOf(s: Heap, x: Mapping, off: nat, len: nat): Mapping
    requires off + len <= x.length
  {
    Mapping(x.host + off + len, x.addr + off + len, x.length - off - len, PagesFromSize(x.length - off - len),
            x.prot, x.anon, x.fd, x.offset + off + len, |s.a.regions|)
  }

  /** What slice_center leaves, whether the mapping is full or not. */
  lemma MiddleValue(s: Heap, zone: Zone, i: nat, off: nat, len: nat, y: Mapping, z: Mapping)
    requires MmapOk(s, zone) && Own(s, zone, i) && off % 0x1000 == 0 && len % 0x1000 == 0 && 0 < off && 0 < len
    requires off + len < s.mmap[i].length && s.mmap[i].region < |s.a.regions|
    requires off + len <= s.a.regions[s.mmap[i].region].size
    requires CanUnmap(s, InMmap(i), s.mmap[i].addr + off, PagesFromSize(len)) && PagesFromSize(len) < s.mmap[i].pages
    requires y == SetLength(s.mmap[i], off) && z == TailOf(s, s.mmap[i], off, len)
    ensures |s.a.freelists| == A.N_FREELISTS && z.region < |A.CutMiddle(s.a, s.mmap[i].region, off, len).regions|
    ensures var u, k := Pg(s.mmap[i].addr + off), len / 0x1000;
            SliceMiddle(s, i, off, len) ==
            s.(mmap := s.mmap[i := y] + [z],
               a := A.SetAddr(A.CutMiddle(s.a, s.mmap[i].region, off, len), z.region, z.addr),
               m := R.Overlay(s.m - R.Range(u, k), Pg(z.addr), z.host, z.pages, OptsOf(z)))
  {
    hide Pg, MmapOk, A.Inv, Locked, Live, R.Range, Unmap, A.CutMiddle, A.SetAddr, PagesFromSize, PagesizeAlign,
         R.Overlay, FindSame, Len, Frame, InZone, CanUnmap, A.FreeRegion;
    var x := s.mmap[i];
    LiveAt(s, zone, i);
    PageArithmetic(x.addr, len);
    PageArithmetic(x.addr, off);
    TailArith(x, off, len, z, y);
    UnmapPartKeeps(s, zone, i, x.addr + off, len / 0x1000);
    MiddleCut(s, zone, i, off, len);
    FindsItself(s.mmap[i := y], z);
    assert s.mmap[i := x.(pages := x.pages - len / 0x1000)][i := y] == s.mmap[i := y];
  }

  /** slice_center on a full mapping, with its pieces spelled out. */
  lemma SliceMiddleKeeps(s: Heap, zone: Zone, i: nat, off: nat, len: nat)
    requires MmapOk(s, zone) && Own(s, zone, i) && Full(s.mmap[i]) && 0 < off && 0 < len && off % 0x1000 == 0
    requires len % 0x1000 == 0
    requires off + len < s.mmap[i].length
    ensures var x := s.mmap[i];
            && CanUnmap(s, InMmap(i), x.addr + off, PagesFromSize(len)) && PagesFromSize(len) < x.pages
            && off + len <= s.a.regions[x.region].size
            && Sliced(s, zone, SliceMiddle(s, i, off, len), Pg(x.addr + off), len / 0x1000)
            && SliceMiddle(s, i, off, len).mmap ==
               s.mmap[i := x.(length := off, pages := off / 0x1000)]
               + [Mapping(x.host + off + len, x.addr + off + len, x.length - off - len, (x.length - off - len) / 0x1000,
                          x.prot, x.anon, x.fd, x.offset + off + len, |s.a.regions|)]
  {
    hide Pg, MmapOk, A.Inv, Locked, Live, R.Range, Unmap, A.CutMiddle, A.SetAddr, PagesFromSize, PagesizeAlign,
         CanUnmap, R.Overlay, FindSame, Len, Frame, RegionStays, InZone, SliceMiddle;
    var x, n := s.mmap[i], |s.a.regions|;
    var y, z := SetLength(x, off), TailOf(s, x, off, len);
    LiveAt(s, zone, i);
    CanUnmapPart(s, zone, i, off, len);
    MiddleCut(s, zone, i, off, len);
    MiddleValue(s, zone, i, off, len, y, z);
    TailArith(x, off, len, z, y);
    var a2 := A.SetAddr(A.CutMiddle(s.a, x.region, off, len), n, z.addr);
    var u, k := Pg(x.addr + off), len / 0x1000;
    OnePartLeft(s, zone, i, u, k, y, a2);
    var s2 := s.(mmap := s.mmap[i := y], m := s.m - R.Range(u, k), a := a2);
    TailLocked(s.a, a2, x, z);
    PartLive(s.a, s.m, x, a2, u, k, z);
    TailSeparate(s, zone, i, y, z, s2);
    AppendOk(s2, zone, z);
    TailFrame(s, zone, s2, z);
    TailMapped(s.m, x, z, u, k, s.a);
    ClearMore(s2.mmap, z, u, k);
    PageArithmetic(x.addr, off);
    LengthMinus(x.length, off);
    LengthMinus(x.length - off, len);
    PageArithmetic(x.addr, x.length - off - len);
  }

  lemma TailArith(x: Mapping, off: nat, len: nat, z: Mapping, y: Mapping)
    requires x.addr % 0x1000 == 0 && x.length % 0x1000 == 0 && off % 0x1000 == 0 && len % 0x1000 == 0 && 0 < off
    requires 0 < len
    requires off + len < x.length && y == SetLength(x, off) && x.addr > 0
    requires z.host == x.host + off + len && z.addr == x.addr + off + len && z.length == x.length - off - len
    requires z.pages == PagesFromSize(z.length) && z.prot == x.prot
    ensures PartOf(y, x) && PartOf(z, x) && z.addr % 0x1000 == 0 && z.length % 0x1000 == 0
    ensures PagesizeAlign(z.length) == z.length
    ensures var u, k := Pg(x.addr + off), len / 0x1000;
            Pg(y.addr) + Len(y) <= u && u + k <= Pg(z.addr) && Pg(x.addr) <= u && u + k <= Pg(x.addr) + Len(x)
    ensures z.addr > 0 && z.length > 0 && z.pages == Len(z) && y.pages == Len(y)
  {
    LengthMinus(x.length, off);
    LengthMinus(x.length - off, len);
    PageArithmetic(x.addr, off);
    PageArithmetic(x.addr + off, len);
    PageArithmetic(x.addr + off + len, z.length);
    assert (off + len) % 0x1000 == 0;
  }

  lemma TailLocked(a: A.Alloc, a': A.Alloc, x: Mapping, z: Mapping)
    requires Locked(a, x) && z.prot == x.prot && z.region in a'.used && z.region < |a'.regions|
    requires a'.regions[z.region].host == z.host && a'.regions[z.region].addr == z.addr
    requires z.length <= a'.regions[z.region].size
    requires z.addr > 0 && z.length > 0 && z.addr % 0x1000 == 0 && z.length % 0x1000 == 0
    ensures Locked(a', z)
  {
  }

  lemma TailSeparate(s: Heap, zone: Zone, i: nat, y: Mapping, z: Mapping, s2: Heap)
    requires MmapOk(s, zone) && Own(s, zone, i) && PartOf(y, s.mmap[i]) && PartOf(z, s.mmap[i])
    requires z.region == |s.a.regions|
    requires y.region == s.mmap[i].region && Pg(y.addr) + Len(y) <= Pg(z.addr) && s2.mmap == s.mmap[i := y]
    ensures Off(zone, Pg(z.addr), Len(z)) && forall j | Own(s2, zone, j) :: Separate(s2.mmap[j], z)
  {
    hide Pg, Len, A.Inv, InZone;
    LiveAt(s, zone, i);
    forall j | Own(s2, zone, j) ensures Separate(s2.mmap[j], z) {
      if j != i {
        assert Own(s, zone, j);
        LiveAt(s, zone, j);
        assert Separate(s.mmap[i], s.mmap[j]) || Separate(s.mmap[j], s.mmap[i]);
      }
    }
  }

  /** The tail has a region of its own that was not in use. */
  lemma TailFrame(s: Heap, zone: Zone, s2: Heap, z: Mapping)
    requires Frame(s, zone, s2) && z.region !in s.a.used
    ensures Frame(s, zone, s2.(mmap := s2.mmap + [z]))
  {
    var s' := s2.(mmap := s2.mmap + [z]);
    forall g | OwnRegion(s', zone, g) && g in s.a.used ensures OwnRegion(s, zone, g) {
      var j :| Own(s', zone, j) && s'.mmap[j].region == g;
      assert Own(s2, zone, j) && OwnRegion(s2, zone, g);
    }
  }

  lemma TailMapped(m: P.PageMap, x: Mapping, z: Mapping, u: nat, k: nat, a: A.Alloc)
    requires Live(a, m, x) && Full(x) && PartOf(z, x) && u + k <= Pg(z.addr)
    ensures R.Overlay(m - R.Range(u, k), Pg(z.addr), z.host, z.pages, OptsOf(z)) == m - R.Range(u, k)
  {
    hide Pg, Len, Locked;
    FullPages(a, m, x);
    var m' := m - R.Range(u, k);
    forall p: nat | R.InRange(Pg(z.addr), z.pages, p) ensures p in m' && m'[p] == PageOf(z, p) {
      assert R.InRange(Pg(x.addr), Len(x), p);
      assert p !in R.Range(u, k);
    }
    OverlaySame(m', z);
  }

  /** The pages of the tail already have the host pages that it maps them to. */
  lemma TailInRange(m: P.PageMap, x: Mapping, z: Mapping, u: nat, k: nat, a: A.Alloc)
    requires Live(a, m, x) && PartOf(z, x)
    ensures R.RangeOk(m - R.Range(u, k), Pg(z.addr), z.host, Len(z))
  {
    hide Pg, Len, Locked;
    var m' := m - R.Range(u, k);
    forall p | p in m' && R.InRange(Pg(z.addr), Len(z), p) ensures m'[p].host == z.host + 0x1000 * (p - Pg(z.addr)) {
      assert R.InRange(Pg(x.addr), Len(x), p) && m'[p] == m[p];
    }
  }

  lemma ClearMore(l: seq<Mapping>, z: Mapping, u: nat, k: nat)
    requires ClearOf(l, u, k) && (Pg(z.addr) + Len(z) <= u || u + k <= Pg(z.addr))
    ensures ClearOf(l + [z], u, k)
  {
    hide Pg, Len;
  }

  /** The guest address a new mapping gets. */
  function Target(a: A.Alloc, h: nat, addr: nat): nat
    requires h < |a.regions|
  {
    if addr == 0 then a.regions[h].host else addr
  }

  /** A new mapping on pages that nothing uses. */
  ghost predicate Vacant(s: Heap, u: nat, k: nat) { ClearOf(s.mmap, u, k) && R.Range(u, k) !! s.m.Keys }

  lemma OverlayLive(m: P.PageMap, z: Mapping)
    requires z.pages == Len(z) > 0
    ensures var m' := R.Overlay(m, Pg(z.addr), z.host, z.pages, OptsOf(z));
            Linear(m', z) && Counted(m', z)
  {
    hide Pg, Len;
    var m' := R.Overlay(m, Pg(z.addr), z.host, z.pages, OptsOf(z));
    assert R.Range(Pg(z.addr), Len(z)) <= m'.Keys;
    CountFull(m', Pg(z.addr), Len(z));
  }

  lemma OverlayOthers(a: A.Alloc, m: P.PageMap, a': A.Alloc, x: Mapping, u: nat, host: nat, k: nat, opts: Opts)
    requires Live(a, m, x) && (Pg(x.addr) + Len(x) <= u || u + k <= Pg(x.addr))
    requires x.region in a'.used && x.region < |a'.regions| && a'.regions[x.region] == a.regions[x.region]
    ensures Live(a', R.Overlay(m, u, host, k, opts), x)
  {
    hide Pg, Len;
    LiveStays(a, m, a', R.Overlay(m, u, host, k, opts), x);
  }

  /** create_mapping on a fresh region: the region's record and the mapping agree. */
  lemma FreshRegion(s: Heap, zone: Zone, r: A.Allocated, addr: nat, length: nat)
    requires MmapOk(s, zone) && A.Serves(s.a, length, r) && length % 0x1000 == 0 && length > 0
    ensures var t, a' := Target(r.s, r.h, addr), A.SetAddr(r.s, r.h, Target(r.s, r.h, addr));
            && A.Inv(a') && r.h in a'.used && r.h < |a'.regions| && !a'.regions[r.h].free && r.h !in s.a.used
            && a'.regions[r.h].host == r.s.regions[r.h].host && a'.regions[r.h].addr == t
            && a'.regions[r.h].size == length
            && r.s.regions[r.h].host % 0x1000 == 0 && r.s.regions[r.h].host > 0
            && forall g | g in s.a.used :: RegionStays(s.a, a', g)
  {
    hide MmapOk;
    InvOf(s, zone);
    A.UsedInBounds(s.a);
    PageArithmetic(0, length);
    assert A.WellFormed(r.s.regions[r.h]);
    A.SetAddrKeeps(r.s, r.h, Target(r.s, r.h, addr));
  }

  /** The last entry of the list is a mapping on the granted region, at the requested address or, without
      one, at the host address of the region, with all that was asked for. */
  ghost predicate Made(l: seq<Mapping>, r: A.Allocated, addr: nat, length: nat, prot: Prot, anon: bool, fd: int,
                       offset: int)
    requires r.h < |r.s.regions|
  {
    && |l| > 0
    && var z, host := l[|l| - 1], r.s.regions[r.h].host;
    && z.host == host && z.addr == (if addr == 0 then host else addr) && z.region == r.h
    && z.length == length && z.pages == length / 0x1000 && z.prot == prot && z.anon == anon && z.fd == fd
    && z.offset == offset
  }

  /** create_mapping: the new range translates linearly to the new region, nothing else does
      otherwise than before, and the invariant is kept. */
  lemma CreateKeeps(s: Heap, zone: Zone, r: A.Allocated, addr: nat, length: nat, prot: Prot, anon: bool, fd: int,
                    offset: int)
    requires MmapOk(s, zone) && A.Serves(s.a, length, r) && length % 0x1000 == 0 && length > 0
    requires addr % 0x1000 == 0 && (prot.read || prot.write || prot.exec)
    requires Vacant(s, Pg(Target(r.s, r.h, addr)), length / 0x1000)
    requires Off(zone, Pg(Target(r.s, r.h, addr)), length / 0x1000)
    ensures var t, k, host := Target(r.s, r.h, addr), length / 0x1000, r.s.regions[r.h].host;
            var s' := CreateIn(s, r, addr, length, prot, anon, fd, offset);
            && R.RangeOk(s.m, Pg(t), host, k) && MmapOk(s', zone)
            && s'.m == R.Overlay(s.m, Pg(t), host, k, Opts(prot.write, prot.exec))
            && Frame(s, zone, s')
            && |s'.mmap| == |s.mmap| + 1 && s'.mmap[..|s.mmap|] == s.mmap
            && Made(s'.mmap, r, addr, length, prot, anon, fd, offset)
  {
    hide Pg, Len, MmapOk, A.Inv, A.Serves, Live, R.Overlay, PagesFromSize, PagesizeAlign, FindSame, A.SetAddr, InZone,
         Frame;
    A.HandleOf(s.a, length, r);
    var t, k, host := Target(r.s, r.h, addr), length / 0x1000, r.s.regions[r.h].host;
    FreshRegion(s, zone, r, addr, length);
    PageArithmetic(t, length);
    var z := NewMapping(r.s, r.h, addr, length, prot, anon, fd, offset);
    var a' := A.SetAddr(r.s, r.h, t);
    var m' := R.Overlay(s.m, Pg(t), host, k, OptsOf(z));
    LenIs(z, k);
    OverlayLive(s.m, z);
    LiveFrom(a', m', z);
    forall j | Own(s, zone, j) ensures Live(a', m', s.mmap[j]) && Separate(s.mmap[j], z) {
      LiveAt(s, zone, j);
      assert RegionStays(s.a, a', s.mmap[j].region);
      OverlayOthers(s.a, s.m, a', s.mmap[j], Pg(t), host, k, OptsOf(z));
    }
    StillOk(s, zone, a', m');
    AppendOk(s.(a := a', m := m'), zone, z);
    FindsItself(s.mmap, z);
    OverlayOff(zone, s.m, Pg(t), host, k, OptsOf(z));
    AppendedFrame(s, zone, z, s.(mmap := s.mmap + [z], a := a', m := m'));
    R.FreeRange(s.m, Pg(t), host, k);
  }

  lemma LenIs(z: Mapping, k: nat)
    requires z.length / 0x1000 == k
    ensures Len(z) == k
  {
  }

  lemma LiveFrom(a: A.Alloc, m: P.PageMap, z: Mapping)
    requires Linear(m, z) && Counted(m, z) && z.region in a.used && z.region < |a.regions|
    requires a.regions[z.region].host == z.host && a.regions[z.region].addr == z.addr
    requires 0 < z.length <= a.regions[z.region].size
    requires z.addr > 0 && z.addr % 0x1000 == 0 && z.length % 0x1000 == 0
    requires z.prot.read || z.prot.write || z.prot.exec
    ensures Live(a, m, z)
  {
  }

  lemma StillOk(s: Heap, zone: Zone, a': A.Alloc, m': P.PageMap)
    requires MmapOk(s, zone) && A.Inv(a') && forall j | Own(s, zone, j) :: Live(a', m', s.mmap[j])
    ensures MmapOk(s.(a := a', m := m'), zone)
    ensures forall j | Own(s.(a := a', m := m'), zone, j) :: Own(s, zone, j)
  {
    hide Live, Separate, A.Inv, InZone, Off;
    var s' := s.(a := a', m := m');
    forall j: int ensures Own(s', zone, j) == Own(s, zone, j) {
    }
    forall j, k | Own(s', zone, j) && Own(s', zone, k) && j < k ensures Separate(s'.mmap[j], s'.mmap[k]) {
      assert Own(s, zone, j) && Own(s, zone, k);
    }
  }

  // ----- get_mapping

  /** First mapping with this address and length, -1 if none. */
  function FindExact(l: seq<Mapping>, addr: nat, length: nat): (k: int)
    ensures -1 <= k < |l|
    ensures k >= 0 ==> l[k].addr == addr && l[k].length == length
    ensures forall i | 0 <= i < (if k < 0 then |l| else k) :: !(l[i].addr == addr && l[i].length == length)
  {
    if |l| == 0 then -1
    else if l[0].addr == addr && l[0].length == length then 0
    else
      var k := FindExact(l[1..], addr, length);
      if k < 0 then -1 else k + 1
  }

  /** First mapping that contains the address, -1 if none. */
  function FindContaining(l: seq<Mapping>, addr: nat): (k: int)
    ensures -1 <= k < |l|
    ensures k >= 0 ==> Contains(l[k], addr)
    ensures forall i | 0 <= i < (if k < 0 then |l| else k) :: !Contains(l[i], addr)
  {
    if |l| == 0 then -1
    else if Contains(l[0], addr) then 0
    else
      var k := FindContaining(l[1..], addr);
      if k < 0 then -1 else k + 1
  }

  /** The asserts on the way through slice, for a slice that leaves some page of the mapping. If it
      takes the last ones see Dangles. move_guest_address compares its two sizes as 32-bit
      numbers. */
  ghost predicate CanSlice(s: Heap, i: nat, base: nat, len: nat) {
    && i < |s.mmap| && Contains(s.mmap[i], base)
    && var x := s.mmap[i];
    && x.region < |s.a.regions|
    && if base == x.addr then
         && CanUnmap(s, InMmap(i), x.addr, PagesFromSize(len)) && PagesFromSize(len) < x.pages
         && 0 < len < x.length && PagesizeAlign(len) <= s.a.regions[x.region].size
         && len % 0x1_0000_0000 < x.length % 0x1_0000_0000
       else if Contains(x, base + len) then
         && CanUnmap(s, InMmap(i), base, PagesFromSize(len)) && PagesFromSize(len) < x.pages
         && base - x.addr + len <= s.a.regions[x.region].size
       else
         var cnt := PagesFromSize(x.addr + x.length - base);
         CanUnmap(s, InMmap(i), base, cnt) && cnt < x.pages
  }

  /** HeapManager::slice */
  ghost function Slice(s: Heap, i: nat, base: nat, len: nat): Heap
    requires CanSlice(s, i, base, len)
  {
    var x := s.mmap[i];
    if base == x.addr then SliceFront(s, i, len)
    else if Contains(x, base + len) then SliceMiddle(s, i, base - x.addr, len)
    else SliceEnd(s, i, base)
  }

  /** The pages that slice takes out of mapping i: up to its end at most. */
  function SlicedPages(x: Mapping, base: nat, len: nat): nat
    requires Contains(x, base)
  {
    if base + len <= x.addr + x.length then len / 0x1000 else (x.addr + x.length - base) / 0x1000
  }

  /** The condition under which slice gets through on a full mapping: at its front there must be
      something left, also when lengths are cut to 32 bits. */
  predicate SliceFits(x: Mapping, base: nat, len: nat) {
    base == x.addr ==> len < x.length && len % 0x1_0000_0000 < x.length % 0x1_0000_0000
  }

  /** slice on a full mapping, in the begin, center and end cases alike: exactly the requested
      pages are gone from the page map and from every mapping. */
  lemma SliceKeeps(s: Heap, zone: Zone, i: nat, base: nat, len: nat)
    requires MmapOk(s, zone) && Own(s, zone, i) && Full(s.mmap[i]) && Contains(s.mmap[i], base)
    requires base % 0x1000 == 0 && len % 0x1000 == 0 && len > 0 && SliceFits(s.mmap[i], base, len)
    ensures CanSlice(s, i, base, len)
    ensures Sliced(s, zone, Slice(s, i, base, len), Pg(base), SlicedPages(s.mmap[i], base, len))
  {
    hide Pg, MmapOk, Sliced, CanUnmap, SliceFront, SliceMiddle, SliceEnd, Live, Locked;
    var x := s.mmap[i];
    LiveAt(s, zone, i);
    RegionBound(s, zone, i);
    if base == x.addr {
      SliceFrontKeeps(s, zone, i, len);
    } else if Contains(x, base + len) {
      LengthMinus(base, x.addr);
      SliceMiddleKeeps(s, zone, i, base - x.addr, len);
    } else {
      SliceEndKeeps(s, zone, i, base);
    }
  }

  /** On a full mapping slice gets through its asserts if and only if, at the front, something is left, also
      after both lengths are cut to 32 bits. */
  lemma CanSliceIff(s: Heap, zone: Zone, i: nat, base: nat, len: nat)
    requires MmapOk(s, zone) && Own(s, zone, i) && Full(s.mmap[i]) && Contains(s.mmap[i], base)
    requires base % 0x1000 == 0 && len % 0x1000 == 0 && len > 0
    ensures CanSlice(s, i, base, len) <==>
            (base == s.mmap[i].addr ==>
               len < s.mmap[i].length && len % 0x1_0000_0000 < s.mmap[i].length % 0x1_0000_0000)
  {
    hide MmapOk, CanUnmap, Sliced, Slice, Full, PagesFromSize, PagesizeAlign;
    if SliceFits(s.mmap[i], base, len) {
      SliceKeeps(s, zone, i, base, len);
    }
  }

  /** So no page can be cut off the front of a mapping of 4 GiB. */
  lemma FourGigabytes(s: Heap, zone: Zone, i: nat, len: nat)
    requires MmapOk(s, zone) && Own(s, zone, i) && Full(s.mmap[i]) && len % 0x1000 == 0 && len > 0
    requires s.mmap[i].length % 0x1_0000_0000 == 0
    ensures !CanSlice(s, i, s.mmap[i].addr, len)
  {
    hide MmapOk, CanSlice;
    LiveAt(s, zone, i);
    CanSliceIff(s, zone, i, s.mmap[i].addr, len);
  }

  /** The pages that slice hands to unmap. */
  function SliceCount(x: Mapping, base: nat, len: nat): nat
    requires Contains(x, base)
  {
    if base == x.addr || Contains(x, base + len) then PagesFromSize(len) else PagesFromSize(x.addr + x.length - base)
  }

  /** A slice that takes the last present pages of a mapping. No assert stops it: unmap frees the
      region and erases the mapping, and slice goes on with a reference to what was erased. */
  ghost predicate Dangles(s: Heap, i: nat, base: nat, len: nat) {
    && i < |s.mmap| && Contains(s.mmap[i], base)
    && CanUnmap(s, InMmap(i), base, SliceCount(s.mmap[i], base, len))
    && SliceCount(s.mmap[i], base, len) == s.mmap[i].pages
  }

  /** What is left to go on with in that case: the mapping is gone from its list, its region is free. */
  lemma SliceDangles(s: Heap, zone: Zone, i: nat, base: nat, len: nat)
    requires MmapOk(s, zone) && Own(s, zone, i) && Dangles(s, i, base, len) && base % 0x1000 == 0
    ensures var x, s' := s.mmap[i], Unmap(s, InMmap(i), base, SliceCount(s.mmap[i], base, len));
            && s'.mmap == Erase(s.mmap, i) && x.region !in s'.a.used
            && x.region < |s'.a.regions| && s'.a.regions[x.region].free && !CanSlice(s, i, base, len)
  {
    hide MmapOk, Unmap, Erase, A.Inv, PagesFromSize, Pg;
    UnmapAllKeeps(s, zone, i, base, s.mmap[i].pages);
  }

  /** On a mapping with a page missing slice gets through its asserts and goes wrong: the count of
      the part below or behind the hole is then too large, slice_center maps the missing pages of
      the tail, or nothing of the mapping is left. It does what it should if and only if every page
      of the mapping is mapped and some page is left. */
  lemma SliceExact(s: Heap, zone: Zone, i: nat, base: nat, len: nat)
    requires MmapOk(s, zone) && Own(s, zone, i) && (CanSlice(s, i, base, len) || Dangles(s, i, base, len))
    requires base % 0x1000 == 0 && len % 0x1000 == 0 && len > 0
    ensures CanSlice(s, i, base, len)
            && Sliced(s, zone, Slice(s, i, base, len), Pg(base), SlicedPages(s.mmap[i], base, len)) <==>
            Full(s.mmap[i]) && !(base == s.mmap[i].addr && len == s.mmap[i].length)
  {
    hide Pg, MmapOk, Sliced, CanUnmap, Live, PagesFromSize, PagesizeAlign, CanSlice, Slice, Full;
    LiveAt(s, zone, i);
    SliceShort(s, i, base, len);
    if CanSlice(s, i, base, len) {
      CanSliceExact(s, zone, i, base, len);
    } else if Full(s.mmap[i]) {
      WholeMapping(s.mmap[i], base, len);
    }
  }

  lemma SliceShort(s: Heap, i: nat, base: nat, len: nat)
    requires CanSlice(s, i, base, len) || Dangles(s, i, base, len)
    ensures i < |s.mmap| && Contains(s.mmap[i], base)
    ensures CanSlice(s, i, base, len) ==> !(base == s.mmap[i].addr && len == s.mmap[i].length)
  {
  }

  /** All pages of a full mapping are taken only if it is taken as a whole. */
  lemma WholeMapping(x: Mapping, base: nat, len: nat)
    requires x.addr % 0x1000 == 0 && x.length % 0x1000 == 0 && base % 0x1000 == 0 && len % 0x1000 == 0
    requires Contains(x, base) && SliceCount(x, base, len) == x.pages && Full(x)
    ensures base == x.addr && len == x.length
  {
    LengthMinus(base, x.addr);
    LengthMinus(x.length, base - x.addr);
    PageArithmetic(x.addr, len);
    PageArithmetic(x.addr, x.length);
    PageArithmetic(x.addr, x.length - (base - x.addr));
  }

  lemma CanSliceExact(s: Heap, zone: Zone, i: nat, base: nat, len: nat)
    requires MmapOk(s, zone) && Own(s, zone, i) && CanSlice(s, i, base, len)
    requires base % 0x1000 == 0 && len % 0x1000 == 0 && len > 0
    ensures Sliced(s, zone, Slice(s, i, base, len), Pg(base), SlicedPages(s.mmap[i], base, len)) <==> Full(s.mmap[i])
  {
    hide Pg, MmapOk, Sliced, CanUnmap, SliceFront, SliceMiddle, SliceEnd, Live, Locked, Full, PagesFromSize,
         PagesizeAlign;
    var x := s.mmap[i];
    if Full(x) {
      SliceKeeps(s, zone, i, base, len);
    }
    if Sliced(s, zone, Slice(s, i, base, len), Pg(base), SlicedPages(x, base, len)) {
      LiveAt(s, zone, i);
      if base == x.addr {
        FrontNeedsFull(s, zone, i, len);
      } else if Contains(x, base + len) {
        LengthMinus(base, x.addr);
        MiddleNeedsFull(s, zone, i, base - x.addr, len);
      } else {
        EndNeedsFull(s, zone, i, base);
      }
    }
  }

  /** A mapping whose pages are all present is full. */
  lemma FullIfPresent(s: Heap, zone: Zone, i: nat, u: nat, k: nat)
    requires MmapOk(s, zone) && Own(s, zone, i) && R.Range(u, k) <= s.m.Keys
    requires forall p: nat | R.InRange(Pg(s.mmap[i].addr), Len(s.mmap[i]), p) :: R.InRange(u, k, p) || p in s.m
    ensures Full(s.mmap[i])
  {
    hide Pg, Len, A.Inv;
    var x := s.mmap[i];
    LiveAt(s, zone, i);
    forall p | p in R.Range(Pg(x.addr), Len(x)) ensures p in s.m {
      assert R.InRange(u, k, p) ==> p in R.Range(u, k);
    }
    CountFull(s.m, Pg(x.addr), Len(x));
  }

  /** A part whose count is its length has all its pages. */
  lemma PartPresent(s: Heap, zone: Zone, i: nat, m: P.PageMap)
    requires MmapOk(s, zone) && Own(s, zone, i) && Full(s.mmap[i]) && s.m.Keys <= m.Keys
    ensures forall p: nat | R.InRange(Pg(s.mmap[i].addr), Len(s.mmap[i]), p) :: p in m
  {
    hide Pg, Len, A.Inv;
    LiveAt(s, zone, i);
    FullPages(s.a, s.m, s.mmap[i]);
  }

  lemma FrontNeedsFull(s: Heap, zone: Zone, i: nat, len: nat)
    requires MmapOk(s, zone) && Own(s, zone, i) && CanSlice(s, i, s.mmap[i].addr, len) && len % 0x1000 == 0
    requires Sliced(s, zone, SliceFront(s, i, len), Pg(s.mmap[i].addr), len / 0x1000)
    ensures Full(s.mmap[i])
  {
    hide Pg, MmapOk, A.Inv, Locked, Live, R.Range, Unmap, A.CutFront, PagesFromSize, PagesizeAlign, Frame, ClearOf,
         InZone;
    var x, k, s' := s.mmap[i], len / 0x1000, SliceFront(s, i, len);
    LiveAt(s, zone, i);
    PageArithmetic(x.addr, len);
    LengthMinus(x.length, len);
    PageArithmetic(x.addr, x.length - len);
    UnmapPartKeeps(s, zone, i, x.addr, k);
    PartNotInZone(s, zone, i, MoveUp(x, len));
    PartPresent(s', zone, i, s.m);
    FullIfPresent(s, zone, i, Pg(x.addr), k);
  }

  lemma EndNeedsFull(s: Heap, zone: Zone, i: nat, base: nat)
    requires MmapOk(s, zone) && Own(s, zone, i) && base % 0x1000 == 0
    requires s.mmap[i].addr < base < s.mmap[i].addr + s.mmap[i].length
    requires var cnt := PagesFromSize(s.mmap[i].addr + s.mmap[i].length - base);
             && CanUnmap(s, InMmap(i), base, cnt) && cnt < s.mmap[i].pages
             && Sliced(s, zone, SliceEnd(s, i, base), Pg(base), (s.mmap[i].addr + s.mmap[i].length - base) / 0x1000)
    ensures Full(s.mmap[i])
  {
    hide Pg, MmapOk, A.Inv, Locked, Live, R.Range, Unmap, PagesFromSize, PagesizeAlign, Frame, ClearOf, InZone;
    var x, off := s.mmap[i], base - s.mmap[i].addr;
    LiveAt(s, zone, i);
    LengthMinus(base, x.addr);
    LengthMinus(x.length, off);
    PageArithmetic(x.addr, off);
    PageArithmetic(x.addr, x.length - off);
    var k := (x.length - off) / 0x1000;
    UnmapPartKeeps(s, zone, i, base, k);
    PartNotInZone(s, zone, i, SetLength(x, off));
    PartPresent(SliceEnd(s, i, base), zone, i, s.m);
    FullIfPresent(s, zone, i, Pg(base), k);
  }

  lemma PartNotInZone(s: Heap, zone: Zone, i: nat, y: Mapping)
    requires MmapOk(s, zone) && Own(s, zone, i) && Pg(s.mmap[i].addr) <= Pg(y.addr)
    requires Pg(y.addr) + Len(y) <= Pg(s.mmap[i].addr) + Len(s.mmap[i]) && Len(y) > 0
    ensures !InZone(zone, y)
  {
    hide Pg, Len, PagesFromSize;
    LiveAt(s, zone, i);
    LenBelow(y);
  }

  lemma MiddleNeedsFull(s: Heap, zone: Zone, i: nat, off: nat, len: nat)
    requires MmapOk(s, zone) && Own(s, zone, i) && off % 0x1000 == 0 && len % 0x1000 == 0 && 0 < off && 0 < len
    requires off + len < s.mmap[i].length && s.mmap[i].region < |s.a.regions|
    requires off + len <= s.a.regions[s.mmap[i].region].size
    requires CanUnmap(s, InMmap(i), s.mmap[i].addr + off, PagesFromSize(len)) && PagesFromSize(len) < s.mmap[i].pages
    requires Sliced(s, zone, SliceMiddle(s, i, off, len), Pg(s.mmap[i].addr + off), len / 0x1000)
    ensures Full(s.mmap[i])
  {
    hide Pg, MmapOk, A.Inv, Locked, Live, R.Range, Unmap, A.CutMiddle, A.SetAddr, PagesFromSize, PagesizeAlign,
         R.Overlay, FindSame, Len, Frame, ClearOf, InZone, SliceMiddle, A.FreeRegion;
    var x, y, z := s.mmap[i], SetLength(s.mmap[i], off), TailOf(s, s.mmap[i], off, len);
    LiveAt(s, zone, i);
    PageArithmetic(x.addr, len);
    PageArithmetic(x.addr, off);
    PageArithmetic(x.addr + off, len);
    TailArith(x, off, len, z, y);
    var u, k, s' := Pg(x.addr + off), len / 0x1000, SliceMiddle(s, i, off, len);
    MiddleValue(s, zone, i, off, len, y, z);
    PartNotInZone(s, zone, i, y);
    PartPresent(s', zone, i, s.m);
    Overlaid(s.m - R.Range(u, k), z);
    TailEnd(x, off, len, z, y);
    FullIfPresent(s, zone, i, u, k);
  }

  lemma TailEnd(x: Mapping, off: nat, len: nat, z: Mapping, y: Mapping)
    requires x.addr % 0x1000 == 0 && x.length % 0x1000 == 0 && off % 0x1000 == 0 && len % 0x1000 == 0
    requires off + len < x.length
    requires z.addr == x.addr + off + len && z.length == x.length - off - len && y.addr == x.addr && y.length == off
    ensures Pg(y.addr) + Len(y) == Pg(x.addr + off) && Pg(x.addr + off) + len / 0x1000 == Pg(z.addr)
    ensures Pg(z.addr) + Len(z) == Pg(x.addr) + Len(x)
  {
    LengthMinus(x.length, off);
    LengthMinus(x.length - off, len);
    PageArithmetic(x.addr, off);
    PageArithmetic(x.addr + off, len);
  }

  lemma Overlaid(m: P.PageMap, z: Mapping)
    ensures forall p: nat | R.InRange(Pg(z.addr), z.pages, p) ::
              p in R.Overlay(m, Pg(z.addr), z.host, z.pages, OptsOf(z))
  {
  }

  lemma RegionBound(s: Heap, zone: Zone, i: nat)
    requires MmapOk(s, zone) && Own(s, zone, i)
    ensures s.mmap[i].region < |s.a.regions|
  {
    LiveAt(s, zone, i);
  }

  /** An exact match: Mapping::modify (without refilling contents) and map. */
  ghost function Remap(s: Heap, i: nat, prot: Prot, anon: bool, fd: int, offset: int): Heap
    requires i < |s.mmap| && s.mmap[i].region < |s.a.regions|
  {
    var x := s.mmap[i].(pages := PagesFromSize(s.mmap[i].length), prot := prot, anon := anon, fd := fd,
                        offset := offset);
    MapIn(Set(s, InMmap(i), x), x)
  }

  lemma RemapKeeps(s: Heap, zone: Zone, i: nat, prot: Prot, anon: bool, fd: int, offset: int)
    requires MmapOk(s, zone) && Own(s, zone, i) && (prot.read || prot.write || prot.exec)
    ensures s.mmap[i].region < |s.a.regions|
    ensures var x, s' := s.mmap[i], Remap(s, i, prot, anon, fd, offset);
            && R.RangeOk(s.m, Pg(x.addr), x.host, Len(x)) && MmapOk(s', zone)
            && s'.m == R.Overlay(s.m, Pg(x.addr), x.host, Len(x), Opts(prot.write, prot.exec))
            && Frame(s, zone, s') && s'.a == s.a
            && s'.mmap ==
               s.mmap[i := x.(pages := x.length / 0x1000, prot := prot, anon := anon, fd := fd, offset := offset)]
  {
    hide Pg, MmapOk, A.Inv, R.Overlay, FindSame, Live, Linear, Counted, Frame, InZone;
    LiveAt(s, zone, i);
    InvOf(s, zone);
    A.UsedInBounds(s.a);
    var x := s.mmap[i];
    var z := x.(pages := PagesFromSize(x.length), prot := prot, anon := anon, fd := fd, offset := offset);
    PageArithmetic(x.addr, x.length);
    var m' := R.Overlay(s.m, Pg(x.addr), x.host, Len(x), Opts(prot.write, prot.exec));
    LiveRange(s.a, s.m, x);
    OverlayLive(s.m, z);
    LiveFrom(s.a, m', z);
    A.NotFree(s.a, x.region);
    forall j | Own(s, zone, j) && j != i ensures Live(s.a, m', s.mmap[j]) {
      LiveAt(s, zone, j);
      ApartAt(s, zone, i, j);
      OverlayOthers(s.a, s.m, s.a, s.mmap[j], Pg(x.addr), x.host, Len(x), Opts(prot.write, prot.exec));
    }
    OverlayOff(zone, s.m, Pg(x.addr), x.host, Len(x), Opts(prot.write, prot.exec));
    ReplacedOk(s, zone, i, z, s.a, m');
    FindsAt(s.mmap[i := z], i);
  }

  lemma ApartAt(s: Heap, zone: Zone, i: nat, j: nat)
    requires MmapOk(s, zone) && Own(s, zone, i) && Own(s, zone, j) && i != j
    ensures var x, y := s.mmap[i], s.mmap[j];
            Pg(y.addr) + Len(y) <= Pg(x.addr) || Pg(x.addr) + Len(x) <= Pg(y.addr)
  {
    assert Separate(s.mmap[i], s.mmap[j]) || Separate(s.mmap[j], s.mmap[i]);
  }

  lemma LiveRange(a: A.Alloc, m: P.PageMap, x: Mapping)
    requires Live(a, m, x)
    ensures R.RangeOk(m, Pg(x.addr), x.host, Len(x))
  {
  }

  lemma FindsAt(l: seq<Mapping>, i: nat)
    requires i < |l|
    ensures FindSame(l, l[i]) >= 0
  {
    assert Same(l[i], l[i]);
  }

  datatype Request = Request(addr: nat, length: nat, prot: Prot, fixed: bool, anon: bool, fd: int, offset: int)

  /** The state from which get_mapping allocates: behind the slice, if there is one. */
  ghost predicate Before(s: Heap, q: Request, s1: Heap) {
    var len := PagesizeAlign(q.length);
    if q.addr != 0 && q.fixed && FindContaining(s.mmap, q.addr) >= 0 then
      var j := FindContaining(s.mmap, q.addr);
      CanSlice(s, j, q.addr, len) && s1 == Slice(s, j, q.addr, len)
    else s1 == s
  }

  predicate Exact(s: Heap, q: Request) {
    q.addr != 0 && q.fixed && FindExact(s.mmap, q.addr, PagesizeAlign(q.length)) >= 0
  }

  /** get_mapping: r is the allocation it makes in s1. */
  ghost predicate GetMapping(s: Heap, q: Request, s1: Heap, r: A.Allocated, s': Heap) {
    var len := PagesizeAlign(q.length);
    if Exact(s, q) then
      var i := FindExact(s.mmap, q.addr, len);
      s.mmap[i].region < |s.a.regions| && s' == Remap(s, i, q.prot, q.anon, q.fd, q.offset)
    else
      && Before(s, q, s1) && r.h < |r.s.regions|
      && s' == CreateIn(s1, r, if q.addr != 0 && q.fixed then q.addr else 0, len, q.prot, q.anon, q.fd, q.offset)
  }

  lemma OverlayOverHole(m: P.PageMap, u: nat, host: nat, k: nat, opts: Opts)
    ensures R.Overlay(m - R.Range(u, k), u, host, k, opts) == R.Overlay(m, u, host, k, opts)
  {
    forall p: nat | R.InRange(u, k, p) ensures p in R.Range(u, k) {
    }
  }

  lemma SlicedIsVacant(s: Heap, zone: Zone, s1: Heap, u: nat, k: nat)
    requires Sliced(s, zone, s1, u, k)
    ensures MmapOk(s1, zone) && Vacant(s1, u, k) && s1.m == s.m - R.Range(u, k) && Off(zone, u, k) && Frame(s, zone, s1)
  {
    hide MmapOk, ClearOf, Frame;
  }

  /** MAP_FIXED on a page-aligned range inside one fully mapped mapping, in the begin, center and
      end cases alike: the range translates linearly to the new region with the new rights, and
      every other page, of the old mapping and elsewhere, keeps its translation. */
  lemma FixedReplaces(s: Heap, zone: Zone, q: Request, s1: Heap, r: A.Allocated, s': Heap)
    requires MmapOk(s, zone) && q.fixed && q.addr > 0 && q.addr % 0x1000 == 0 && q.length > 0
    requires Off(zone, Pg(q.addr), 1)
    requires q.prot.read || q.prot.write || q.prot.exec
    requires !Exact(s, q) && GetMapping(s, q, s1, r, s') && A.Serves(s1.a, PagesizeAlign(q.length), r)
    requires var j := FindContaining(s.mmap, q.addr);
             && j >= 0 && Full(s.mmap[j]) && SliceFits(s.mmap[j], q.addr, PagesizeAlign(q.length))
             && q.addr + PagesizeAlign(q.length) <= s.mmap[j].addr + s.mmap[j].length
    ensures MmapOk(s', zone) && Frame(s, zone, s')
    ensures s'.m == R.Overlay(s.m, Pg(q.addr), r.s.regions[r.h].host, PagesizeAlign(q.length) / 0x1000,
                              Opts(q.prot.write, q.prot.exec))
    ensures r.h < |r.s.regions| && Made(s'.mmap, r, q.addr, PagesizeAlign(q.length), q.prot, q.anon, q.fd, q.offset)
  {
    hide Frame, Off, Own, Pg, MmapOk, Sliced, Vacant, CanSlice, Slice, CreateIn, A.Serves, R.Overlay, R.Range, Full,
         SliceFits, PagesizeAlign;
    var len, j := PagesizeAlign(q.length), FindContaining(s.mmap, q.addr);
    FoundOwn(s, zone, q.addr);
    SliceKeeps(s, zone, j, q.addr, len);
    var u, k := Pg(q.addr), len / 0x1000;
    SlicedIsVacant(s, zone, s1, u, k);
    CreateKeeps(s1, zone, r, q.addr, len, q.prot, q.anon, q.fd, q.offset);
    FrameTrans(s, zone, s1, s');
    OverlayOverHole(s.m, u, r.s.regions[r.h].host, k, Opts(q.prot.write, q.prot.exec));
  }

  /** A mapping at an address outside the zone is no copy. */
  lemma FoundOwn(s: Heap, zone: Zone, addr: nat)
    requires addr % 0x1000 == 0 && Off(zone, Pg(addr), 1)
    ensures forall i | 0 <= i < |s.mmap| && Contains(s.mmap[i], addr) :: Own(s, zone, i)
  {
    forall i | 0 <= i < |s.mmap| && Contains(s.mmap[i], addr) ensures Own(s, zone, i) {
      OutsideZone(s.mmap[i], zone, addr);
    }
  }

  lemma OutsideZone(x: Mapping, zone: Zone, addr: nat)
    requires addr % 0x1000 == 0 && Off(zone, Pg(addr), 1) && Contains(x, addr)
    ensures !InZone(zone, x)
  {
    assert x.length <= 0x1000 * PagesFromSize(x.length) && addr == 0x1000 * Pg(addr);
  }

  // ----- runs

  datatype Op = Mmap(q: Request, s1: Heap, r: A.Allocated) | Munmap(i: nat, addr: nat, pages: nat)

  /** The range of a request lies inside the mapping that it replaces part of. */
  ghost predicate ReplacesInside(s: Heap, q: Request) {
    && q.addr != 0 && q.fixed && FindContaining(s.mmap, q.addr) >= 0
    && var x := s.mmap[FindContaining(s.mmap, q.addr)];
       q.addr + PagesizeAlign(q.length) <= x.addr + x.length
  }

  /** What callers and allocator owe: some permission, page-aligned fixed addresses outside the
      pages of brk, a mapping that is split is fully mapped, and the pages of a new mapping are
      not in use and not those of brk, apart from those it replaces. */
  ghost predicate MmapEnabled(s: Heap, zone: Zone, q: Request, s1: Heap, r: A.Allocated) {
    && q.length > 0 && (q.prot.read || q.prot.write || q.prot.exec) && q.addr % 0x1000 == 0
    && (q.addr != 0 && q.fixed ==> Off(zone, Pg(q.addr), 1))
    && (!Exact(s, q) ==>
          && Before(s, q, s1) && A.Serves(s1.a, PagesizeAlign(q.length), r)
          && (q.addr != 0 && q.fixed && FindContaining(s.mmap, q.addr) >= 0 ==>
                var x := s.mmap[FindContaining(s.mmap, q.addr)];
                Full(x) && SliceFits(x, q.addr, PagesizeAlign(q.length)))
          && (!ReplacesInside(s, q) ==>
                var u, k := Pg(Target(r.s, r.h, if q.fixed then q.addr else 0)), PagesizeAlign(q.length) / 0x1000;
                Vacant(s1, u, k) && Off(zone, u, k)))
  }

  ghost predicate Step(s: Heap, zone: Zone, op: Op, s': Heap) {
    match op
    case Mmap(q, s1, r) => MmapEnabled(s, zone, q, s1, r) && GetMapping(s, q, s1, r, s')
    case Munmap(i, addr, pages) =>
      && addr % 0x1000 == 0 && Own(s, zone, i) && CanUnmap(s, InMmap(i), addr, pages)
      && s' == Unmap(s, InMmap(i), addr, pages)
  }

  /** Mapping i is the first with the address and length of the request. */
  predicate FirstExact(l: seq<Mapping>, q: Request, i: nat) {
    && q.fixed && q.addr != 0 && i < |l| && l[i].addr == q.addr && l[i].length == PagesizeAlign(q.length)
    && forall j | 0 <= j < i :: l[j].addr != q.addr || l[j].length != PagesizeAlign(q.length)
  }

  /** What get_mapping promises its caller. On an exact match the mapping has the requested rights, file and
      offset, on the same region and the same host pages; otherwise there is a new one on the region that
      was allocated, and every other page behind the slice is as it was. Nothing is sliced unless a mapping
      holds the fixed address. */
  ghost predicate Delivers(s: Heap, q: Request, s1: Heap, r: A.Allocated, s': Heap) {
    var len := PagesizeAlign(q.length);
    && (forall i: nat | FirstExact(s.mmap, q, i) ::
          && s'.a == s.a
          && s'.mmap == s.mmap[i := s.mmap[i].(pages := len / 0x1000, prot := q.prot, anon := q.anon, fd := q.fd,
                                               offset := q.offset)]
          && s'.m == R.Overlay(s.m, Pg(q.addr), s.mmap[i].host, len / 0x1000, Opts(q.prot.write, q.prot.exec)))
    && ((forall i: nat :: !FirstExact(s.mmap, q, i)) ==>
          && (!q.fixed || q.addr == 0 || (forall x | x in s.mmap :: !(x.addr <= q.addr < x.addr + x.length)) ==>
                s1 == s)
          && r.h < |r.s.regions| && |s'.mmap| == |s1.mmap| + 1 && s'.mmap[..|s1.mmap|] == s1.mmap
          && Made(s'.mmap, r, if q.fixed then q.addr else 0, len, q.prot, q.anon, q.fd, q.offset)
          && s'.m == R.Overlay(s1.m, Pg(s'.mmap[|s1.mmap|].addr), r.s.regions[r.h].host, len / 0x1000,
                               Opts(q.prot.write, q.prot.exec)))
  }

  lemma NothingSliced(s: Heap, q: Request, s1: Heap)
    requires Before(s, q, s1)
    ensures !q.fixed || q.addr == 0 || (forall x | x in s.mmap :: !(x.addr <= q.addr < x.addr + x.length)) ==> s1 == s
  {
    hide CanSlice, Slice;
    var j := FindContaining(s.mmap, q.addr);
    assert j >= 0 ==> s.mmap[j] in s.mmap;
  }

  lemma GetMappingDelivers(s: Heap, q: Request, s1: Heap, r: A.Allocated, s': Heap)
    requires q.length > 0 && GetMapping(s, q, s1, r, s')
    requires A.Inv(s.a) && forall i: nat | FirstExact(s.mmap, q, i) :: s.mmap[i].region in s.a.used
    ensures Delivers(s, q, s1, r, s')
  {
    hide Pg, R.Overlay, FindSame, PagesizeAlign, PagesFromSize, A.Inv, Before, A.SetAddr;
    ExactFirst(s, q);
    AlignedPages(q.length);
    if Exact(s, q) {
      var i := FindExact(s.mmap, q.addr, PagesizeAlign(q.length));
      assert FirstExact(s.mmap, q, i);
      A.NotFree(s.a, s.mmap[i].region);
      var x := s.mmap[i].(pages := PagesFromSize(s.mmap[i].length), prot := q.prot, anon := q.anon, fd := q.fd,
                          offset := q.offset);
      FindsAt(s.mmap[i := x], i);
    } else {
      var addr := if q.addr != 0 && q.fixed then q.addr else 0;
      FindsItself(s1.mmap, NewMapping(r.s, r.h, addr, PagesizeAlign(q.length), q.prot, q.anon, q.fd, q.offset));
      NothingSliced(s, q, s1);
    }
  }

  lemma AlignedPages(length: nat)
    ensures PagesizeAlign(PagesizeAlign(length)) == PagesizeAlign(length)
    ensures PagesFromSize(PagesizeAlign(length)) == PagesizeAlign(length) / 0x1000
  {
  }

  lemma ExactFirst(s: Heap, q: Request)
    ensures forall i: nat :: FirstExact(s.mmap, q, i) <==>
              Exact(s, q) && i == FindExact(s.mmap, q.addr, PagesizeAlign(q.length))
  {
    hide PagesizeAlign;
    var k := FindExact(s.mmap, q.addr, PagesizeAlign(q.length));
    forall i: nat ensures FirstExact(s.mmap, q, i) <==> Exact(s, q) && i == k {
    }
  }

  lemma MmapStep(s: Heap, zone: Zone, q: Request, s1: Heap, r: A.Allocated, s': Heap)
    requires MmapOk(s, zone) && MmapEnabled(s, zone, q, s1, r) && GetMapping(s, q, s1, r, s')
    ensures MmapOk(s', zone) && Frame(s, zone, s') && Delivers(s, q, s1, r, s')
  {
    hide Pg, MmapOk, Sliced, Vacant, CanSlice, Slice, CreateIn, Remap, A.Serves, R.Overlay, R.Range, Full, SliceFits,
         PagesizeAlign, Frame, Off, Own, Delivers;
    InvOf(s, zone);
    ExactUsed(s, zone, q);
    GetMappingDelivers(s, q, s1, r, s');
    if Exact(s, q) {
      ExactOwn(s, zone, q);
      RemapKeeps(s, zone, FindExact(s.mmap, q.addr, PagesizeAlign(q.length)), q.prot, q.anon, q.fd, q.offset);
    } else if ReplacesInside(s, q) {
      FixedReplaces(s, zone, q, s1, r, s');
    } else {
      SlicedFirst(s, zone, q, s1, r);
      CreateKeeps(s1, zone, r, if q.addr != 0 && q.fixed then q.addr else 0, PagesizeAlign(q.length), q.prot, q.anon,
                  q.fd, q.offset);
      FrameTrans(s, zone, s1, s');
    }
  }

  lemma ExactUsed(s: Heap, zone: Zone, q: Request)
    requires MmapOk(s, zone) && q.length > 0 && q.addr % 0x1000 == 0
    requires q.addr != 0 && q.fixed ==> Off(zone, Pg(q.addr), 1)
    ensures forall i: nat | FirstExact(s.mmap, q, i) :: s.mmap[i].region in s.a.used
  {
    hide Off, Own, Pg, MmapOk, PagesizeAlign;
    ExactFirst(s, q);
    if Exact(s, q) {
      ExactOwn(s, zone, q);
      LiveAt(s, zone, FindExact(s.mmap, q.addr, PagesizeAlign(q.length)));
    }
  }

  lemma ExactOwn(s: Heap, zone: Zone, q: Request)
    requires Exact(s, q) && q.length > 0 && q.addr % 0x1000 == 0 && Off(zone, Pg(q.addr), 1)
    ensures Own(s, zone, FindExact(s.mmap, q.addr, PagesizeAlign(q.length)))
  {
    hide Off, Own, FindExact;
    FoundOwn(s, zone, q.addr);
  }

  lemma FrameSelf(s: Heap, zone: Zone)
    requires MmapOk(s, zone)
    ensures Frame(s, zone, s)
  {
    A.UsedInBounds(s.a);
  }

  lemma SlicedFirst(s: Heap, zone: Zone, q: Request, s1: Heap, r: A.Allocated)
    requires MmapOk(s, zone) && MmapEnabled(s, zone, q, s1, r) && !Exact(s, q)
    ensures MmapOk(s1, zone) && Frame(s, zone, s1)
  {
    hide Pg, MmapOk, Vacant, CanSlice, Slice, A.Serves, R.Range, Full, SliceFits, PagesizeAlign, Frame, Off, Own;
    FrameSelf(s, zone);
    if q.addr != 0 && q.fixed && FindContaining(s.mmap, q.addr) >= 0 {
      var j := FindContaining(s.mmap, q.addr);
      FoundOwn(s, zone, q.addr);
      SliceKeeps(s, zone, j, q.addr, PagesizeAlign(q.length));
    }
  }

  lemma StepKeeps(s: Heap, zone: Zone, op: Op, s': Heap)
    requires MmapOk(s, zone) && Step(s, zone, op, s')
    ensures MmapOk(s', zone) && Frame(s, zone, s')
  {
    hide MmapOk, MmapEnabled, GetMapping, Unmap, Frame;
    match op
    case Mmap(q, s1, r) => MmapStep(s, zone, q, s1, r, s');
    case Munmap(i, addr, pages) =>
      if pages < s.mmap[i].pages {
        UnmapPartKeeps(s, zone, i, addr, pages);
      } else {
        UnmapAllKeeps(s, zone, i, addr, pages);
      }
  }

  /** The states of a run, one more than its operations. */
  ghost predicate Run(states: seq<Heap>, zone: Zone, ops: seq<Op>) {
    |states| == |ops| + 1 && forall n | 0 <= n < |ops| :: Step(states[n], zone, ops[n], states[n + 1])
  }

  /** In every state of every run of mmap, MAP_FIXED and munmap: each mapping has the host and
      guest base of its region and fits in it, its mapped_pages is the number of its pages still
      present and is never zero, and each present page translates to host base plus offset with
      the mapping's rights. */
  lemma {:induction false} RunKeeps(states: seq<Heap>, zone: Zone, ops: seq<Op>, n: nat)
    requires Run(states, zone, ops) && n < |states| && MmapOk(states[0], zone)
    ensures MmapOk(states[n], zone)
  {
    hide MmapOk, Step;
    if n > 0 {
      RunKeeps(states, zone, ops, n - 1);
      assert Step(states[n - 1], zone, ops[n - 1], states[n]);
      StepKeeps(states[n - 1], zone, ops[n - 1], states[n]);
    }
  }
}
