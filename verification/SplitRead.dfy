/** elkvm_do_read: a guest buffer that spans several regions is read piece by piece, one region at
    a time, and the pieces add up to one read. */
module SplitRead {
  import P = Pager
  import A = Allocator
  import H = HostMemory
  import opened Mappings
  import S = StackRuns
  import opened RegionManagers
  import opened Lookups

  // ----- buffers on values

  predicate Covers(r: A.Region, g: nat) { r.addr <= g < r.addr + r.size }

  /** Region h in use holds the translation of g. */
  ghost predicate Backs(a: A.Alloc, m: P.PageMap, h: nat, g: nat) {
    Pg(g) in m && h in a.used && h < |a.regions| && A.Holds(a.regions[h], S.Translate(m, g))
  }

  /** The region covers g and translates it linearly. */
  ghost predicate Straight(r: A.Region, m: P.PageMap, g: nat) {
    Pg(g) in m && Covers(r, g) && S.Translate(m, g) == r.host + (g - r.addr)
  }

  ghost predicate LinearAt(a: A.Alloc, m: P.PageMap, g: nat) {
    exists h: nat :: Backs(a, m, h, g) && Straight(a.regions[h], m, g)
  }

  /** Every address of the buffer is backed by a region that translates it linearly. */
  ghost predicate StraightAll(a: A.Alloc, m: P.PageMap, buf: nat, count: nat) {
    forall g: nat | H.Within(buf, count, g) :: LinearAt(a, m, g)
  }

  /** A region that backs one address of the buffer backs all that it covers. It fails across the end
      of a mapping that slice_end shortened, since the region keeps its size. */
  ghost predicate Closed(a: A.Alloc, m: P.PageMap, buf: nat, count: nat) {
    forall h: nat, g: nat, f: nat | Backs(a, m, h, g) && H.Within(buf, count, g) && H.Within(buf, count, f)
        && Covers(a.regions[h], f) :: Backs(a, m, h, f)
  }

  /** Regions that back no address of the buffer, such as the page-table pool with its guest
      address 0, may cover what they like. */
  ghost predicate Linear(a: A.Alloc, m: P.PageMap, buf: nat, count: nat) {
    StraightAll(a, m, buf, count) && Closed(a, m, buf, count)
  }

  /** A buffer that one region translates linearly, at whatever address. */
  lemma InOneRegion(a: A.Alloc, m: P.PageMap, buf: nat, count: nat, h: nat)
    requires A.Inv(a) && h in a.used && h < |a.regions|
    requires forall g: nat | H.Within(buf, count, g) :: Straight(a.regions[h], m, g)
    ensures Linear(a, m, buf, count)
  {
    hide S.Translate, A.Inv, Pg;
    forall g: nat | H.Within(buf, count, g) ensures Backs(a, m, h, g) && LinearAt(a, m, g) {
      assert Straight(a.regions[h], m, g);
    }
    forall k: nat, g: nat, f: nat | Backs(a, m, k, g) && H.Within(buf, count, g) && H.Within(buf, count, f)
      ensures Backs(a, m, k, f)
    {
      A.OneRegion(a, h, k, S.Translate(m, g));
    }
  }

  /** The region that backs g translates it linearly. */
  lemma Located(a: A.Alloc, m: P.PageMap, g: nat, h: nat)
    requires A.Inv(a) && LinearAt(a, m, g) && Backs(a, m, h, g)
    ensures Straight(a.regions[h], m, g)
  {
    hide S.Translate, A.Inv, Pg;
    var k: nat :| Backs(a, m, k, g) && Straight(a.regions[k], m, g);
    A.OneRegion(a, k, h, S.Translate(m, g));
  }

  /** Distinct addresses have distinct translations. */
  lemma Injective(a: A.Alloc, m: P.PageMap, g: nat, f: nat)
    requires A.Inv(a) && LinearAt(a, m, g) && LinearAt(a, m, f) && g != f
    ensures Pg(g) in m && Pg(f) in m && S.Translate(m, g) != S.Translate(m, f)
  {
    hide S.Translate, A.Inv, Pg;
    var h: nat :| Backs(a, m, h, g) && Straight(a.regions[h], m, g);
    var k: nat :| Backs(a, m, k, f) && Straight(a.regions[k], m, f);
    if S.Translate(m, g) == S.Translate(m, f) {
      A.OneRegion(a, h, k, S.Translate(m, g));
    }
  }

  /** The bytes from a host address to the end of its region. */
  function Space(r: A.Region, host: nat): int { r.host + r.size - host }

  /** Up to the end of its region a buffer is contiguous in host memory. */
  lemma Contiguous(a: A.Alloc, m: P.PageMap, buf: nat, count: nat, g: nat, h: nat, f: nat)
    requires A.Inv(a) && Linear(a, m, buf, count) && H.Within(buf, count, g) && H.Within(buf, count, f) && g <= f
    requires Backs(a, m, h, g)
    ensures Pg(f) in m && (f - g < Space(a.regions[h], S.Translate(m, g)) <==> Backs(a, m, h, f))
    ensures f - g < Space(a.regions[h], S.Translate(m, g)) ==> S.Translate(m, f) == S.Translate(m, g) + (f - g)
  {
    hide S.Translate, A.Inv, Pg;
    assert LinearAt(a, m, g) && LinearAt(a, m, f);
    Located(a, m, g, h);
    if f - g < Space(a.regions[h], S.Translate(m, g)) {
      assert Covers(a.regions[h], f);
      Located(a, m, f, h);
    } else if Backs(a, m, h, f) {
      Located(a, m, f, h);
    }
  }

  /** The byte after the end of a region is the first of its own region, as the loop asserts. */
  lemma NextStarts(a: A.Alloc, m: P.PageMap, buf: nat, count: nat, g: nat, h: nat, h': nat)
    requires A.Inv(a) && Linear(a, m, buf, count) && H.Within(buf, count, g) && H.Within(buf, count, g + 1)
    requires Backs(a, m, h, g) && !Backs(a, m, h, g + 1) && Backs(a, m, h', g + 1)
    ensures S.Translate(m, g + 1) == a.regions[h'].host
  {
    hide S.Translate, A.Inv, Pg;
    assert LinearAt(a, m, g + 1);
    Located(a, m, g + 1, h');
    if Covers(a.regions[h'], g) {
      assert Backs(a, m, h', g);
      A.OneRegion(a, h, h', S.Translate(m, g));
    }
  }

  // ----- what a read delivers

  /** One of the k bytes from buf on translates to x. */
  ghost predicate Hit(m: P.PageMap, buf: nat, k: nat, x: nat) {
    exists g: nat :: H.Within(buf, k, g) && Pg(g) in m && S.Translate(m, g) == x
  }

  /** The first k bytes of data lie at the translations of buf, buf + 1, ..., and nothing else
      has changed. */
  ghost predicate Delivered(m: P.PageMap, buf: nat, k: nat, data: seq<H.Byte>, mem0: H.Memory, mem: H.Memory) {
    && k <= |data|
    && (forall g: nat | H.Within(buf, k, g) :: Pg(g) in m && H.At(mem, S.Translate(m, g)) == data[g - buf])
    && (forall x: nat :: H.At(mem, x) == H.At(mem0, x) || Hit(m, buf, k, x))
  }

  ghost predicate Piece(m: P.PageMap, g: nat, n: nat, host: nat) {
    forall f: nat | H.Within(g, n, f) :: Pg(f) in m && S.Translate(m, f) == host + (f - g)
  }

  lemma DeliveredMore(a: A.Alloc, m: P.PageMap, buf: nat, count: nat, k: nat, n: nat, data: seq<H.Byte>,
                      mem0: H.Memory, mem: H.Memory, host: nat)
    requires A.Inv(a) && Linear(a, m, buf, count) && k + n <= count && k + n <= |data|
    requires Delivered(m, buf, k, data, mem0, mem) && Piece(m, buf + k, n, host)
    ensures Delivered(m, buf, k + n, data, mem0, H.Put(mem, host, data[k..k + n]))
  {
    hide S.Translate, A.Inv, Linear, Pg;
    var mem' := H.Put(mem, host, data[k..k + n]);
    forall x: nat ensures H.At(mem', x) == if H.Within(host, n, x) then data[k + (x - host)] else H.At(mem, x) {
      H.PutAt(mem, host, data[k..k + n], x);
    }
    forall g: nat | H.Within(buf, k + n, g) ensures Pg(g) in m && H.At(mem', S.Translate(m, g)) == data[g - buf] {
      if g < buf + k {
        NotInPiece(a, m, buf, count, k, n, host, g);
      } else {
        assert H.Within(buf + k, n, g);
      }
    }
    forall x: nat ensures H.At(mem', x) == H.At(mem0, x) || Hit(m, buf, k + n, x) {
      if H.Within(host, n, x) {
        assert H.Within(buf + k, n, buf + k + (x - host));
        assert H.Within(buf, k + n, buf + k + (x - host));
      } else if H.At(mem, x) != H.At(mem0, x) {
        var g: nat :| H.Within(buf, k, g) && Pg(g) in m && S.Translate(m, g) == x;
        assert H.Within(buf, k + n, g);
      }
    }
  }

  lemma NotInPiece(a: A.Alloc, m: P.PageMap, buf: nat, count: nat, k: nat, n: nat, host: nat, g: nat)
    requires A.Inv(a) && Linear(a, m, buf, count) && k + n <= count && Piece(m, buf + k, n, host) && buf <= g < buf + k
    ensures Pg(g) in m && !H.Within(host, n, S.Translate(m, g))
  {
    hide S.Translate, A.Inv, Pg;
    assert LinearAt(a, m, g);
    if H.Within(host, n, S.Translate(m, g)) {
      var f := buf + k + (S.Translate(m, g) - host);
      assert H.Within(buf + k, n, f) && H.Within(buf, count, f);
      assert LinearAt(a, m, f);
      Injective(a, m, g, f);
    }
  }

  // ----- the system call

  /** A file behind the read handler: it may deliver fewer bytes than asked for, or fail. */
  class Reader {
    var data: seq<H.Byte>
    var plan: seq<int>
    var short: bool
    var errno: int

    method Read(ram: H.Ram, host: nat, n: nat) returns (r: int)
      modifies this`data, this`plan, this`short, ram
      ensures r <= n && r <= |old(data)| && short == (r < n)
      ensures r < 0 ==> ram.bytes == old(ram.bytes) && data == old(data)
      ensures r >= 0 ==> ram.bytes == H.Put(old(ram.bytes), host, old(data)[..r]) && data == old(data)[r..]
    {
      r := if n <= |data| then n else |data|;
      if plan != [] {
        r := if plan[0] < r then plan[0] else r;
        plan := plan[1..];
      }
      short := r < n;
      if r >= 0 {
        ram.Copy(host, data[..r]);
        data := data[r..];
      }
    }
  }

  /** same_region */
  method SameRegion(rm: RegionManager, p1: nat, p2: nat) returns (same: bool, ghost h: nat)
    requires A.Inv(rm.View()) && exists g: nat :: g in rm.used && g < |rm.regions| && A.Holds(rm.regions[g], p1)
    ensures same <==> exists g: nat ::
                        g in rm.used && g < |rm.regions| && A.Holds(rm.regions[g], p1) && A.Holds(rm.regions[g], p2)
    ensures h in rm.used && h < |rm.regions| && A.Holds(rm.regions[h], p1) && same == A.Holds(rm.regions[h], p2)
  {
    hide A.Inv;
    A.UsedInBounds(rm.View());
    var found, k := rm.FindRegion(p1);
    h := k;
    same := A.Holds(rm.regions[k], p2);
    forall g: nat | g in rm.used && g < |rm.regions| && A.Holds(rm.regions[g], p1) ensures g == k {
      A.OneRegion(rm.View(), g, k, p1);
    }
  }

  /** g starts a region behind another one. */
  ghost predicate Boundary(a: A.Alloc, m: P.PageMap, g: nat) {
    g > 0 && exists h: nat :: Backs(a, m, h, g - 1) && !Backs(a, m, h, g)
  }

  // ----- the loop on values

  /** mark_p, current_count and result at the start of a round. */
  datatype Loop = Loop(mark: nat, current: nat, result: nat)

  /** A round whose read delivers all it was asked for and behind which the loop goes on. */
  ghost predicate Round(a: A.Alloc, m: P.PageMap, bend: nat, l: Loop, l': Loop) {
    exists h: nat ::
      && Backs(a, m, h, l.mark) && !A.Holds(a.regions[h], bend)
      && l' == Next(l, Space(a.regions[h], S.Translate(m, l.mark)))
  }

  function Next(l: Loop, space: int): Loop
    requires space > 0
  {
    var n := if space < l.current then space else l.current;
    Loop(l.mark + n, l.current - n, l.result + n)
  }

  /** The guest memory that a read works on. */
  ghost predicate Buffer(rm: RegionManager, freed: set<nat>, buf: nat, count: nat)
    reads rm, rm.pager, rm.pager.tlb
  {
    && rm.Valid() && P.TlbOk(rm.pager.S(), freed) && Linear(rm.View(), rm.pager.Pages(), buf, count)
    && 0x1000 <= buf && buf + count <= 0x8000_0000_0000 && forall g: nat | H.Within(buf, count, g) :: Pg(g) !in freed
  }

  predicate HostIs(m: P.PageMap, g: nat, host: nat) { Pg(g) in m && host == S.Translate(m, g) }

  /** k bytes of data have gone to the buffer, and the reader stands behind them. */
  ghost predicate Progress(reader: Reader, ram: H.Ram, m: P.PageMap, buf: nat, k: nat, data: seq<H.Byte>, mem: H.Memory)
    reads reader, ram
  {
    Delivered(m, buf, k, data, mem, ram.bytes) && reader.data == data[k..]
  }

  lemma BufferAt(rm: RegionManager, freed: set<nat>, buf: nat, count: nat, g: nat)
    requires Buffer(rm, freed, buf, count) && buf <= g < buf + count
    ensures 0x1000 <= g < 0x8000_0000_0000 && Pg(g) !in freed && Pg(g) in rm.pager.Pages()
    ensures exists h: nat :: Backs(rm.View(), rm.pager.Pages(), h, g)
  {
    hide P.Inv, P.Pages, P.TlbOk, A.Inv, Pg, S.Translate;
    assert H.Within(buf, count, g);
    assert LinearAt(rm.View(), rm.pager.Pages(), g);
  }

  /** The piece of n bytes from the k-th one to the end of its region h or of the buffer. */
  ghost predicate PieceAt(a: A.Alloc, m: P.PageMap, buf: nat, count: nat, k: nat, h: nat, host: nat, n: nat) {
    && Backs(a, m, h, buf + k) && host == S.Translate(m, buf + k) && 0 < n <= count - k
    && n == (if Space(a.regions[h], host) < count - k then Space(a.regions[h], host) else count - k)
    && Piece(m, buf + k, n, host) && (n < count - k ==> Boundary(a, m, buf + k + n))
    && forall bend | HostIs(m, buf + count - 1, bend) :: A.Holds(a.regions[h], bend) <==> n == count - k
  }

  method LocatePiece(rm: RegionManager, buf: nat, count: nat, k: nat, ghost freed: set<nat>)
    returns (host: nat, n: nat, ghost h: nat)
    requires k < count && (k > 0 ==> Boundary(rm.View(), rm.pager.Pages(), buf + k))
    requires Buffer(rm, freed, buf, count)
    modifies rm.pager.tlb
    ensures rm.pager.Pages() == old(rm.pager.Pages())
    ensures PieceAt(rm.View(), rm.pager.Pages(), buf, count, k, h, host, n)
    ensures Buffer(rm, freed, buf, count)
  {
    hide P.Inv, P.Pages, P.TlbOk, A.Inv, Pg, S.Translate, Piece, Boundary, Linear;
    ghost var a, m := rm.View(), rm.pager.Pages();
    BufferAt(rm, freed, buf, count, buf + k);
    BufferAt(rm, freed, buf, count, buf + count - 1);
    A.UsedInBounds(a);
    host := HostP(rm, buf + k, freed);
    TranslateIs(m, buf + k);
    var found, g := rm.FindRegion(host);
    h := g;
    if k > 0 {
      StartsRegion(a, m, buf, count, buf + k, h);
      assert host == rm.regions[g].host;
    }
    n := rm.regions[g].host + rm.regions[g].size - host;
    PieceIs(a, m, buf, count, k, h, n);
    if n > count - k {
      n := count - k;
    }
  }

  /** A call of the handler for the n bytes from the k-th one on, which are one piece. */
  method ReadAt(ram: H.Ram, reader: Reader, host: nat, n: nat, ghost a: A.Alloc, ghost m: P.PageMap, ghost buf: nat,
                ghost count: nat, ghost k: nat, ghost data: seq<H.Byte>, ghost mem: H.Memory)
    returns (r: int)
    requires A.Inv(a) && Linear(a, m, buf, count) && k + n <= count && Piece(m, buf + k, n, host)
    requires Progress(reader, ram, m, buf, k, data, mem)
    modifies ram, reader`data, reader`plan, reader`short
    ensures r <= n && reader.short == (r < n)
    ensures Progress(reader, ram, m, buf, if r < 0 then k else k + r, data, mem)
  {
    hide A.Inv, Pg, S.Translate, Delivered, Piece, Linear;
    ghost var mem1 := ram.bytes;
    r := reader.Read(ram, host, n);
    if r >= 0 {
      DataSplit(data, k, r, m, buf, mem, mem1);
      PieceLess(m, buf + k, n, r, host);
      DeliveredMore(a, m, buf, count, k, r, data, mem, mem1, host);
    }
  }

  /** One round of the loop. */
  method ReadPiece(rm: RegionManager, ram: H.Ram, reader: Reader, buf: nat, count: nat, k: nat, bend: nat,
                   ghost data: seq<H.Byte>, ghost mem: H.Memory, ghost freed: set<nat>)
    returns (r: int, n: nat, last: bool)
    requires k < count && HostIs(rm.pager.Pages(), buf + count - 1, bend)
    requires k > 0 ==> Boundary(rm.View(), rm.pager.Pages(), buf + k)
    requires Progress(reader, ram, rm.pager.Pages(), buf, k, data, mem)
    requires Buffer(rm, freed, buf, count)
    modifies rm.pager.tlb, ram, reader`data, reader`plan, reader`short
    ensures r <= n && 0 < n <= count - k && reader.short == (r < n) && rm.pager.Pages() == old(rm.pager.Pages())
    ensures Progress(reader, ram, rm.pager.Pages(), buf, if r < 0 then k else k + r, data, mem)
    ensures if last then n == count - k else
              && n < count - k && Boundary(rm.View(), rm.pager.Pages(), buf + k + n)
              && Round(rm.View(), rm.pager.Pages(), bend, Loop(buf + k, count - k, k),
                       Loop(buf + k + n, count - k - n, k + n))
    ensures Buffer(rm, freed, buf, count)
  {
    hide P.Inv, P.Pages, P.TlbOk, A.Inv, Pg, S.Translate, Delivered, Progress, Piece, Boundary, Linear, HostIs, Round,
         PieceAt, Backs;
    ghost var a, m := rm.View(), rm.pager.Pages();
    var host;
    ghost var h, h1;
    host, n, h := LocatePiece(rm, buf, count, k, freed);
    PieceFacts(a, m, buf, count, k, h, host, n, bend);
    r := ReadAt(ram, reader, host, n, a, m, buf, count, k, data, mem);
    last, h1 := SameRegion(rm, host, bend);
    A.OneRegion(a, h, h1, host);
    if !last {
      RoundMade(a, m, buf, count, k, h, host, n, bend);
    }
  }

  lemma PieceFacts(a: A.Alloc, m: P.PageMap, buf: nat, count: nat, k: nat, h: nat, host: nat, n: nat, bend: nat)
    requires k < count && PieceAt(a, m, buf, count, k, h, host, n) && HostIs(m, buf + count - 1, bend)
    ensures h in a.used && h < |a.regions| && A.Holds(a.regions[h], host)
    ensures Piece(m, buf + k, n, host) && 0 < n <= count - k
    ensures A.Holds(a.regions[h], bend) <==> n == count - k
    ensures n < count - k ==> Boundary(a, m, buf + k + n)
  {
    hide S.Translate, Pg, Piece, Boundary;
  }

  /** The pieces that the code reads from the k-th byte on, each up to the end of the region of its
      first byte, lie where the guest sees them, every later one starts its region, as the loop
      asserts, and together they end with the buffer. */
  ghost predicate PiecesRight(a: A.Alloc, m: P.PageMap, buf: nat, count: nat, k: nat)
    requires k < count && Pg(buf + count - 1) in m
    decreases count - k
  {
    exists h: nat ::
      && Backs(a, m, h, buf + k) && (k > 0 ==> S.Translate(m, buf + k) == a.regions[h].host)
      && var n := PieceLen(a.regions[h], S.Translate(m, buf + k), count - k);
      && Piece(m, buf + k, n, S.Translate(m, buf + k))
      && if A.Holds(a.regions[h], S.Translate(m, buf + count - 1)) then n == count - k
         else n < count - k && PiecesRight(a, m, buf, count, k + n)
  }

  function PieceLen(r: A.Region, host: nat, rest: nat): nat
    requires A.Holds(r, host)
  {
    if Space(r, host) < rest then Space(r, host) else rest
  }

  /** For a buffer that is straight everywhere the pieces are right if and only if it is closed. */
  lemma PiecesRightIff(a: A.Alloc, m: P.PageMap, buf: nat, count: nat)
    requires A.Inv(a) && StraightAll(a, m, buf, count) && count > 0
    ensures Pg(buf + count - 1) in m && (PiecesRight(a, m, buf, count, 0) <==> Closed(a, m, buf, count))
  {
    hide A.Inv, Pg, S.Translate, Closed, PiecesRight;
    assert H.Within(buf, count, buf + count - 1) && LinearAt(a, m, buf + count - 1);
    if Closed(a, m, buf, count) {
      ClosedIsRight(a, m, buf, count, 0);
    }
    if PiecesRight(a, m, buf, count, 0) {
      RightIsClosed(a, m, buf, count);
    }
  }

  /** So it is where a region goes on behind the mapping that uses it, as slice_end leaves it, and the next
      page has its own: the read runs on into the region. */
  lemma PastTheMapping(a: A.Alloc, m: P.PageMap, buf: nat, count: nat, g: nat, h: nat)
    requires A.Inv(a) && StraightAll(a, m, buf, count) && H.Within(buf, count, g) && H.Within(buf, count, g + 1)
    requires Backs(a, m, h, g) && Covers(a.regions[h], g + 1) && !Backs(a, m, h, g + 1)
    ensures Pg(buf + count - 1) in m && !PiecesRight(a, m, buf, count, 0)
  {
    hide A.Inv, Pg, S.Translate, PiecesRight, StraightAll, Backs;
    PiecesRightIff(a, m, buf, count);
  }

  lemma {:induction false} ClosedIsRight(a: A.Alloc, m: P.PageMap, buf: nat, count: nat, k: nat)
    requires A.Inv(a) && Linear(a, m, buf, count) && k < count && (k > 0 ==> Boundary(a, m, buf + k))
    ensures Pg(buf + count - 1) in m && PiecesRight(a, m, buf, count, k)
    decreases count - k
  {
    hide A.Inv, Pg, S.Translate, StraightAll, Closed, Boundary, Piece;
    LinearThere(a, m, buf, count, buf + k);
    var h: nat :| Backs(a, m, h, buf + k);
    if k > 0 {
      StartsRegion(a, m, buf, count, buf + k, h);
    }
    var n := Space(a.regions[h], S.Translate(m, buf + k));
    PieceIs(a, m, buf, count, k, h, n);
    if n < count - k {
      ClosedIsRight(a, m, buf, count, k + n);
    }
  }

  lemma LinearThere(a: A.Alloc, m: P.PageMap, buf: nat, count: nat, g: nat)
    requires StraightAll(a, m, buf, count) && buf <= g < buf + count
    ensures LinearAt(a, m, g) && exists h: nat :: Backs(a, m, h, g)
  {
    hide Pg, S.Translate;
    assert H.Within(buf, count, g);
  }

  /** The piece that holds g: it starts at b in region h. */
  lemma {:induction false} PieceOf(a: A.Alloc, m: P.PageMap, buf: nat, count: nat, k: nat, g: nat)
    returns (b: nat, h: nat)
    requires k < count && Pg(buf + count - 1) in m && PiecesRight(a, m, buf, count, k) && buf + k <= g < buf + count
    ensures buf + k <= b <= g && Backs(a, m, h, b) && (b > buf ==> S.Translate(m, b) == a.regions[h].host)
    ensures var n := PieceLen(a.regions[h], S.Translate(m, b), buf + count - b);
            g < b + n && Piece(m, b, n, S.Translate(m, b))
    decreases count - k
  {
    hide Pg, S.Translate, Piece;
    h :|
      && Backs(a, m, h, buf + k) && (k > 0 ==> S.Translate(m, buf + k) == a.regions[h].host)
      && var n := PieceLen(a.regions[h], S.Translate(m, buf + k), count - k);
      && Piece(m, buf + k, n, S.Translate(m, buf + k))
      && if A.Holds(a.regions[h], S.Translate(m, buf + count - 1)) then n == count - k
         else n < count - k && PiecesRight(a, m, buf, count, k + n);
    b := buf + k;
    var n := PieceLen(a.regions[h], S.Translate(m, b), count - k);
    if g >= b + n {
      b, h := PieceOf(a, m, buf, count, k + n, g);
    }
  }

  lemma RightIsClosed(a: A.Alloc, m: P.PageMap, buf: nat, count: nat)
    requires A.Inv(a) && StraightAll(a, m, buf, count) && count > 0 && Pg(buf + count - 1) in m
    requires PiecesRight(a, m, buf, count, 0)
    ensures Closed(a, m, buf, count)
  {
    hide A.Inv, Pg, S.Translate, PiecesRight;
    forall h0: nat, g: nat, f: nat | Backs(a, m, h0, g) && H.Within(buf, count, g) && H.Within(buf, count, f)
        && Covers(a.regions[h0], f)
      ensures Backs(a, m, h0, f)
    {
      var b, h := PieceOf(a, m, buf, count, 0, g);
      assert H.Within(b, PieceLen(a.regions[h], S.Translate(m, b), buf + count - b), g);
      A.OneRegion(a, h, h0, S.Translate(m, g));
      LinearThere(a, m, buf, count, b);
      Located(a, m, b, h);
      assert H.Within(b, PieceLen(a.regions[h], S.Translate(m, b), buf + count - b), f);
    }
  }

  lemma RoundMade(a: A.Alloc, m: P.PageMap, buf: nat, count: nat, k: nat, h: nat, host: nat, n: nat, bend: nat)
    requires k < count && PieceAt(a, m, buf, count, k, h, host, n) && !A.Holds(a.regions[h], bend)
    ensures Round(a, m, bend, Loop(buf + k, count - k, k), Loop(buf + k + n, count - k - n, k + n))
  {
    hide S.Translate, Pg, Piece, Boundary, HostIs;
    assert Loop(buf + k + n, count - k - n, k + n) == Next(Loop(buf + k, count - k, k), Space(a.regions[h], host));
  }

  lemma StartsRegion(a: A.Alloc, m: P.PageMap, buf: nat, count: nat, g: nat, h: nat)
    requires A.Inv(a) && Linear(a, m, buf, count) && Boundary(a, m, g) && buf < g < buf + count && Backs(a, m, h, g)
    ensures S.Translate(m, g) == a.regions[h].host
  {
    hide S.Translate, A.Inv, Linear, Pg;
    var h0: nat :| Backs(a, m, h0, g - 1) && !Backs(a, m, h0, g);
    assert H.Within(buf, count, g - 1) && H.Within(buf, count, g);
    NextStarts(a, m, buf, count, g - 1, h0, h);
  }

  /** What the rest of its region means for the buffer from its k-th byte on. */
  lemma PieceIs(a: A.Alloc, m: P.PageMap, buf: nat, count: nat, k: nat, h: nat, n: int)
    requires A.Inv(a) && Linear(a, m, buf, count) && k < count && Backs(a, m, h, buf + k)
    requires n == Space(a.regions[h], S.Translate(m, buf + k))
    ensures n > 0 && Piece(m, buf + k, if n < count - k then n else count - k, S.Translate(m, buf + k))
    ensures Pg(buf + count - 1) in m && (A.Holds(a.regions[h], S.Translate(m, buf + count - 1)) <==> count - k <= n)
    ensures n < count - k ==> Boundary(a, m, buf + k + n)
  {
    hide S.Translate, A.Inv, Pg, Linear;
    var n', g, host := if n < count - k then n else count - k, buf + k, S.Translate(m, buf + k);
    forall f: nat | H.Within(g, n', f) ensures Pg(f) in m && S.Translate(m, f) == host + (f - g) {
      Contiguous(a, m, buf, count, g, h, f);
    }
    Contiguous(a, m, buf, count, g, h, buf + count - 1);
    if n < count - k {
      Contiguous(a, m, buf, count, g, h, g + n - 1);
      Contiguous(a, m, buf, count, g, h, g + n);
    }
  }

  lemma PieceLess(m: P.PageMap, g: nat, n: nat, r: nat, host: nat)
    requires Piece(m, g, n, host) && r <= n
    ensures Piece(m, g, r, host)
  {
    hide S.Translate, Pg;
    forall f: nat | H.Within(g, r, f) ensures Pg(f) in m && S.Translate(m, f) == host + (f - g) {
      assert H.Within(g, n, f);
    }
  }

  lemma DataSplit(data: seq<H.Byte>, k: nat, r: nat, m: P.PageMap, buf: nat, mem0: H.Memory, mem: H.Memory)
    requires Delivered(m, buf, k, data, mem0, mem) && r <= |data[k..]|
    ensures k + r <= |data| && data[k..][..r] == data[k..k + r] && data[k..][r..] == data[k + r..]
  {
  }

  lemma TranslateIs(m: P.PageMap, g: nat)
    requires Pg(g) in m
    ensures S.Translate(m, g) == m[Pg(g)].host + g % 0x1000
  {
  }

  /** The loop over the regions of the buffer: k is the number of bytes delivered. A handler that
      fails makes it return errno. */
  method ReadPieces(rm: RegionManager, ram: H.Ram, reader: Reader, buf: nat, count: nat, bend: nat,
                    ghost freed: set<nat>)
    returns (result: int, ghost k: nat, failed: bool)
    requires count > 0 && HostIs(rm.pager.Pages(), buf + count - 1, bend)
    requires Buffer(rm, freed, buf, count)
    modifies rm.pager.tlb, ram, reader`data, reader`plan, reader`short
    ensures rm.pager.Pages() == old(rm.pager.Pages()) && k <= count
    ensures Progress(reader, ram, rm.pager.Pages(), buf, k, old(reader.data), old(ram.bytes))
    ensures if failed then reader.short && result == reader.errno else result == k && (k < count <==> reader.short)
    ensures Buffer(rm, freed, buf, count)
  {
    hide Buffer, P.Pages, Pg, HostIs, Boundary, Progress;
    ghost var a, m, data, mem := rm.View(), rm.pager.Pages(), reader.data, ram.bytes;
    Begun(reader, ram, m, buf);
    result, k, failed := 0, 0, false;
    var current, last := count, false;
    while !last
      invariant 0 <= result == k <= count && current == count - result && (last <==> current == 0)
      invariant last ==> !reader.short
      invariant Buffer(rm, freed, buf, count) && rm.pager.Pages() == m && rm.View() == a
      invariant Progress(reader, ram, m, buf, k, data, mem)
      invariant !last && k > 0 ==> Boundary(a, m, buf + k)
      decreases current
    {
      var r, n;
      r, n, last := ReadPiece(rm, ram, reader, buf, count, result, bend, data, mem, freed);
      if r < 0 {
        result, failed := reader.errno, true;
        return;
      }
      result, k := result + r, k + r;
      if r < n {
        return;
      }
      current := current - r;
    }
  }

  /** An empty buffer whose address and the byte before it are backed by one region. */
  ghost predicate ZeroReady(rm: RegionManager, freed: set<nat>, buf: nat)
    reads rm, rm.pager, rm.pager.tlb
  {
    && 0x1000 < buf < 0x8000_0000_0000 && Pg(buf) !in freed && Pg(buf - 1) !in freed
    && exists h: nat :: Backs(rm.View(), rm.pager.Pages(), h, buf) && Backs(rm.View(), rm.pager.Pages(), h, buf - 1)
  }

  /** elkvm_do_read behind the unpacking of its arguments. */
  method DoRead(rm: RegionManager, ram: H.Ram, reader: Reader, buf: nat, count: nat, ghost freed: set<nat>)
    returns (result: int, ghost k: nat, failed: bool)
    requires Buffer(rm, freed, buf, count) && (count == 0 ==> ZeroReady(rm, freed, buf))
    modifies rm.pager.tlb, ram, reader`data, reader`plan, reader`short
    ensures rm.pager.Pages() == old(rm.pager.Pages()) && k <= count
    ensures Progress(reader, ram, rm.pager.Pages(), buf, k, old(reader.data), old(ram.bytes))
    ensures if failed then reader.short && (result == reader.errno || result < 0)
            else result == k && (k < count <==> reader.short)
    ensures Buffer(rm, freed, buf, count)
  {
    hide P.Inv, P.Pages, P.TlbOk, A.Inv, Pg, S.Translate, Boundary, Linear, Progress, Piece;
    ghost var a, m, data, mem := rm.View(), rm.pager.Pages(), reader.data, ram.bytes;
    A.UsedInBounds(a);
    Ends(rm, freed, buf, count);
    Begun(reader, ram, m, buf);
    TranslateIs(m, buf);
    TranslateIs(m, buf + count - 1);
    var host := HostP(rm, buf, freed);
    var bend := HostP(rm, buf + count - 1, freed);
    var same, h := SameRegion(rm, host, bend);
    FirstTest(a, m, buf, count, h);
    if same {
      result := ReadAt(ram, reader, host, count, a, m, buf, count, 0, data, mem);
      failed, k := result < 0, if result < 0 then 0 else result;
    } else {
      result, k, failed := ReadPieces(rm, ram, reader, buf, count, bend, freed);
    }
  }

  lemma Ends(rm: RegionManager, freed: set<nat>, buf: nat, count: nat)
    requires Buffer(rm, freed, buf, count) && (count == 0 ==> ZeroReady(rm, freed, buf))
    ensures Pg(buf) in rm.pager.Pages() && Pg(buf) !in freed && buf < 0x8000_0000_0000
    ensures 0x1000 <= buf + count - 1 < 0x8000_0000_0000 && Pg(buf + count - 1) in rm.pager.Pages()
    ensures Pg(buf + count - 1) !in freed
    ensures exists h: nat :: Backs(rm.View(), rm.pager.Pages(), h, buf)
  {
    hide P.Inv, P.TlbOk, A.Inv, Linear, P.Pages, Pg, S.Translate;
    if count > 0 {
      BufferAt(rm, freed, buf, count, buf);
      BufferAt(rm, freed, buf, count, buf + count - 1);
    }
  }

  /** The test before the loop: it holds for an empty buffer, and otherwise means one piece. */
  lemma FirstTest(a: A.Alloc, m: P.PageMap, buf: nat, count: nat, h: nat)
    requires A.Inv(a) && Linear(a, m, buf, count) && buf > 0 && Backs(a, m, h, buf)
    requires count == 0 ==> exists k: nat :: Backs(a, m, k, buf) && Backs(a, m, k, buf - 1)
    ensures Pg(buf + count - 1) in m
    ensures A.Holds(a.regions[h], S.Translate(m, buf + count - 1)) ==> Piece(m, buf, count, S.Translate(m, buf))
    ensures count == 0 ==> A.Holds(a.regions[h], S.Translate(m, buf - 1))
  {
    hide A.Inv, Linear, Pg, S.Translate, Boundary;
    if count == 0 {
      var k: nat :| Backs(a, m, k, buf) && Backs(a, m, k, buf - 1);
      A.OneRegion(a, h, k, S.Translate(m, buf));
    } else {
      PieceIs(a, m, buf, count, 0, h, Space(a.regions[h], S.Translate(m, buf)));
    }
  }

  // ----- reads of 0 bytes

  /** get_host_p on the page map. */
  ghost function HostAt(m: P.PageMap, g: nat): nat { if Pg(g) in m then S.Translate(m, g) else 0 }

  /** host_address_mapped */
  ghost predicate HostMapped(a: A.Alloc, x: nat) {
    exists h: nat :: h in a.used && h < |a.regions| && A.Holds(a.regions[h], x)
  }

  /** Where the test and the assert in front of the loop lead. */
  datatype Fate = Handler | Assertion | EnterLoop

  ghost function FirstFate(a: A.Alloc, h: nat, bend: nat): Fate
    requires h < |a.regions|
  {
    if A.Holds(a.regions[h], bend) then Handler else if HostMapped(a, bend) then EnterLoop else Assertion
  }

  ghost predicate Unbacked(a: A.Alloc, m: P.PageMap, g: nat) { forall h: nat :: !Backs(a, m, h, g) }

  /** A round from l leads to l and nowhere else. */
  ghost predicate Stuck(a: A.Alloc, m: P.PageMap, bend: nat, l: Loop) {
    forall l' :: Round(a, m, bend, l, l') <==> l' == l
  }

  /** A read of 0 bytes takes the byte before the buffer for its last one. It reaches the handler if
      and only if that byte is mapped and backed by the same region. Otherwise the assert fails if
      no region in use backs that byte, in particular if it is not mapped, and else the loop makes
      rounds that change nothing. */
  lemma ZeroCount(a: A.Alloc, m: P.PageMap, buf: nat, h: nat)
    requires A.Inv(a) && buf > 0 && Backs(a, m, h, buf)
    ensures var fate := FirstFate(a, h, HostAt(m, buf - 1));
            && (fate == Handler <==> Pg(buf - 1) in m && Backs(a, m, h, buf - 1))
            && (fate == Assertion <==> Unbacked(a, m, buf - 1))
            && (fate == EnterLoop ==> Stuck(a, m, HostAt(m, buf - 1), Loop(buf, 0, 0)))
  {
    hide A.Inv, Pg, S.Translate;
    var bend := HostAt(m, buf - 1);
    forall k: nat | k in a.used && k < |a.regions| && A.Holds(a.regions[k], bend) ensures Backs(a, m, k, buf - 1) {
      RegionManager.RegionAligned(a, k);
    }
    if FirstFate(a, h, bend) == EnterLoop {
      var l0 := Loop(buf, 0, 0);
      assert Next(l0, Space(a.regions[h], S.Translate(m, buf))) == l0;
      assert Round(a, m, bend, l0, l0);
    }
  }

  /** And so for ever: for every n there is a run of n rounds, and no run leaves the first state. */
  lemma {:induction false} ZeroLoops(a: A.Alloc, m: P.PageMap, buf: nat, h: nat, loops: seq<Loop>)
    requires A.Inv(a) && buf > 0 && Backs(a, m, h, buf) && FirstFate(a, h, HostAt(m, buf - 1)) == EnterLoop
    requires |loops| > 0 && loops[0] == Loop(buf, 0, 0)
    ensures (forall n | 0 <= n < |loops| - 1 :: Round(a, m, HostAt(m, buf - 1), loops[n], loops[n + 1])) <==>
            (forall n | 0 <= n < |loops| :: loops[n] == Loop(buf, 0, 0))
    decreases |loops|
  {
    hide FirstFate, Round, Backs, A.Inv, HostAt;
    ZeroCount(a, m, buf, h);
    var bend, n := HostAt(m, buf - 1), |loops| - 1;
    if n > 0 {
      ZeroLoops(a, m, buf, h, loops[..n]);
      if forall i | 0 <= i < n :: Round(a, m, bend, loops[i], loops[i + 1]) {
        forall i | 0 <= i < n - 1 ensures Round(a, m, bend, loops[..n][i], loops[..n][i + 1]) {
          assert Round(a, m, bend, loops[i], loops[i + 1]);
        }
        assert loops[..n][n - 1] == Loop(buf, 0, 0);
        assert Round(a, m, bend, loops[n - 1], loops[n]);
      }
    }
  }

  lemma Begun(reader: Reader, ram: H.Ram, m: P.PageMap, buf: nat)
    ensures Progress(reader, ram, m, buf, 0, reader.data, ram.bytes)
  {
    NothingYet(m, buf, reader.data, ram.bytes);
  }

  lemma NothingYet(m: P.PageMap, buf: nat, data: seq<H.Byte>, mem: H.Memory)
    ensures Delivered(m, buf, 0, data, mem, mem) && data[0..] == data
  {
  }
}
