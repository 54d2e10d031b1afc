/** Whole runs of the pager: refinement of the page map and agreement of the cache. */
module PagerRuns {
  import opened PageArith
  import opened PageEntry
  import C = Chunks
  import T = PageTables
  import opened Pager

  datatype Op =
    | MapPage(host: nat, gva: nat, opts: Opts)
    | Free(gva: nat)
    | Find(gva: nat)
    | MapKernelOp(host: nat, opts: Opts, inChunk: bool)
    | Chunk(host: nat, size: nat)

  function Apply(s: State, op: Op): State
    requires |s.tlb| == 4096
  {
    match op
    case MapPage(host, gva, opts) => MapUserPage(s, host, gva, opts).s
    case Free(gva) => FreePage(s, gva).s
    case Find(gva) => GetHostP(s, gva).s
    case MapKernelOp(host, opts, _) => MapKernelPage(s, host, opts).s
    case Chunk(host, size) => AddChunk(s, host, size)
  }

  /** The asserts of the code, a fresh range from posix_memalign, and a pool that does not
      overflow: create_table has no check of its own. */
  predicate Enabled(s: State, op: Op)
    requires |s.tlb| == 4096
  {
    && |Apply(s, op).pt.tables| <= POOL_TABLES
    && match op
       case MapPage(host, gva, opts) =>
         gva != 0 && (host % 0x1000 == gva % 0x1000 ==> C.HostToGuest(s.ct.chunks, host) != 0)
       case Free(gva) => gva != 0
       case Find(gva) => true
       case MapKernelOp(host, opts, inChunk) => inChunk == (C.FindHost(s.ct.chunks, host) >= 0)
       case Chunk(host, size) => C.FreshRange(s.ct.chunks, host, size)
  }

  ghost predicate Runs(s: State, ops: seq<Op>, s': State)
    requires |s.tlb| == 4096
    decreases |ops|
  {
    if |ops| == 0 then s' == s
    else Enabled(s, ops[0]) && |Apply(s, ops[0]).tlb| == 4096 && Runs(Apply(s, ops[0]), ops[1..], s')
  }

  /** The pages that a run frees. */
  function FreedBy(ops: seq<Op>): set<nat> {
    if |ops| == 0 then {}
    else (if ops[0].Free? then {Vpn(ops[0].gva)} else {}) + FreedBy(ops[1..])
  }

  // ----- refinement

  /** The kernel search maps p at the first free candidate v, with the given rights. */
  ghost predicate KernelPage(m: PageMap, v: nat, p: Page, opts: Opts, m': PageMap) {
    FirstFree(m, v) && p.write == opts.write && p.exec == opts.exec && m' == m[v := p]
  }

  /** One operation on the page map. A kernel map of an address outside every chunk maps some
      host page. */
  ghost predicate AbstractStep(m: PageMap, op: Op, m': PageMap) {
    match op
    case MapPage(host, gva, opts) =>
      m' == if host % 0x1000 == gva % 0x1000 then MapOne(m, Vpn(gva), PageFor(host, opts)) else m
    case Free(gva) => m' == m - {Vpn(gva)}
    case Find(gva) => m' == m
    case MapKernelOp(host, opts, inChunk) =>
      exists v: nat, p: Page :: KernelPage(m, v, p, opts, m') && (inChunk ==> p.host == PageBegin(host))
    case Chunk(host, size) => m' == m
  }

  ghost predicate AbstractRuns(m: PageMap, ops: seq<Op>, m': PageMap)
    decreases |ops|
  {
    if |ops| == 0 then m' == m
    else exists m1 :: AbstractStep(m, ops[0], m1) && AbstractRuns(m1, ops[1..], m')
  }

  lemma KernelStepRefines(s: State, host: nat, opts: Opts, inChunk: bool)
    requires Inv(s) && |s.pt.tables| <= POOL_TABLES && Enabled(s, MapKernelOp(host, opts, inChunk))
    ensures var s' := Apply(s, MapKernelOp(host, opts, inChunk));
            Inv(s') && AbstractStep(Pages(s), MapKernelOp(host, opts, inChunk), Pages(s'))
  {
    hide Inv, Pages, FirstFree, Vpn, MapKernelPage;
    MapKernelPageRefines(s, host, opts);
    KernelOffset(s, host);
    var s', v := MapKernelPage(s, host, opts).s, Vpn(MapKernelPage(s, host, opts).gva);
    assert KernelPage(Pages(s), v, Pages(s')[v], opts, Pages(s'));
  }

  lemma StepRefines(s: State, op: Op)
    requires Inv(s) && |s.pt.tables| <= POOL_TABLES && Enabled(s, op)
    ensures Inv(Apply(s, op)) && AbstractStep(Pages(s), op, Pages(Apply(s, op)))
  {
    match op {
      case MapPage(host, gva, opts) =>
        if host % 0x1000 == gva % 0x1000 { MapUserPageRefines(s, host, gva, opts); }
      case Free(gva) => FreePageRefines(s, gva);
      case Find(gva) => PagesIgnoreTlb(s, GetHostP(s, gva).s.tlb);
      case MapKernelOp(host, opts, inChunk) =>
        KernelStepRefines(s, host, opts, inChunk);
      case Chunk(host, size) => AddChunkRefines(s, host, size);
    }
  }

  /** Every run of the pager is a run of the page map, and the invariant holds throughout. */
  lemma {:induction false} RunRefines(s: State, ops: seq<Op>, s': State)
    requires Inv(s) && |s.pt.tables| <= POOL_TABLES && Runs(s, ops, s')
    ensures Inv(s') && |s'.pt.tables| <= POOL_TABLES && AbstractRuns(Pages(s), ops, Pages(s'))
    decreases |ops|
  {
    if |ops| > 0 {
      StepRefines(s, ops[0]);
      RunRefines(Apply(s, ops[0]), ops[1..], s');
      assert AbstractStep(Pages(s), ops[0], Pages(Apply(s, ops[0])));
    }
  }

  // ----- rights

  /** The options of the last successful map of page v, r if there was none yet. */
  ghost function RightsStep(s: State, op: Op, v: nat, r: Opts): Opts {
    match op
    case MapPage(host, gva, opts) =>
      if host % 0x1000 == gva % 0x1000 && Vpn(gva) == v && MapOk(Pages(s), v, PageBegin(host)) then opts else r
    case MapKernelOp(host, opts, _) => if Vpn(MapKernelPage(s, host, opts).gva) == v then opts else r
    case _ => r
  }

  ghost function RightsAfter(s: State, ops: seq<Op>, v: nat, r: Opts): Opts
    requires |s.tlb| == 4096
    decreases |ops|
  {
    if |ops| == 0 || |Apply(s, ops[0]).tlb| != 4096 then r
    else RightsAfter(Apply(s, ops[0]), ops[1..], v, RightsStep(s, ops[0], v, r))
  }

  ghost predicate HasRights(m: PageMap, v: nat, r: Opts) { v in m ==> m[v].write == r.write && m[v].exec == r.exec }

  lemma StepRights(s: State, op: Op, v: nat, r: Opts)
    requires Inv(s) && |s.pt.tables| <= POOL_TABLES && Enabled(s, op) && HasRights(Pages(s), v, r)
    ensures HasRights(Pages(Apply(s, op)), v, RightsStep(s, op, v, r))
  {
    hide Inv, Pages;
    match op {
      case MapPage(host, gva, opts) =>
        if host % 0x1000 == gva % 0x1000 { MapUserPageRefines(s, host, gva, opts); }
      case MapKernelOp(host, opts, _) => MapKernelPageRefines(s, host, opts);
      case _ => StepRefines(s, op);
    }
  }

  lemma {:induction false} RunRights(s: State, ops: seq<Op>, s': State, v: nat, r: Opts)
    requires Inv(s) && |s.pt.tables| <= POOL_TABLES && Runs(s, ops, s') && HasRights(Pages(s), v, r)
    ensures HasRights(Pages(s'), v, RightsAfter(s, ops, v, r))
    decreases |ops|
  {
    hide Inv, Pages, HasRights, RightsStep, Apply;
    TlbSize(s);
    if |ops| > 0 {
      StepRefines(s, ops[0]);
      StepRights(s, ops[0], v, r);
      RunRights(Apply(s, ops[0]), ops[1..], s', v, RightsStep(s, ops[0], v, r));
    }
  }

  /** After any run, the rights that the processor computes over the four levels for a present
      page are the options of its last successful map, whatever was mapped beside it. */
  lemma RightsOfLastMap(s: State, ops: seq<Op>, s': State, v: nat, r: Opts)
    requires Inv(s) && |s.pt.tables| <= POOL_TABLES && Runs(s, ops, s') && HasRights(Pages(s), v, r) && v in Pages(s')
    ensures var last := RightsAfter(s, ops, v, r);
            && T.EffectiveUser(s'.pt, v)
            && (T.EffectiveWrite(s'.pt, v) <==> last.write) && (T.EffectiveExec(s'.pt, v) <==> last.exec)
  {
    hide HasRights, RightsAfter, Runs, T.EffectiveUser, T.EffectiveWrite, T.EffectiveExec, AbstractRuns, T.Inv;
    RunRefines(s, ops, s');
    RunRights(s, ops, s', v, r);
    RightsOf(Pages(s'), v, RightsAfter(s, ops, v, r));
    T.EffectiveRights(s'.pt, v);
  }

  lemma RightsOf(m: PageMap, v: nat, r: Opts)
    requires HasRights(m, v, r) && v in m
    ensures m[v].write == r.write && m[v].exec == r.exec
  {
  }

  // ----- the cache

  lemma HostOfPages(s: State, v: nat)
    requires Inv(s) && v < 0x10_0000_0000
    ensures HostPage(s, v) == if v in Pages(s) then Pages(s)[v].host else 0
    ensures HostPage(s, v) > 0 <==> v in Pages(s)
  {
    if v in Pages(s) {
      C.PhysRoundTrip(s.ct.chunks, s.ct.total, T.Leaf(s.pt, v).addr);
    }
  }

  lemma StepKeepsHost(m: PageMap, op: Op, m': PageMap, v: nat)
    requires AbstractStep(m, op, m') && v in m && !(op.Free? && Vpn(op.gva) == v)
    ensures v in m' && m'[v].host == m[v].host
  {
  }

  /** Only free_page takes a translation away; nothing re-points one. */
  lemma HostsStay(s: State, op: Op, v: nat)
    requires Inv(s) && |s.pt.tables| <= POOL_TABLES && Enabled(s, op) && v < 0x10_0000_0000
    requires HostPage(s, v) > 0 && !(op.Free? && Vpn(op.gva) == v)
    ensures HostPage(Apply(s, op), v) == HostPage(s, v)
  {
    StepRefines(s, op);
    HostOfPages(s, v);
    StepKeepsHost(Pages(s), op, Pages(Apply(s, op)), v);
    HostOfPages(Apply(s, op), v);
  }

  lemma SlotSurvives(s: State, freed: set<nat>, op: Op, h: nat)
    requires Inv(s) && |s.pt.tables| <= POOL_TABLES && Enabled(s, op) && h < 4096 && SlotOk(s, freed, h)
    requires Apply(s, op).tlb == s.tlb
    ensures SlotOk(Apply(s, op), freed + FreedBy([op]), h)
  {
    var slot := s.tlb[h];
    if slot != TlbSlot(0, 0) && Vpn(slot.key) !in freed + FreedBy([op]) {
      HostsStay(s, op, Vpn(slot.key));
    }
  }

  lemma TlbUntouched(s: State, op: Op)
    requires |s.tlb| == 4096 && !op.Find?
    ensures Apply(s, op).tlb == s.tlb
  {
  }

  lemma FreedByOne(op: Op)
    ensures FreedBy([op]) == if op.Free? then {Vpn(op.gva)} else {}
  {
    assert FreedBy([op][1..]) == {};
  }

  lemma StepTlbOk(s: State, freed: set<nat>, op: Op)
    requires Inv(s) && |s.pt.tables| <= POOL_TABLES && Enabled(s, op) && TlbOk(s, freed)
    ensures TlbOk(Apply(s, op), freed + FreedBy([op]))
  {
    var s', freed' := Apply(s, op), freed + FreedBy([op]);
    if op.Find? {
      LookupKeeps(s, freed, op.gva);
      FreedByOne(op);
      assert freed' == freed;
    } else {
      TlbUntouched(s, op);
      forall h: nat | h < 4096 ensures SlotOk(s', freed', h) {
        SlotSurvives(s, freed, op, h);
      }
    }
  }

  lemma {:induction false} RunTlbOk(s: State, freed: set<nat>, ops: seq<Op>, s': State)
    requires Inv(s) && |s.pt.tables| <= POOL_TABLES && Runs(s, ops, s') && TlbOk(s, freed)
    ensures TlbOk(s', freed + FreedBy(ops))
    decreases |ops|
  {
    if |ops| == 0 {
      assert freed + FreedBy(ops) == freed;
    } else {
      StepRefines(s, ops[0]);
      StepTlbOk(s, freed, ops[0]);
      RunTlbOk(Apply(s, ops[0]), freed + FreedBy([ops[0]]), ops[1..], s');
      assert freed + FreedBy([ops[0]]) + FreedBy(ops[1..]) == freed + FreedBy(ops);
    }
  }

  // ----- what the cache holds after a run

  /** What a run leaves in the slot of an address: nothing, another page, or a host page. */
  datatype Seen = Empty | Other | Holds(host: nat)

  /** Two addresses share a slot if their page numbers differ by a multiple of the 4096 slots. */
  predicate SameSlot(g: nat, gva: nat) { (g / 0x1000 - gva / 0x1000) % 0x1000 == 0 }

  lemma SameSlotIs(g: nat, gva: nat)
    ensures SameSlot(g, gva) <==> Hash(g) == Hash(gva)
  {
    var i, j := g / 0x1000, gva / 0x1000;
    assert i == 0x1000 * (i / 0x1000) + i % 0x1000 && j == 0x1000 * (j / 0x1000) + j % 0x1000;
    assert i - j == 0x1000 * (i / 0x1000 - j / 0x1000) + (i % 0x1000 - j % 0x1000);
  }

  /** Only a lookup of a present page fills a slot, and only if the slot does not look like that
      page already. An empty slot looks like page 0. */
  ghost function SeenStep(m: PageMap, op: Op, gva: nat, c: Seen): Seen {
    if !op.Find? || op.gva == 0 || !SameSlot(op.gva, gva) || Vpn(op.gva) !in m then c
    else if c.Empty? && op.gva < 0x1000 then Empty
    else if PageBegin(op.gva) != PageBegin(gva) then Other
    else if c.Holds? then c
    else Holds(m[Vpn(op.gva)].host)
  }

  ghost function SeenAfter(s: State, ops: seq<Op>, gva: nat, c: Seen): Seen
    requires |s.tlb| == 4096
    decreases |ops|
  {
    if |ops| == 0 || |Apply(s, ops[0]).tlb| != 4096 then c
    else SeenAfter(Apply(s, ops[0]), ops[1..], gva, SeenStep(Pages(s), ops[0], gva, c))
  }

  predicate SlotIs(slot: TlbSlot, gva: nat, c: Seen) {
    match c
    case Empty => slot == TlbSlot(0, 0)
    case Other => SlotShape(slot) && slot.value > 0 && slot.key != PageBegin(gva)
    case Holds(h) => slot == TlbSlot(PageBegin(gva), h) && h > 0 && h % 0x1000 == 0
  }

  lemma FindSeen(s: State, gva: nat, c: Seen, g: nat)
    requires Inv(s) && gva != 0 && SlotIs(s.tlb[Hash(gva)], gva, c)
    ensures var s' := GetHostP(s, g).s;
            |s'.tlb| == 4096 && SlotIs(s'.tlb[Hash(gva)], gva, SeenStep(Pages(s), Find(g), gva, c))
  {
    hide Inv, Pages, HostPage, Uncached, Hash, Vpn, SameSlot;
    TlbSize(s);
    SameSlotIs(g, gva);
    if g != 0 {
      UncachedIsPage(s, g);
      HostOfPages(s, Vpn(g));
      SamePageVpn(g, gva);
    }
  }

  lemma SamePageVpn(g: nat, gva: nat)
    ensures Vpn(g) < 0x10_0000_0000 && (PageBegin(g) == PageBegin(gva) ==> Vpn(g) == Vpn(gva) && Hash(g) == Hash(gva))
  {
    VpnOfPage(g);
    VpnOfPage(gva);
  }

  lemma StepSeen(s: State, op: Op, gva: nat, c: Seen)
    requires Inv(s) && gva != 0 && SlotIs(s.tlb[Hash(gva)], gva, c)
    ensures var s' := Apply(s, op);
            |s'.tlb| == 4096 && SlotIs(s'.tlb[Hash(gva)], gva, SeenStep(Pages(s), op, gva, c))
  {
    hide Inv, Pages;
    if op.Find? {
      FindSeen(s, gva, c, op.gva);
    } else {
      TlbSize(s);
      TlbUntouched(s, op);
    }
  }

  lemma {:induction false} RunSeen(s: State, ops: seq<Op>, s': State, gva: nat, c: Seen)
    requires Inv(s) && |s.pt.tables| <= POOL_TABLES && Runs(s, ops, s') && gva != 0 && SlotIs(s.tlb[Hash(gva)], gva, c)
    ensures |s'.tlb| == 4096 && SlotIs(s'.tlb[Hash(gva)], gva, SeenAfter(s, ops, gva, c))
    decreases |ops|
  {
    hide Inv, Pages, SlotIs, SeenStep;
    TlbSize(s);
    if |ops| > 0 {
      StepRefines(s, ops[0]);
      StepSeen(s, ops[0], gva, c);
      RunSeen(Apply(s, ops[0]), ops[1..], s', gva, SeenStep(Pages(s), ops[0], gva, c));
    }
  }

  /** Whether a lookup answers as the walk does, from what the run left in the slot. */
  ghost predicate Fresh(m: PageMap, gva: nat, c: Seen) {
    match c
    case Empty => gva >= 0x1000
    case Other => true
    case Holds(h) => Vpn(gva) in m && m[Vpn(gva)].host == h
  }

  /** After any run from an empty cache, freed pages included, a lookup gives what the uncached
      walk gives if and only if: its slot was never filled and it is not in page 0, or the slot
      went to another page, or the host page it had at its first lookup since is the present one. */
  lemma CacheExact(s: State, ops: seq<Op>, s': State, gva: nat)
    requires Inv(s) && |s.pt.tables| <= POOL_TABLES && FreshTlb(s.tlb) && Runs(s, ops, s') && gva != 0
    ensures |s'.tlb| == 4096
    ensures GetHostP(s', gva).host == Uncached(s', gva) <==> Fresh(Pages(s'), gva, SeenAfter(s, ops, gva, Empty))
  {
    hide Inv, Pages, HostPage, Uncached, GetHostP, Vpn, SeenAfter, AbstractRuns, Runs;
    RunRefines(s, ops, s');
    RunSeen(s, ops, s', gva, Empty);
    LookupExact(s', gva);
    SamePageVpn(gva, gva);
    HostOfPages(s', Vpn(gva));
  }

  /** The state before operation n of a run. */
  function StateAt(s: State, ops: seq<Op>, n: nat): State
    requires |s.tlb| == 4096 && n <= |ops|
    decreases n
  {
    if n == 0 || |Apply(s, ops[0]).tlb| != 4096 then s else StateAt(Apply(s, ops[0]), ops[1..], n - 1)
  }

  /** Operation n looks the page of gva up and finds it. */
  ghost predicate LooksUp(s: State, ops: seq<Op>, n: nat, gva: nat)
    requires |s.tlb| == 4096 && n < |ops|
  {
    ops[n].Find? && PageBegin(ops[n].gva) == PageBegin(gva) && Vpn(gva) in Pages(StateAt(s, ops, n))
  }

  /** A host page in the slot was there from the start, or it is the one that the page had when
      operation n looked it up. */
  lemma {:induction false} HeldFrom(s: State, ops: seq<Op>, gva: nat, c: Seen) returns (n: int)
    requires |s.tlb| == 4096 && SeenAfter(s, ops, gva, c).Holds?
    ensures -1 <= n < |ops| && (n < 0 ==> c == SeenAfter(s, ops, gva, c))
    ensures n >= 0 ==> LooksUp(s, ops, n, gva)
                       && SeenAfter(s, ops, gva, c).host == Pages(StateAt(s, ops, n))[Vpn(gva)].host
    decreases |ops|
  {
    hide Pages, Apply;
    n := -1;
    if |ops| > 0 && |Apply(s, ops[0]).tlb| == 4096 {
      var c1, s1 := SeenStep(Pages(s), ops[0], gva, c), Apply(s, ops[0]);
      n := HeldFrom(s1, ops[1..], gva, c1);
      if n >= 0 {
        n := n + 1;
        assert StateAt(s, ops, n) == StateAt(s1, ops[1..], n - 1);
      } else if c1 != c {
        SamePageVpn(ops[0].gva, gva);
        n := 0;
        assert StateAt(s, ops, 0) == s;
      }
    }
  }

  /** The rest of a run is a run. */
  lemma {:induction false} RunFrom(s: State, ops: seq<Op>, s': State, n: nat)
    requires Inv(s) && |s.pt.tables| <= POOL_TABLES && Runs(s, ops, s') && n <= |ops|
    ensures var s1 := StateAt(s, ops, n);
            Inv(s1) && |s1.pt.tables| <= POOL_TABLES && |s1.tlb| == 4096 && Runs(s1, ops[n..], s')
    decreases n
  {
    hide Inv, Pages, Apply;
    TlbSize(s);
    if n > 0 {
      StepRefines(s, ops[0]);
      RunFrom(Apply(s, ops[0]), ops[1..], s', n - 1);
      assert ops[1..][n - 1..] == ops[n..];
    } else {
      assert ops[0..] == ops;
    }
  }

  /** A page that a run does not free keeps its host page. */
  lemma {:induction false} HostStays(s: State, ops: seq<Op>, s': State, v: nat)
    requires Inv(s) && |s.pt.tables| <= POOL_TABLES && Runs(s, ops, s') && v in Pages(s) && v !in FreedBy(ops)
    ensures v in Pages(s') && Pages(s')[v].host == Pages(s)[v].host
    decreases |ops|
  {
    hide Inv, Pages, Apply;
    TlbSize(s);
    if |ops| > 0 {
      StepRefines(s, ops[0]);
      StepKeepsHost(Pages(s), ops[0], Pages(Apply(s, ops[0])), v);
      HostStays(Apply(s, ops[0]), ops[1..], s', v);
    }
  }

  /** If a lookup outside page 0 is stale, the page was found by a lookup, no other page took its slot
      since, and it was freed since and has another host page now or none. */
  lemma StaleTakesFree(s: State, ops: seq<Op>, s': State, gva: nat) returns (n: nat)
    requires Inv(s) && |s.pt.tables| <= POOL_TABLES && FreshTlb(s.tlb) && Runs(s, ops, s') && gva >= 0x1000
    requires |s'.tlb| == 4096 && GetHostP(s', gva).host != Uncached(s', gva)
    ensures n < |ops| && LooksUp(s, ops, n, gva) && Vpn(gva) in FreedBy(ops[n..])
    ensures SeenAfter(s, ops, gva, Empty) == Holds(Pages(StateAt(s, ops, n))[Vpn(gva)].host)
    ensures Vpn(gva) in Pages(s') ==> Pages(s')[Vpn(gva)].host != Pages(StateAt(s, ops, n))[Vpn(gva)].host
  {
    hide Inv, Pages, GetHostP, Uncached, SeenAfter, StateAt, FreshTlb, Runs, FreedBy;
    CacheExact(s, ops, s', gva);
    TlbSize(s);
    n := HeldFrom(s, ops, gva, Empty);
    RunFrom(s, ops, s', n);
    if Vpn(gva) !in FreedBy(ops[n..]) {
      HostStays(StateAt(s, ops, n), ops[n..], s', Vpn(gva));
    }
  }

  /** After any run from an empty cache, looking up any address whose page the run did not free
      gives exactly what the uncached walk gives, with one exception: page 0 as long as its
      slot was never filled, where the empty slot is taken for a cached page 0. */
  lemma CacheAgrees(s: State, ops: seq<Op>, s': State, gva: nat)
    requires Inv(s) && |s.pt.tables| <= POOL_TABLES && FreshTlb(s.tlb) && Runs(s, ops, s')
    requires gva != 0 && Vpn(gva) !in FreedBy(ops)
    ensures |s'.tlb| == 4096
    ensures GetHostP(s', gva).host == Uncached(s', gva) <==> gva >= 0x1000 || s'.tlb[Hash(gva)] != TlbSlot(0, 0)
  {
    RunRefines(s, ops, s');
    RunTlbOk(s, {}, ops, s');
    assert {} + FreedBy(ops) == FreedBy(ops);
    LookupAgrees(s', FreedBy(ops), gva);
  }

  /** free_page leaves the cache alone, so the next lookup of a page that was looked up, then
      freed, still answers with the old host address: on every page outside page 0. */
  lemma StaleAfterFree(s: State, freed: set<nat>, gva: nat)
    requires Inv(s) && TlbOk(s, freed) && gva >= 0x1000 && Vpn(gva) !in freed && Vpn(gva) in Pages(s)
    ensures var s1 := GetHostP(s, gva).s;
            var s2 := FreePage(s1, gva).s;
            && |s1.tlb| == 4096 && |s2.tlb| == 4096
            && GetHostP(s2, gva).host == Uncached(s, gva) != 0 && Uncached(s2, gva) == 0
  {
    hide Inv, Pages, Uncached, SlotOk, HostPage, Hash;
    var s1 := GetHostP(s, gva).s;
    var s2 := FreePage(s1, gva).s;
    Cached(s, freed, gva);
    LookupKeeps(s, freed, gva);
    FreePageRefines(s1, gva);
    UncachedIsPage(s2, gva);
    HostOfPages(s2, Vpn(gva));
  }

  /** And if another host page is mapped there since, as MAP_FIXED does, the lookup gives the old
      one and the walk the new one. */
  lemma StaleAfterRemap(s: State, freed: set<nat>, gva: nat, host: nat, opts: Opts)
    requires Inv(s) && TlbOk(s, freed) && gva >= 0x1000 && Vpn(gva) !in freed && Vpn(gva) in Pages(s)
    requires host % 0x1000 == gva % 0x1000 && C.HostToGuest(s.ct.chunks, host) != 0
    requires Pages(s)[Vpn(gva)].host != PageBegin(host)
    ensures var s1 := GetHostP(s, gva).s;
            var s3 := MapUserPage(FreePage(s1, gva).s, host, gva, opts).s;
            && |s3.tlb| == 4096
            && GetHostP(s3, gva).host == Uncached(s, gva) && Uncached(s3, gva) == host && Uncached(s, gva) != host
  {
    hide Inv, Pages, Uncached, SlotOk, HostPage, Hash, C.HostToGuest, Vpn;
    var s1 := GetHostP(s, gva).s;
    var s2 := FreePage(s1, gva).s;
    var s3 := MapUserPage(s2, host, gva, opts).s;
    Cached(s, freed, gva);
    LookupKeeps(s, freed, gva);
    FreePageRefines(s1, gva);
    MapUserPageRefines(s2, host, gva, opts);
    SamePageVpn(gva, gva);
    UncachedIsPage(s, gva);
    UncachedIsPage(s3, gva);
    HostOfPages(s, Vpn(gva));
    HostOfPages(s3, Vpn(gva));
  }

  /** A lookup of a present page leaves its answer in the cache. */
  lemma Cached(s: State, freed: set<nat>, gva: nat)
    requires Inv(s) && TlbOk(s, freed) && gva >= 0x1000 && Vpn(gva) !in freed && Vpn(gva) in Pages(s)
    ensures var s1 := GetHostP(s, gva).s;
            |s1.tlb| == 4096 && TlbFind(s1.tlb, gva) == Uncached(s, gva) != 0
  {
    hide Inv, Pages, HostPage, Hash, Uncached;
    LookupAgrees(s, freed, gva);
    UncachedIsPage(s, gva);
    HostOfPages(s, Vpn(gva));
    PageAndOffset(HostPage(s, Vpn(gva)), gva % 0x1000);
  }
}
