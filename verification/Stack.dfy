/** Stack and the push and pop of VCPU as objects above the region manager, the pager and host
    memory, each method proved against the stack on values. */
module Stacks {
  import opened PageArith
  import opened PageEntry
  import C = Chunks
  import P = Pager
  import A = Allocator
  import R = PagerRanges
  import H = HostMemory
  import opened Mappings
  import S = StackRuns
  import opened RegionManagers
  import opened Lookups

  /** A stack that reaches down to base may grow to limit: no page between them is in use, none
      of the stack was ever freed, and its blocks of pages are among those with room for their
      tables. */
  ghost predicate Room(m: P.PageMap, blocks: set<nat>, base: nat, freed: set<nat>, limit: nat) {
    && S.STACK_GROW <= limit <= base <= S.STACK_BASE && limit % S.STACK_GROW == 0 && base % S.STACK_GROW == 0
    && R.Touched(Pg(limit), Pg(S.STACK_BASE) - Pg(limit)) <= blocks
    && (forall p: nat | R.Between(Pg(limit), Pg(base), p) :: p !in m)
    && (forall p: nat | R.Between(Pg(limit), Pg(S.STACK_BASE), p) :: p !in freed)
  }

  lemma ExpandArith(base: nat, limit: nat)
    requires S.STACK_GROW <= limit < base <= S.STACK_BASE && limit % S.STACK_GROW == 0 && base % S.STACK_GROW == 0
    ensures var b := base - S.STACK_GROW;
            && limit <= b && b % S.STACK_GROW == 0 && b % 0x1000 == 0 && Vpn(b) == Pg(b)
            && Pg(b) + 0x200 == Pg(base) <= Pg(S.STACK_BASE) == 0x8_0000_0000 && Pg(limit) <= Pg(b)
            && R.Touched(Pg(b), 0x200) <= R.Touched(Pg(limit), Pg(S.STACK_BASE) - Pg(limit))
  {
    hide Pg, Vpn, R.Touched;
    var k, l := base / S.STACK_GROW, limit / S.STACK_GROW;
    BlockArith(l);
    BlockArith(k);
    BlockArith(k - 1);
    BlockArith(0x400_0000);
    R.TouchedPart(0x200 * (k - 1), 0x200, 0x200 * l, 0x8_0000_0000 - 0x200 * l);
  }

  lemma BlockArith(k: nat)
    requires k <= 0x400_0000
    ensures Pg(S.STACK_GROW * k) == 0x200 * k && S.STACK_GROW * k % 0x1000 == 0
    ensures k < 0x400_0000 ==> Vpn(S.STACK_GROW * k) == 0x200 * k
  {
  }

  /** The 2 MiB below the stack are free to map, and behind them there is still room. */
  lemma ExpandRoom(m: P.PageMap, blocks: set<nat>, base: nat, freed: set<nat>, limit: nat, host: nat)
    requires Room(m, blocks, base, freed, limit) && limit < base
    ensures var b := base - S.STACK_GROW;
            && S.Below(m, base) && R.RangeOk(m, Pg(b), host, 0x200) && R.Touched(Pg(b), 0x200) <= blocks
            && Room(R.Overlay(m, Pg(b), host, 0x200, Opts(true, false)), blocks, b, freed, limit)
  {
    hide Pg, R.Touched, Vpn;
    ExpandArith(base, limit);
    var b := base - S.STACK_GROW;
    var m' := R.Overlay(m, Pg(b), host, 0x200, Opts(true, false));
    forall p: nat | R.InRange(Pg(b), 0x200, p) ensures p !in m {
      assert R.Between(Pg(limit), Pg(base), p);
    }
    forall p: nat | R.Between(Pg(b), Pg(base), p) ensures p !in m {
      assert R.InRange(Pg(b), 0x200, p);
    }
    forall p: nat | R.Between(Pg(limit), Pg(b), p) ensures p !in m' {
      assert R.Between(Pg(limit), Pg(base), p);
      assert !R.InRange(Pg(b), 0x200, p);
    }
  }

  /** A region in use that is none of the stack's lies apart from all of them. */
  lemma FreshHost(a: A.Alloc, handles: seq<nat>, h: nat, hosts: seq<nat>)
    requires A.Inv(a) && h < |a.regions| && a.regions[h].size == S.STACK_GROW && h !in handles && |hosts| == |handles|
    requires forall j | 0 <= j < |handles| ::
              handles[j] < |a.regions| && a.regions[handles[j]].size == S.STACK_GROW
              && a.regions[handles[j]].host == hosts[j]
    ensures S.Fresh(hosts, a.regions[h].host) && PageBegin(a.regions[h].host) == a.regions[h].host
  {
    RegionManager.RegionAligned(a, h);
    forall j | 0 <= j < |hosts| ensures S.Apart(hosts[j], a.regions[h].host) {
      RegionManager.RegionsApart(a, handles[j], h);
    }
  }

  /** The allocator's part of expand: a region for 2 MiB, from a chunk at chunk if it needs one, gets the
      guest address base. */
  ghost predicate Took(a: A.Alloc, chunk: nat, base: nat, a': A.Alloc, h: nat) {
    exists r: A.Allocated ::
      A.GrantsAt(a, S.STACK_GROW, chunk, r) && r.h == h < |r.s.regions| && a' == A.SetAddr(r.s, h, base)
  }

  /** posix_memalign's answer, if the allocator asks for one. */
  ghost predicate ChunkReady(a: A.Alloc, chunk: nat) {
    |a.freelists| == A.N_FREELISTS
    && (A.FindList(a, S.STACK_GROW) == A.N_FREELISTS ==> C.FreshRange(a.chunks, chunk, A.GrowSize(S.STACK_GROW)))
  }

  /** Expansion of a stack that covers its range. */
  lemma ExpandCovers(s: S.Stack, host: nat)
    requires S.Covers(s.base, s.regions, s.m) && s.base > S.STACK_GROW && S.Fresh(s.regions, host)
    requires S.Below(s.m, s.base)
    ensures var s' := S.Expand(s, host);
            S.Covers(s'.base, s'.regions, s'.m) && forall p | p in s.m :: p in s'.m && s'.m[p] == s.m[p]
  {
    hide S.Covers, S.Fresh, S.Below, R.Overlay;
    var t := s.(rsp := S.STACK_BASE);
    S.BaseAligned(s.base, s.regions, s.m);
    S.ExpandKeeps(t, host);
  }

  class Stack {
    const rm: RegionManager
    const ram: H.Ram
    /** Handles of the regions, the newest last. */
    var stackRegions: seq<nat>
    var base: nat
    /** The blocks of 512 pages that have room for their tables. */
    ghost const blocks: set<nat>

    ghost predicate Held()
      reads this`stackRegions, rm`regions, rm`used, rm.pager`chunks
    {
      && |rm.pager.chunks| > 0
      && (forall j | 0 <= j < |stackRegions| :: stackRegions[j] in rm.used && IsStackRegion(stackRegions[j], j))
      && (forall i, j | 0 <= i < j < |stackRegions| :: stackRegions[i] != stackRegions[j])
    }

    /** Region h backs the j-th 2 MiB below STACK_BASE. */
    ghost predicate IsStackRegion(h: nat, j: nat)
      reads rm`regions
    {
      h < |rm.regions| && rm.regions[h].size == S.STACK_GROW
      && rm.regions[h].addr + S.STACK_GROW * (j + 1) == S.STACK_BASE
    }

    ghost function Hosts(): (hosts: seq<nat>)
      requires Held()
      reads this`stackRegions, rm`regions, rm`used, rm.pager`chunks
      ensures |hosts| == |stackRegions| && forall j | 0 <= j < |hosts| :: hosts[j] == rm.regions[stackRegions[j]].host
    {
      HostsOf(rm.regions, stackRegions)
    }

    static function HostsOf(regions: seq<A.Region>, handles: seq<nat>): (hosts: seq<nat>)
      requires forall j | 0 <= j < |handles| :: handles[j] < |regions|
      ensures |hosts| == |handles| && forall j | 0 <= j < |hosts| :: hosts[j] == regions[handles[j]].host
    {
      seq(|handles|, j requires 0 <= j < |handles| => regions[handles[j]].host)
    }

    ghost function View(rsp: nat): S.Stack
      requires Held()
      reads this, rm, rm.pager, rm.pager.tlb, ram
    {
      S.Stack(base, rsp, Hosts(), rm.pager.Pages(), ram.bytes)
    }

    ghost predicate Valid(freed: set<nat>, limit: nat)
      reads this, rm, rm.pager, rm.pager.tlb
    {
      && rm.Valid() && P.TlbOk(rm.pager.S(), freed) && Held() && Room(rm.pager.Pages(), blocks, base, freed, limit)
      && rm.pager.Need(blocks) <= P.POOL_TABLES && S.Covers(base, Hosts(), rm.pager.Pages())
    }

    /** The stack starts with its first 2 MiB; no other page and no region in use changes. */
    constructor (rm: RegionManager, ram: H.Ram, chunk: nat, ghost blocks: set<nat>, ghost freed: set<nat>,
                 ghost limit: nat)
      requires rm.Valid() && P.TlbOk(rm.pager.S(), freed) && limit < S.STACK_BASE && ChunkReady(rm.View(), chunk)
      requires Room(rm.pager.Pages(), blocks, S.STACK_BASE, freed, limit) && rm.pager.Need(blocks) <= P.POOL_TABLES
      modifies rm, rm.pager
      ensures this.rm == rm && this.ram == ram && this.blocks == blocks && |stackRegions| == 1
      ensures base == 0x7FFF_FFE0_0000
      ensures Valid(freed, limit) && ram.bytes == old(ram.bytes)
      ensures rm.pager.Need(blocks) <= old(rm.pager.Need(blocks))
      ensures Took(old(rm.View()), chunk, base, rm.View(), stackRegions[0]) && stackRegions[0] !in old(rm.used)
      ensures rm.pager.Pages() == R.Overlay(old(rm.pager.Pages()), Pg(base), rm.regions[stackRegions[0]].host, 0x200,
                                            Opts(true, false))
      ensures forall h | h in old(rm.used) ::
               h in rm.used && h < |old(rm.regions)| && h < |rm.regions| && rm.regions[h] == old(rm.regions[h])
    {
      hide P.Inv, P.Pages, P.TlbOk, A.Inv, Room, S.Covers, S.PagesOk, R.Need, R.Overlay, Took, ChunkReady;
      this.rm, this.ram, this.blocks := rm, ram, blocks;
      stackRegions := [];
      base := S.STACK_BASE;
      new;
      ChunksThere(rm.pager.S());
      S.NothingCovered(rm.pager.Pages());
      ghost var host := Expand(chunk, 0, freed, limit);
    }

    static lemma ChunksThere(s: P.State)
      requires P.Inv(s)
      ensures |s.ct.chunks| > 0
    {
    }

    /** expand */
    method Expand(chunk: nat, ghost rsp: nat, ghost freed: set<nat>, ghost limit: nat) returns (ghost host: nat)
      requires Valid(freed, limit) && limit < base && ChunkReady(rm.View(), chunk)
      modifies this, rm, rm.pager
      ensures Valid(freed, limit) && rm.pager.Need(blocks) <= old(rm.pager.Need(blocks))
      ensures S.Fresh(old(Hosts()), host) && S.Below(old(rm.pager.Pages()), old(base))
      ensures View(rsp) == S.Expand(old(View(rsp)), host) && base == old(base) - 0x20_0000
      ensures |stackRegions| == |old(stackRegions)| + 1 && stackRegions[..|old(stackRegions)|] == old(stackRegions)
      ensures stackRegions[|stackRegions| - 1] !in old(rm.used)
      ensures Took(old(rm.View()), chunk, base, rm.View(), stackRegions[|stackRegions| - 1])
      ensures forall h | h in old(rm.used) ::
               h in rm.used && h < |old(rm.regions)| && h < |rm.regions| && rm.regions[h] == old(rm.regions[h])
    {
      hide P.Inv, P.Pages, P.TlbOk, A.Inv, S.Covers, S.Fresh, S.Below, R.Overlay, R.RangeOk, R.Need, R.Touched, Pg, Vpn,
           Room, PageBegin, Took, ChunkReady, A.GrantsAt, A.SetAddr;
      ghost var a, s, m, hosts := rm.View(), rm.pager.S(), rm.pager.Pages(), Hosts();
      RoomBounds(m, blocks, base, freed, limit);
      ExpandArith(base, limit);
      S.Height(base, hosts, m);
      base := base - S.STACK_GROW;
      var h := AllocateStack(chunk, freed);
      ghost var a1 := rm.View();
      host := rm.regions[h].host;
      ExpandRoom(m, blocks, base + S.STACK_GROW, freed, limit, host);
      ExpandCovers(old(View(rsp)), host);
      s := rm.pager.S();
      var err := rm.pager.MapRegion(rm.regions[h].host, base, 0x200, Opts(true, false), blocks);
      CacheStays(s, rm.pager.S(), freed);
      TakeRegion(h);
      TookIt(a, chunk, base, a1, rm.View(), h);
    }

    static lemma TookIt(a: A.Alloc, chunk: nat, base: nat, a1: A.Alloc, a': A.Alloc, h: nat)
      requires A.GrantsAt(a, S.STACK_GROW, chunk, A.Allocated(a1, h)) && h < |a1.regions|
      requires a' == A.SetAddr(a1, h, base)
      ensures Took(a, chunk, base, a', h)
    {
      hide A.GrantsAt;
    }

    /** The region gets its guest address and joins the stack. */
    method TakeRegion(h: nat)
      requires rm.Valid() && Held() && h in rm.used && h !in stackRegions && h < |rm.regions|
      requires rm.regions[h].size == S.STACK_GROW
      requires base + S.STACK_GROW * (|stackRegions| + 1) == S.STACK_BASE
      modifies this`stackRegions, rm`regions
      ensures Held() && Hosts() == old(Hosts()) + [old(rm.regions[h].host)] && stackRegions == old(stackRegions) + [h]
      ensures rm.Valid() && rm.View() == A.SetAddr(old(rm.View()), h, base) && |rm.regions| == |old(rm.regions)|
      ensures forall g | 0 <= g < |rm.regions| && g != h :: rm.regions[g] == old(rm.regions[g])
    {
      hide P.Inv, A.Inv;
      ghost var hosts := Hosts();
      rm.SetGuestAddr(h, base);
      stackRegions := stackRegions + [h];
      assert Hosts() == hosts + [rm.regions[h].host];
    }

    /** The region for the next 2 MiB. */
    method AllocateStack(chunk: nat, ghost freed: set<nat>) returns (h: nat)
      requires rm.Valid() && Held() && P.TlbOk(rm.pager.S(), freed) && ChunkReady(rm.View(), chunk)
      modifies rm, rm.pager
      ensures rm.Valid() && Held() && P.TlbOk(rm.pager.S(), freed) && Hosts() == old(Hosts())
      ensures rm.pager.Pages() == old(rm.pager.Pages()) && rm.pager.Pt() == old(rm.pager.Pt())
      ensures h !in old(rm.used) && h in rm.used && h < |rm.regions| && rm.regions[h].size == S.STACK_GROW
      ensures S.Fresh(Hosts(), rm.regions[h].host) && rm.regions[h].host % 0x1000 == 0
              && PageBegin(rm.regions[h].host) == rm.regions[h].host
      ensures rm.pager.Mappable(rm.regions[h].host, 0x200)
      ensures A.GrantsAt(old(rm.View()), S.STACK_GROW, chunk, A.Allocated(rm.View(), h))
      ensures forall g | g in old(rm.used) ::
               g in rm.used && g < |old(rm.regions)| && g < |rm.regions| && rm.regions[g] == old(rm.regions[g])
    {
      hide P.Inv, P.Pages, P.TlbOk, A.Inv, A.FindList, A.Allocate, C.FreshRange, A.GrowSize, A.FreshChunk, A.AddChunk,
           A.WellFormed, A.Grants;
      ghost var s, hosts := rm.pager.S(), Hosts();
      ghost var c;
      h, c := rm.Allocate(S.STACK_GROW, chunk);
      assert A.Grants(old(rm.View()), S.STACK_GROW, c, A.Allocated(rm.View(), h));
      FreshHost(rm.View(), stackRegions, h, hosts);
      CacheStays(s, rm.pager.S(), freed);
      rm.RegionMappable(h, 0x200);
    }

    static lemma RoomBounds(m: P.PageMap, blocks: set<nat>, base: nat, freed: set<nat>, limit: nat)
      requires Room(m, blocks, base, freed, limit)
      ensures S.STACK_GROW <= limit <= base <= S.STACK_BASE && limit % S.STACK_GROW == 0 && base % S.STACK_GROW == 0
    {
    }

    /** What posix_memalign may return for the next 2 MiB. */
    method NextChunk() returns (chunk: nat)
      requires rm.Valid()
      ensures ChunkReady(rm.View(), chunk)
    {
      hide P.Inv, A.Inv, A.FindList, A.GrowSize;
      A.ListCount(rm.View());
      chunk := PosixMemalign(rm.pager.chunks, A.GrowSize(S.STACK_GROW));
    }

    /** The lookups of pushq, with the expansion between them. */
    method HostToPush(rsp: nat, ghost freed: set<nat>, ghost limit: nat) returns (p: nat, ghost host: nat)
      requires Valid(freed, limit) && limit <= rsp && S.StackOk(View(rsp + 8))
      modifies this, rm, rm.pager, rm.pager.tlb
      ensures Valid(freed, limit) && rm.pager.Need(blocks) <= old(rm.pager.Need(blocks))
      ensures S.CanPush(old(View(rsp + 8)), host) && View(rsp + 8) == S.Grown(old(View(rsp + 8)), host)
      ensures Pg(rsp) in rm.pager.Pages() && p == S.Translate(rm.pager.Pages(), rsp)
      ensures Same(old(rm.used), old(rm.regions), old(stackRegions))
    {
      hide P.Inv, P.Pages, P.TlbOk, A.Inv, S.Covers, S.Fresh, S.Below, R.Overlay, R.Need, Pg, Room, ChunkReady, Took;
      ghost var s := View(rsp + 8);
      PushFacts(s, blocks, freed, limit);
      A.UsedInBounds(rm.View());
      host := 0;
      p := HostP(rm, rsp, freed);
      if p == 0 {
        var chunk := NextChunk();
        host := Expand(chunk, rsp + 8, freed, limit);
        p := HostP(rm, rsp, freed);
      }
      S.GrownKeeps(s, host);
      assert old(stackRegions)[..|old(stackRegions)|] == old(stackRegions);
    }

    /** pushq */
    method Pushq(rsp: nat, val: nat, ghost freed: set<nat>, ghost limit: nat) returns (ghost host: nat)
      requires Valid(freed, limit) && limit <= rsp && S.StackOk(View(rsp + 8)) && val < H.WORDS
      modifies this, rm, rm.pager, rm.pager.tlb, ram
      ensures Held() && S.Step(old(View(rsp + 8)), S.PushOp(val, host), View(rsp))
      ensures Valid(freed, limit) && rm.pager.Need(blocks) <= old(rm.pager.Need(blocks))
      ensures Same(old(rm.used), old(rm.regions), old(stackRegions))
    {
      hide P.Inv, P.Pages, P.TlbOk, A.Inv, S.Covers, R.Need, Pg, Room, H.Store, S.CanPush, S.Translate, S.Grown;
      var p;
      p, host := HostToPush(rsp, freed, limit);
      CanPushFacts(old(View(rsp + 8)), host);
      ram.StoreWord(p, val);
    }

    static lemma CanPushFacts(s: S.Stack, host: nat)
      requires S.CanPush(s, host)
      ensures s.rsp >= 8 && s.base >= S.STACK_GROW
    {
    }

    lemma PushFacts(s: S.Stack, blocks: set<nat>, freed: set<nat>, limit: nat)
      requires Room(s.m, blocks, s.base, freed, limit) && S.StackOk(s) && s.rsp >= 8 && limit <= s.rsp - 8
      ensures 0x1000 <= s.rsp - 8 < S.STACK_BASE && Pg(s.rsp - 8) !in freed
      ensures Pg(s.rsp - 8) in s.m <==> s.rsp > s.base
      ensures s.rsp == s.base ==> limit < s.base
      ensures s.base >= S.STACK_GROW
    {
      S.PageBelow(s);
    }

    /** Regions in use stay as they are, and the stack takes no region that was in use. */
    ghost predicate Same(used: seq<nat>, regions: seq<A.Region>, handles: seq<nat>)
      reads this, rm
    {
      && (forall g | g in used :: g in rm.used && g < |regions| && g < |rm.regions| && rm.regions[g] == regions[g])
      && |handles| <= |stackRegions| && stackRegions[..|handles|] == handles
      && forall j | |handles| <= j < |stackRegions| :: stackRegions[j] !in used
    }

    /** popq */
    method Popq(rsp: nat, ghost freed: set<nat>, ghost limit: nat) returns (val: nat)
      requires Valid(freed, limit) && S.StackOk(View(rsp)) && rsp < S.STACK_BASE
      modifies rm.pager.tlb
      ensures Valid(freed, limit) && View(rsp) == old(View(rsp)) && Pg(rsp) in rm.pager.Pages()
      ensures val == S.Popped(View(rsp))
    {
      hide P.Inv, P.Pages, P.TlbOk, A.Inv, S.Covers, Pg, S.Contents;
      S.PopKeeps(View(rsp));
      PopFacts(View(rsp), blocks, freed, limit);
      var p := HostP(rm, rsp, freed);
      val := ram.FetchWord(p);
    }

    lemma PopFacts(s: S.Stack, blocks: set<nat>, freed: set<nat>, limit: nat)
      requires Room(s.m, blocks, s.base, freed, limit) && S.StackOk(s) && s.rsp < S.STACK_BASE
      ensures 0x1000 <= s.rsp && Pg(s.rsp) !in freed
    {
      assert R.Between(Pg(limit), Pg(S.STACK_BASE), Pg(s.rsp));
    }
  }

  class VCPU {
    const stack: Stack
    var rsp: nat

    constructor (stack: Stack)
      ensures this.stack == stack && rsp == stack.base
    {
      this.stack := stack;
      rsp := stack.base;
    }

    ghost predicate Valid(freed: set<nat>, limit: nat)
      reads this, stack, stack.rm, stack.rm.pager, stack.rm.pager.tlb, stack.ram
    {
      stack.Valid(freed, limit) && S.StackOk(stack.View(rsp))
    }

    /** The words on the stack, the newest first. */
    ghost function Contents(): seq<nat>
      requires stack.Held() && S.StackOk(stack.View(rsp))
      reads this, stack, stack.rm, stack.rm.pager, stack.rm.pager.tlb, stack.ram
    {
      S.Contents(stack.View(rsp))
    }

    /** push */
    method Push(val: nat, ghost freed: set<nat>, ghost limit: nat)
      requires Valid(freed, limit) && val < H.WORDS && limit + 8 <= rsp
      modifies this`rsp, stack, stack.rm, stack.rm.pager, stack.rm.pager.tlb, stack.ram
      ensures Valid(freed, limit) && stack.rm.pager.Need(stack.blocks) <= old(stack.rm.pager.Need(stack.blocks))
      ensures Contents() == [val] + old(Contents()) && rsp == old(rsp) - 8
      ensures stack.Same(old(stack.rm.used), old(stack.rm.regions), old(stack.stackRegions))
      ensures forall x: nat | S.Outside(stack.Hosts(), x) :: H.At(stack.ram.bytes, x) == H.At(old(stack.ram.bytes), x)
      ensures forall p | p in old(stack.rm.pager.Pages()) ::
               p in stack.rm.pager.Pages() && stack.rm.pager.Pages()[p] == old(stack.rm.pager.Pages())[p]
    {
      hide P.Inv, P.Pages, P.TlbOk, A.Inv, S.Covers, Pg, S.Contents, S.Outside, S.Grown, S.Push, S.CanPush, Room,
           R.Need;
      ghost var s := stack.View(rsp);
      rsp := rsp - 8;
      ghost var host := stack.Pushq(rsp, val, freed, limit);
      S.PushKeeps(s, val, host);
    }

    /** pop */
    method Pop(ghost freed: set<nat>, ghost limit: nat) returns (val: nat)
      requires Valid(freed, limit) && rsp < S.STACK_BASE
      modifies this`rsp, stack.rm.pager.tlb
      ensures Valid(freed, limit) && old(Contents()) == [val] + Contents() && rsp == old(rsp) + 8
      ensures stack.View(rsp) == S.Pop(old(stack.View(rsp)))
    {
      hide P.Inv, P.Pages, P.TlbOk, A.Inv, S.Covers, Pg, S.Contents, S.Popped;
      S.PopKeeps(stack.View(rsp));
      val := stack.Popq(rsp, freed, limit);
      rsp := rsp + 8;
    }
  }
}
