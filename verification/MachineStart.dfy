/** Programs that use the clients from the start of a machine on: the stack, the initial process
    stack, and a read onto the stack. */
module MachineStart {
  import opened PageArith
  import opened PageEntry
  import C = Chunks
  import P = Pager
  import A = Allocator
  import R = PagerRanges
  import H = HostMemory
  import T = PageTables
  import opened Mappings
  import S = StackRuns
  import opened RegionManagers
  import opened Stacks
  import Env = Environ
  import SR = SplitRead
  import HP = HostRuns
  import HS = HeapStart

  // ----- a stack is a buffer

  /** The handles are the regions of the stack, the newest last. */
  ghost predicate StackHandles(a: A.Alloc, handles: seq<nat>, hosts: seq<nat>) {
    |handles| == |hosts|
    && forall j | 0 <= j < |handles| ::
         && handles[j] in a.used && handles[j] < |a.regions| && a.regions[handles[j]].host == hosts[j]
         && a.regions[handles[j]].size == S.STACK_GROW
         && a.regions[handles[j]].addr + S.STACK_GROW * (j + 1) == S.STACK_BASE
  }

  /** Block j of the stack is the range of its region. */
  lemma BlockRange(g: nat, addr: nat, j: nat)
    requires g < S.STACK_BASE && addr + S.STACK_GROW * (j + 1) == S.STACK_BASE
    ensures S.Block(g) == j <==> addr <= g < addr + S.STACK_GROW
    ensures S.Block(g) == j ==> g - addr == g % S.STACK_GROW
  {
    S.BlockIs(g);
    var q := g / S.STACK_GROW;
    assert g == S.STACK_GROW * q + g % S.STACK_GROW && addr == S.STACK_GROW * (0x400_0000 - 1 - j);
  }

  lemma StackStraight(a: A.Alloc, handles: seq<nat>, s: S.Stack, g: nat)
    requires S.Covers(s.base, s.regions, s.m) && StackHandles(a, handles, s.regions) && s.base <= g < S.STACK_BASE
    ensures 0 <= S.Block(g) < |handles|
    ensures SR.Backs(a, s.m, handles[S.Block(g)], g) && SR.Straight(a.regions[handles[S.Block(g)]], s.m, g)
  {
    hide S.Covers, S.Block, Pg, S.Translate;
    S.TranslateIs(s, g);
    var j := S.Block(g);
    BlockRange(g, a.regions[handles[j]].addr, j);
  }

  /** Any part of the stack, across any number of its regions, is a buffer for the split read. */
  lemma StackLinear(a: A.Alloc, handles: seq<nat>, s: S.Stack, buf: nat, count: nat)
    requires A.Inv(a) && S.Covers(s.base, s.regions, s.m) && StackHandles(a, handles, s.regions)
    requires s.base <= buf && buf + count <= S.STACK_BASE
    ensures SR.Linear(a, s.m, buf, count)
  {
    hide S.Covers, S.Block, Pg, S.Translate, A.Inv;
    forall g: nat | H.Within(buf, count, g) ensures SR.LinearAt(a, s.m, g) {
      StackStraight(a, handles, s, g);
    }
    forall h: nat, g: nat, f: nat | SR.Backs(a, s.m, h, g) && H.Within(buf, count, g) && H.Within(buf, count, f)
        && SR.Covers(a.regions[h], f)
      ensures SR.Backs(a, s.m, h, f)
    {
      StackStraight(a, handles, s, g);
      StackStraight(a, handles, s, f);
      var j := S.Block(g);
      A.OneRegion(a, handles[j], h, S.Translate(s.m, g));
      BlockRange(f, a.regions[h].addr, j);
    }
  }

  lemma StackBuffer(stack: Stack, rsp: nat, freed: set<nat>, limit: nat, buf: nat, count: nat)
    requires stack.Valid(freed, limit) && stack.base <= buf && buf + count <= S.STACK_BASE
    ensures SR.Buffer(stack.rm, freed, buf, count)
  {
    hide P.Inv, P.Pages, P.TlbOk, A.Inv, S.Covers, R.Need, R.Touched, SR.Linear;
    StackLinear(stack.rm.View(), stack.stackRegions, stack.View(rsp), buf, count);
    forall g: nat | H.Within(buf, count, g) ensures Pg(g) !in freed {
      assert R.Between(Pg(limit), Pg(S.STACK_BASE), Pg(g));
    }
  }

  // ----- a read onto the stack

  /** The bytes of a word lie behind each other in host memory. */
  lemma WordBytes(s: S.Stack, i: nat)
    requires S.StackOk(s) && s.rsp < S.STACK_BASE && i < 8
    ensures Pg(s.rsp) in s.m && Pg(s.rsp + i) in s.m
    ensures S.Translate(s.m, s.rsp + i) == S.Translate(s.m, s.rsp) + i && Pg(s.rsp + i) == Pg(s.rsp)
    ensures 0 <= S.Block(s.rsp) < |s.regions| && S.Translate(s.m, s.rsp) == S.HostOf(s.regions, s.rsp)
  {
    hide S.Covers, S.HostOf, S.Block;
    S.TranslateIs(s, s.rsp);
    WordInPage(s.rsp, i);
  }

  lemma WordInPage(a: nat, i: nat)
    requires a % 8 == 0 && i < 8
    ensures Pg(a + i) == Pg(a) && (a + i) % 0x1000 == a % 0x1000 + i
  {
    var q, r := a / 0x1000, a % 0x1000;
    assert a == 0x1000 * q + r && r == 8 * (a / 8 - 0x200 * q);
    DivModUnique(a + i, 0x1000, q, r + i);
  }

  /** Memory in which 8 bytes of data went to the word at rsp. */
  lemma WordRead(s: S.Stack, data: seq<H.Byte>, mem: H.Memory)
    requires S.StackOk(s) && s.rsp < S.STACK_BASE && SR.Delivered(s.m, s.rsp, 8, data, s.mem, mem)
    ensures Pg(s.rsp) in s.m && S.Popped(s.(mem := mem)) == H.Value(data[..8])
  {
    hide S.Covers, S.Translate, Pg, H.Value, S.Block;
    WordBytes(s, 0);
    var h := S.Translate(s.m, s.rsp);
    forall i | 0 <= i < 8 ensures H.Get(mem, h, 8)[i] == data[..8][i] {
      WordBytes(s, i);
      assert H.Within(s.rsp, 8, s.rsp + i);
    }
    assert H.Get(mem, h, 8) == data[..8];
  }

  /** The words above the one at rsp do not notice what happens to it. */
  lemma WordsAbove(s: S.Stack, data: seq<H.Byte>, k: nat, mem: H.Memory)
    requires S.StackOk(s) && s.rsp < S.STACK_BASE && k <= 8 && SR.Delivered(s.m, s.rsp, k, data, s.mem, mem)
    ensures S.StackOk(s.(mem := mem)) && S.StackOk(S.Pop(s)) && S.StackOk(S.Pop(s.(mem := mem)))
    ensures S.Contents(S.Pop(s.(mem := mem))) == S.Contents(S.Pop(s))
  {
    hide S.Covers, S.Contents, S.Word, S.Popped;
    S.PopKeeps(s);
    S.PopKeeps(s.(mem := mem));
    var t, t' := S.Pop(s), S.Pop(s.(mem := mem));
    forall i | 0 <= i < |S.Contents(t)| ensures S.Contents(t')[i] == S.Contents(t)[i] {
      S.WordAddr(t, i);
      WordAbove(s, data, k, mem, t.rsp + 8 * i);
    }
  }

  lemma WordAbove(s: S.Stack, data: seq<H.Byte>, k: nat, mem: H.Memory, b: nat)
    requires S.StackOk(s) && k <= 8 && SR.Delivered(s.m, s.rsp, k, data, s.mem, mem)
    requires s.rsp < b < S.STACK_BASE && b % 8 == 0
    ensures S.Word(S.Pop(s.(mem := mem)), b) == S.Word(S.Pop(s), b)
  {
    hide S.Covers, S.HostOf, H.Value, S.Translate, Pg, S.Block;
    S.WordsApart(s, s.rsp, b);
    WordBytes(s, 0);
    var h := S.HostOf(s.regions, b);
    forall x: nat | H.Within(h, 8, x) ensures H.At(mem, x) == H.At(s.mem, x) {
      if SR.Hit(s.m, s.rsp, k, x) {
        var g: nat :| H.Within(s.rsp, k, g) && Pg(g) in s.m && S.Translate(s.m, g) == x;
        WordBytes(s, g - s.rsp);
      }
    }
    assert H.Get(mem, h, 8) == H.Get(s.mem, h, 8);
  }

  /** A word is pushed, 8 bytes are read into its place, and it is popped: the value is that of the bytes,
      unless the read was short, and the words below are as before. */
  method ReadWord(vcpu: VCPU, reader: SR.Reader, ghost freed: set<nat>, ghost limit: nat)
    returns (result: int, val: nat)
    requires vcpu.Valid(freed, limit) && limit + 8 <= vcpu.rsp
    modifies vcpu`rsp, vcpu.stack, vcpu.stack.rm, vcpu.stack.rm.pager, vcpu.stack.rm.pager.tlb, vcpu.stack.ram
    modifies reader`data, reader`plan, reader`short
    ensures vcpu.Valid(freed, limit) && vcpu.Contents() == old(vcpu.Contents()) && vcpu.rsp == old(vcpu.rsp)
    ensures !reader.short ==> result == 8 <= |old(reader.data)| && val == H.Value(old(reader.data)[..8])
  {
    hide P.Inv, P.Pages, P.TlbOk, A.Inv, S.Covers, S.Contents, S.Popped, R.Need, Room, SR.Linear, SR.Delivered, H.Value;
    vcpu.Push(0, freed, limit);
    ghost var c := vcpu.Contents();
    result, val := ReadAndPop(vcpu, reader, freed, limit);
    assert c[1..] == old(vcpu.Contents());
  }

  /** A read of 8 bytes into the word at rsp, and a pop. */
  method ReadAndPop(vcpu: VCPU, reader: SR.Reader, ghost freed: set<nat>, ghost limit: nat)
    returns (result: int, val: nat)
    requires vcpu.Valid(freed, limit) && vcpu.rsp < S.STACK_BASE
    modifies vcpu`rsp, vcpu.stack.rm.pager.tlb, vcpu.stack.ram, reader`data, reader`plan, reader`short
    ensures vcpu.Valid(freed, limit) && |old(vcpu.Contents())| > 0 && vcpu.Contents() == old(vcpu.Contents())[1..]
    ensures vcpu.rsp == old(vcpu.rsp) + 8
    ensures !reader.short ==> result == 8 <= |old(reader.data)| && val == H.Value(old(reader.data)[..8])
  {
    hide P.Inv, P.Pages, P.TlbOk, A.Inv, S.Covers, S.Contents, S.Popped, R.Need, Room, SR.Linear, SR.Delivered, H.Value;
    ghost var s, data := vcpu.stack.View(vcpu.rsp), reader.data;
    AtLeastAWord(s);
    StackBuffer(vcpu.stack, vcpu.rsp, freed, limit, vcpu.rsp, 8);
    ghost var k;
    var failed;
    result, k, failed := SR.DoRead(vcpu.stack.rm, vcpu.stack.ram, reader, vcpu.rsp, 8, freed);
    WordsAbove(s, data, k, vcpu.stack.ram.bytes);
    if k == 8 {
      WordRead(s, data, vcpu.stack.ram.bytes);
      EnoughData(s.m, s.rsp, data, s.mem, vcpu.stack.ram.bytes);
    }
    S.PopKeeps(s);
    ghost var s' := vcpu.stack.View(vcpu.rsp);
    S.PopKeeps(s');
    val := vcpu.Pop(freed, limit);
    assert S.Contents(s')[0] == val;
  }

  lemma AtLeastAWord(s: S.Stack)
    requires S.StackOk(s) && s.rsp < S.STACK_BASE
    ensures s.rsp + 8 <= S.STACK_BASE
  {
    hide S.Covers;
  }

  lemma EnoughData(m: P.PageMap, buf: nat, data: seq<H.Byte>, mem0: H.Memory, mem: H.Memory)
    requires SR.Delivered(m, buf, 8, data, mem0, mem)
    ensures 8 <= |data|
  {
  }

  // ----- from a new machine to the initial process stack

  /** The chunks lie below limit, at guest addresses in blocks with room for their tables. */
  ghost predicate ChunksBelow(cs: seq<C.Chunk>, blocks: set<nat>, limit: nat) {
    forall k | 0 <= k < |cs| :: HS.Reaches(blocks, cs[k].host, cs[k].size) && cs[k].host + cs[k].size <= limit
  }

  /** Where the environment goes while everything else lies above limit. */
  lemma EnvFits(a: A.Alloc, m: P.PageMap, blocks: set<nat>, limit: nat, host: nat)
    requires A.Inv(a) && ChunksBelow(a.chunks, blocks, limit) && forall p | p in m :: p >= Pg(limit)
    requires A.FindList(a, 0x1000 * Env.ENV_PAGES) == A.N_FREELISTS ==>
               && C.FreshRange(a.chunks, host, A.GrowSize(0x1000 * Env.ENV_PAGES))
               && HS.Reaches(blocks, host, A.GrowSize(0x1000 * Env.ENV_PAGES))
               && host + A.GrowSize(0x1000 * Env.ENV_PAGES) <= limit
    ensures Env.CanSetup(a, m, map[], blocks, limit, host)
  {
    hide A.Inv, A.FindList, A.GrantsAt, A.GrowSize, C.FreshRange, R.Touched, HS.Reaches;
    A.ListCount(a);
    forall r | A.GrantsAt(a, 0x1000 * Env.ENV_PAGES, host, r)
      ensures r.h < |r.s.regions| && Env.EnvPlace(m, map[], blocks, limit, r.s.regions[r.h].host)
    {
      var q := HP.CutFrom(a, 0x1000 * Env.ENV_PAGES, host, r);
      if A.FindList(a, 0x1000 * Env.ENV_PAGES) < A.N_FREELISTS {
        var h: nat :| h < |a.regions| && a.regions[h] == q;
        RegionBelow(a, h, blocks, limit);
      }
      HS.FrontReaches(blocks, q.host, q.size, 0x1000 * Env.ENV_PAGES);
      PlaceIsEnvs(m, blocks, limit, q.host);
    }
  }

  lemma RegionBelow(a: A.Alloc, h: nat, blocks: set<nat>, limit: nat)
    requires A.Inv(a) && ChunksBelow(a.chunks, blocks, limit) && h < |a.regions|
    ensures HS.Reaches(blocks, a.regions[h].host, a.regions[h].size) && a.regions[h].host + a.regions[h].size <= limit
  {
    hide HS.Reaches;
    var r := a.regions[h];
    assert A.WellFormed(r);
    var k: nat :| k < |a.chunks| && A.InChunk(a.chunks[k], r);
    HS.PartReaches(blocks, a.chunks[k].host, a.chunks[k].size, r.host, r.size);
  }

  lemma PlaceIsEnvs(m: P.PageMap, blocks: set<nat>, limit: nat, t: nat)
    requires HS.Reaches(blocks, t, 0x1000 * Env.ENV_PAGES) && t + 0x1000 * Env.ENV_PAGES <= limit
    requires forall p | p in m :: p >= Pg(limit)
    ensures Env.EnvPlace(m, map[], blocks, limit, t)
  {
    forall p | p in R.Range(Pg(t), Env.ENV_PAGES) ensures p !in m {
      HP.FrontHolds(t, 0x1000 * Env.ENV_PAGES, p);
    }
  }

  /** Three chunks of 128 MiB and up to 1 GiB of stack: the tables for all of it fit into the pool. */
  ghost function AllBlocks(host: nat, more: nat, last: nat, limit: nat): set<nat>
    requires limit <= S.STACK_BASE
  {
    R.Touched(Pg(host), 0x8000) + R.Touched(Pg(more), 0x8000) + R.Touched(Pg(last), 0x8000)
    + R.Touched(Pg(limit), Pg(S.STACK_BASE) - Pg(limit))
  }

  lemma BlocksFit(pt: T.PT, host: nat, more: nat, last: nat, limit: nat)
    requires |pt.tables| == 1 && S.STACK_BASE - 0x4000_0000 <= limit <= S.STACK_BASE
    ensures R.Need(pt, AllBlocks(host, more, last, limit)) <= P.POOL_TABLES
  {
    hide R.Need, R.Touched;
    var b1, b2, b3 := R.Touched(Pg(host), 0x8000), R.Touched(Pg(more), 0x8000), R.Touched(Pg(last), 0x8000);
    var b4 := R.Touched(Pg(limit), Pg(S.STACK_BASE) - Pg(limit));
    R.NeedBound(pt, b1 + b2 + b3 + b4);
    R.UnionSize(b1 + b2 + b3, b4);
    R.UnionSize(b1 + b2, b3);
    R.UnionSize(b1, b2);
    R.TouchedSize(Pg(host), 0x8000);
    R.TouchedSize(Pg(more), 0x8000);
    R.TouchedSize(Pg(last), 0x8000);
    R.TouchedSize(Pg(limit), Pg(S.STACK_BASE) - Pg(limit));
  }

  /** What posix_memalign returns for the first chunk and, if they are asked for, for two more. */
  ghost predicate ThreeRanges(host: nat, more: nat, last: nat, limit: nat) {
    && C.FreshRange([], host, A.MEMGROW) && host + A.MEMGROW <= limit
    && C.FreshRange([C.Chunk(host, 0, A.MEMGROW, 0)], more, A.MEMGROW) && more + A.MEMGROW <= limit
    && C.FreshRange([C.Chunk(host, 0, A.MEMGROW, 0), C.Chunk(more, 0, A.MEMGROW, 0)], last, A.MEMGROW)
    && last + A.MEMGROW <= limit && limit % S.STACK_GROW == 0 && S.STACK_BASE - 0x4000_0000 <= limit < S.STACK_BASE
  }

  lemma RangesReach(host: nat, more: nat, last: nat, limit: nat)
    requires ThreeRanges(host, more, last, limit)
    ensures var blocks := AllBlocks(host, more, last, limit);
            && HS.Reaches(blocks, host, A.MEMGROW) && HS.Reaches(blocks, more, A.MEMGROW)
            && HS.Reaches(blocks, last, A.MEMGROW) && Room(map[], blocks, S.STACK_BASE, {}, limit)
    ensures A.GrowSize(S.STACK_GROW) == A.MEMGROW && A.GrowSize(0x1000 * Env.ENV_PAGES) == A.MEMGROW
  {
    hide R.Touched;
  }

  /** The chunks behind the allocation for the stack. */
  lemma TookChunks(a: A.Alloc, more: nat, base: nat, a': A.Alloc, h: nat, host: nat, last: nat, limit: nat)
    requires A.Inv(a) && a.chunks == [C.Chunk(host, 0, A.MEMGROW, 0)] && Took(a, more, base, a', h)
    requires ThreeRanges(host, more, last, limit)
    ensures ChunksBelow(a'.chunks, AllBlocks(host, more, last, limit), limit)
    ensures C.FreshRange(a'.chunks, last, A.MEMGROW)
  {
    hide A.Inv, A.FindList, A.GrantsAt, A.Serves, HS.Reaches, AllBlocks;
    RangesReach(host, more, last, limit);
    var r: A.Allocated :|
      A.GrantsAt(a, S.STACK_GROW, more, r) && r.h == h < |r.s.regions| && a' == A.SetAddr(r.s, h, base);
    HP.GrantedChunks(a, S.STACK_GROW, more, r);
    assert |r.s.chunks| == 2 ==> r.s.chunks[0] == r.s.chunks[..1][0];
    var cs := [C.Chunk(host, 0, A.MEMGROW, 0), C.Chunk(more, 0, A.MEMGROW, 0)];
    assert C.HostDisjoint(cs[0], last, A.MEMGROW) && C.HostDisjoint(cs[1], last, A.MEMGROW);
  }

  /** A new machine gets a stack: its 2 MiB are the only pages in use. */
  method StartStack(host: nat, more: nat, ghost last: nat, ghost limit: nat) returns (vcpu: VCPU)
    requires ThreeRanges(host, more, last, limit)
    ensures fresh(vcpu) && fresh(vcpu.stack) && fresh(vcpu.stack.rm) && fresh(vcpu.stack.rm.pager)
            && fresh(vcpu.stack.rm.pager.tlb) && fresh(vcpu.stack.ram)
    ensures vcpu.Valid({}, limit) && vcpu.rsp == 0x7FFF_FFE0_0000 && vcpu.stack.ram.bytes == map[]
    ensures vcpu.stack.blocks == AllBlocks(host, more, last, limit)
    ensures ChunksBelow(vcpu.stack.rm.pager.chunks, vcpu.stack.blocks, limit)
    ensures C.FreshRange(vcpu.stack.rm.pager.chunks, last, A.MEMGROW)
    ensures forall p: nat :: p in vcpu.stack.rm.pager.Pages() <==> 0x7_FFFF_FE00 <= p < 0x8_0000_0000
  {
    hide P.Inv, P.Pages, A.Inv, A.FindList, R.Need, R.Touched, HS.Reaches, AllBlocks, Room, Took, S.Covers, P.TlbOk,
         P.FreshTlb, R.Overlay, Pg, A.GrowSize, C.FreshRange, ChunksBelow;
    var rm := new RegionManager(host);
    var ram := new H.Ram(map[]);
    ghost var a := rm.View();
    RangesReach(host, more, last, limit);
    BlocksFit(rm.pager.Pt(), host, more, last, limit);
    A.ListCount(a);
    EmptyCache(rm.pager.S());
    var stack := new Stack(rm, ram, more, AllBlocks(host, more, last, limit), {}, limit);
    OnlyStack(rm.pager.Pages(), stack.base, rm.regions[stack.stackRegions[0]].host);
    TookChunks(a, more, stack.base, rm.View(), stack.stackRegions[0], host, last, limit);
    vcpu := new VCPU(stack);
  }

  /** A new machine: a word is pushed and popped, another one is read from a file onto the stack. */
  method FirstRead(host: nat, more: nat, v: nat, reader: SR.Reader, ghost last: nat, ghost limit: nat)
    returns (w: nat, result: int, val: nat)
    requires ThreeRanges(host, more, last, limit) && v < H.WORDS && limit + 8 <= S.STACK_BASE - S.STACK_GROW
    modifies reader`data, reader`plan, reader`short
    ensures w == v
    ensures !reader.short ==> result == 8 <= |old(reader.data)| && val == H.Value(old(reader.data)[..8])
  {
    hide P.Inv, P.Pages, A.Inv, R.Need, AllBlocks, Room, S.Covers, P.TlbOk, ChunksBelow, C.FreshRange, S.Contents,
         H.Value, ThreeRanges, S.Pop;
    var vcpu := StartStack(host, more, last, limit);
    vcpu.Push(v, {}, limit);
    ghost var c := vcpu.Contents();
    w := vcpu.Pop({}, limit);
    assert c[0] == w;
    result, val := ReadWord(vcpu, reader, {}, limit);
  }

  lemma OnlyStack(m: P.PageMap, base: nat, host: nat)
    requires m == R.Overlay(map[], Pg(base), host, 0x200, Opts(true, false)) && base == 0x7FFF_FFE0_0000
    ensures forall p: nat :: p in m <==> 0x7_FFFF_FE00 <= p < 0x8_0000_0000
  {
    assert forall p: nat :: R.InRange(Pg(base), 0x200, p) <==> 0x7_FFFF_FE00 <= p < 0x8_0000_0000;
  }

  lemma EmptyCache(s: P.State)
    requires P.FreshTlb(s.tlb)
    ensures P.TlbOk(s, {})
  {
  }

  /** From a new machine to the stack that a process starts with: the chunks, the stack, the
      environment's region, and everything that create puts there. */
  method StartProcess(host: nat, more: nat, last: nat, argv: seq<Env.Str>, env: seq<Env.Str>, auxv: seq<Env.Auxv>,
                      binary: Env.ElfAuxv, ghost limit: nat)
    returns (vcpu: VCPU, ghost argvs: seq<nat>, ghost envs: seq<nat>, ghost words: seq<nat>)
    requires ThreeRanges(host, more, last, limit) && Env.AuxFits(auxv) && |argv| < H.WORDS && Env.BinaryFits(binary)
    requires binary.valid ==> Env.Complete(auxv)
    requires Env.AuxSize(auxv) + Env.Size(env) + Env.Size(argv) < 0xC000
    requires limit + 16 * |auxv| + 8 * |env| + 8 * |argv| + 24 <= 0x7FFF_FFE0_0000
    ensures vcpu.Valid({}, limit)
    ensures [|argv|] + argvs + [0] + envs + [0] + words <= vcpu.Contents()
    ensures var m, mem := vcpu.stack.rm.pager.Pages(), vcpu.stack.ram.bytes;
            && Env.GuestPointers(m, mem, argvs, argv) && Env.GuestPointers(m, mem, envs, env)
            && Env.GuestPairs(m, mem, words, Env.Kept(Env.Effective(auxv, binary)))
            && Env.AbiWords(m, mem, words, auxv, binary)
  {
    hide P.Inv, P.Pages, A.Inv, A.FindList, R.Need, R.Touched, HS.Reaches, AllBlocks, Room, S.Covers, P.TlbOk,
         Env.AuxFits, Env.AuxSize, Env.Size, Env.Kept, Env.Effective, Env.GuestPointers, Env.GuestPairs, Env.Complete,
         ChunksBelow, C.FreshRange, Env.CanSetup, S.Contents, Env.AbiWords;
    vcpu := StartStack(host, more, last, limit);
    RangesReach(host, more, last, limit);
    AboveLimit(vcpu.stack.rm.pager.Pages(), limit);
    EnvFits(vcpu.stack.rm.View(), vcpu.stack.rm.pager.Pages(), vcpu.stack.blocks, limit, last);
    argvs, envs, words := Env.SetupEnvironment(vcpu, argv, env, auxv, binary, last, {}, limit);
  }

  lemma AboveLimit(m: P.PageMap, limit: nat)
    requires limit <= 0x7FFF_FFE0_0000 && forall p: nat :: p in m <==> 0x7_FFFF_FE00 <= p < 0x8_0000_0000
    ensures forall p | p in m :: p >= Pg(limit)
  {
  }
}
