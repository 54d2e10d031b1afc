/** The user stack on values: it grows downward from 2^47 in regions of 2 MiB, and behaves as a
    list of words under every run of pushes and pops. */
module StackRuns {
  import opened PageArith
  import opened PageEntry
  import P = Pager
  import R = PagerRanges
  import H = HostMemory
  import opened Mappings

  const STACK_BASE: nat := 0x8000_0000_0000
  const STACK_GROW: nat := 0x20_0000

  /** regions[j] is the host base of the region for the j-th 2 MiB below STACK_BASE. */
  datatype Stack = Stack(base: nat, rsp: nat, regions: seq<nat>, m: P.PageMap, mem: H.Memory)

  predicate Apart(h: nat, g: nat) { h + STACK_GROW <= g || g + STACK_GROW <= h }

  function Block(addr: nat): int { (STACK_BASE - 1 - addr) / STACK_GROW }

  /** Where a stack address lies in host memory. */
  function HostOf(regions: seq<nat>, addr: nat): nat
    requires 0 <= Block(addr) < |regions|
  {
    regions[Block(addr)] + addr % STACK_GROW
  }

  ghost predicate PagesOk(regions: seq<nat>, m: P.PageMap, base: nat) {
    forall p: nat | R.Between(Pg(base), Pg(STACK_BASE), p) ::
      && p in m && 0 <= Block(0x1000 * p) < |regions| && m[p] == P.Page(HostOf(regions, 0x1000 * p), true, false)
  }

  /** The stack covers [base, STACK_BASE) with disjoint regions. */
  ghost predicate Covers(base: nat, regions: seq<nat>, m: P.PageMap) {
    && base + STACK_GROW * |regions| == STACK_BASE
    && (forall j | 0 <= j < |regions| :: regions[j] > 0 && regions[j] % 0x1000 == 0)
    && (forall i, j | 0 <= i < j < |regions| :: Apart(regions[i], regions[j]))
    && PagesOk(regions, m, base)
  }

  ghost predicate StackOk(s: Stack) {
    Covers(s.base, s.regions, s.m) && s.base <= s.rsp <= STACK_BASE && s.rsp % 8 == 0
  }

  lemma NothingCovered(m: P.PageMap)
    ensures Covers(STACK_BASE, [], m)
  {
  }

  lemma BlockBounds(base: nat, n: nat, addr: nat)
    requires base + STACK_GROW * n == STACK_BASE && base <= addr < STACK_BASE
    ensures 0 <= Block(addr) < n
  {
  }

  /** All addresses of a page lie in one block, at the same distance from its host page. */
  lemma SamePage(addr: nat)
    requires addr < STACK_BASE
    ensures Block(0x1000 * Pg(addr)) == Block(addr)
    ensures addr % STACK_GROW == 0x1000 * Pg(addr) % STACK_GROW + addr % 0x1000
  {
    var a := 0x1000 * Pg(addr);
    assert a <= addr < a + 0x1000;
    assert STACK_GROW == 0x200 * 0x1000;
    assert addr / STACK_GROW == a / STACK_GROW;
    BlockIs(addr);
    BlockIs(a);
  }

  lemma BlockIs(addr: nat)
    requires addr < STACK_BASE
    ensures Block(addr) == 0x400_0000 - 1 - addr / STACK_GROW
  {
  }

  /** get_host_p on the page map. */
  function Translate(m: P.PageMap, addr: nat): nat
    requires Pg(addr) in m
  {
    m[Pg(addr)].host + addr % 0x1000
  }

  lemma TranslateIs(s: Stack, addr: nat)
    requires Covers(s.base, s.regions, s.m) && s.base <= addr < STACK_BASE
    ensures Pg(addr) in s.m && 0 <= Block(addr) < |s.regions| && Translate(s.m, addr) == HostOf(s.regions, addr)
  {
    BlockBounds(s.base, |s.regions|, addr);
    SamePage(addr);
    assert R.Between(Pg(s.base), Pg(STACK_BASE), Pg(addr));
  }

  /** Distinct words of the stack do not overlap in host memory. */
  lemma WordsApart(s: Stack, a: nat, b: nat)
    requires Covers(s.base, s.regions, s.m) && s.base <= a < STACK_BASE && s.base <= b < STACK_BASE && a % 8 == 0
             && b % 8 == 0 && a != b
    ensures 0 <= Block(a) < |s.regions| && 0 <= Block(b) < |s.regions|
    ensures var h, g := HostOf(s.regions, a), HostOf(s.regions, b); h + 8 <= g || g + 8 <= h
  {
    hide PagesOk, Block;
    BlockBounds(s.base, |s.regions|, a);
    BlockBounds(s.base, |s.regions|, b);
    WordArith(a);
    WordArith(b);
    var i, j := Block(a), Block(b);
    assert i < j ==> Apart(s.regions[i], s.regions[j]);
    assert j < i ==> Apart(s.regions[j], s.regions[i]);
  }

  lemma WordArith(a: nat)
    requires a < STACK_BASE && a % 8 == 0
    ensures a == STACK_GROW * (0x400_0000 - 1 - Block(a)) + a % STACK_GROW
    ensures a % STACK_GROW % 8 == 0 && a % STACK_GROW <= STACK_GROW - 8
  {
    BlockIs(a);
  }

  lemma Height(base: nat, regions: seq<nat>, m: P.PageMap)
    requires Covers(base, regions, m)
    ensures base + STACK_GROW * |regions| == STACK_BASE
  {
  }

  lemma BaseAligned(base: nat, regions: seq<nat>, m: P.PageMap)
    requires Covers(base, regions, m)
    ensures base % STACK_GROW == 0 && base % 0x1000 == 0 && base % 8 == 0 && base <= STACK_BASE
  {
    hide PagesOk;
    assert base == STACK_GROW * (0x400_0000 - |regions|);
    GrowMultiple(0x400_0000 - |regions|);
  }

  lemma GrowMultiple(k: nat)
    ensures STACK_GROW * k % STACK_GROW == 0 && STACK_GROW * k % 0x1000 == 0 && STACK_GROW * k % 8 == 0
  {
    Multiple(STACK_GROW, k);
    Multiple(0x1000, 0x200 * k);
    Multiple(8, 0x4_0000 * k);
  }

  lemma Multiple(n: nat, k: nat)
    requires n > 0
    ensures n * k % n == 0
  {
    DivModUnique(n * k, n, k, 0);
  }

  function Word(s: Stack, addr: nat): nat {
    if 0 <= Block(addr) < |s.regions| then H.Fetch(s.mem, HostOf(s.regions, addr)) else 0
  }

  /** The words from rsp up to STACK_BASE. */
  ghost function Contents(s: Stack): (c: seq<nat>)
    requires StackOk(s)
    ensures |c| == (STACK_BASE - s.rsp) / 8
    ensures forall i | 0 <= i < |c| :: c[i] == Word(s, s.rsp + 8 * i)
  {
    seq((STACK_BASE - s.rsp) / 8, i requires 0 <= i < (STACK_BASE - s.rsp) / 8 => Word(s, s.rsp + 8 * i))
  }

  // ----- expand, push and pop

  /** A host range for a further region. */
  ghost predicate Fresh(regions: seq<nat>, host: nat) {
    host > 0 && host % 0x1000 == 0 && forall j | 0 <= j < |regions| :: Apart(regions[j], host)
  }

  /** The 2 MiB below the stack are not in use. */
  ghost predicate Below(m: P.PageMap, base: nat) {
    base > STACK_GROW && forall p: nat | R.Between(Pg(base - STACK_GROW), Pg(base), p) :: p !in m
  }

  ghost function Expand(s: Stack, host: nat): Stack
    requires s.base >= STACK_GROW
  {
    s.(base := s.base - STACK_GROW, regions := s.regions + [host],
       m := R.Overlay(s.m, Pg(s.base - STACK_GROW), host, 0x200, Opts(true, false)))
  }

  /** The block of a page in a stack of n blocks that gets one more. */
  lemma PageBlock(base: nat, n: nat, p: nat)
    requires base + STACK_GROW * n == STACK_BASE && base >= STACK_GROW
    requires R.Between(Pg(base - STACK_GROW), Pg(STACK_BASE), p)
    ensures if p < Pg(base)
            then R.InRange(Pg(base - STACK_GROW), 0x200, p) && Block(0x1000 * p) == n
                 && 0x1000 * p % STACK_GROW == 0x1000 * (p - Pg(base - STACK_GROW))
            else R.Between(Pg(base), Pg(STACK_BASE), p) && !R.InRange(Pg(base - STACK_GROW), 0x200, p)
                 && 0 <= Block(0x1000 * p) < n
  {
    hide Pg, Block;
    var k, q, r := 0x400_0000 - n, p / 0x200, p % 0x200;
    GrowPage(k);
    GrowPage(k - 1);
    GrowPage(0x400_0000);
    assert base == STACK_GROW * k && p == 0x200 * q + r;
    DivModUnique(0x1000 * p, STACK_GROW, q, 0x1000 * r);
    BlockIs(0x1000 * p);
  }

  lemma GrowPage(k: nat)
    ensures Pg(STACK_GROW * k) == 0x200 * k
  {
    DivModUnique(STACK_GROW * k, 0x1000, 0x200 * k, 0);
  }

  lemma ExpandPages(s: Stack, host: nat, p: nat)
    requires Covers(s.base, s.regions, s.m) && s.base >= STACK_GROW
    requires R.Between(Pg(s.base - STACK_GROW), Pg(STACK_BASE), p)
    ensures var s' := Expand(s, host);
            p in s'.m && 0 <= Block(0x1000 * p) < |s'.regions|
            && s'.m[p] == P.Page(HostOf(s'.regions, 0x1000 * p), true, false)
  {
    hide Pg, Block;
    PageBlock(s.base, |s.regions|, p);
  }

  lemma ExpandWord(s: Stack, host: nat, addr: nat)
    requires Covers(s.base, s.regions, s.m) && s.base >= STACK_GROW && s.base <= addr < STACK_BASE
    ensures Word(Expand(s, host), addr) == Word(s, addr)
  {
    BlockBounds(s.base, |s.regions|, addr);
  }

  /** Expansion covers 2 MiB more and changes neither the words nor any other page. */
  lemma ExpandKeeps(s: Stack, host: nat)
    requires StackOk(s) && s.base >= STACK_GROW && Fresh(s.regions, host)
    ensures var s' := Expand(s, host);
            && StackOk(s') && Contents(s') == Contents(s)
            && (Below(s.m, s.base) ==> forall p | p in s.m :: p in s'.m && s'.m[p] == s.m[p])
  {
    hide Pg, Block, Word, HostOf, R.Overlay, Below;
    var s' := Expand(s, host);
    forall p: nat | R.Between(Pg(s'.base), Pg(STACK_BASE), p)
      ensures p in s'.m && 0 <= Block(0x1000 * p) < |s'.regions|
      ensures s'.m[p] == P.Page(HostOf(s'.regions, 0x1000 * p), true, false)
    {
      ExpandPages(s, host, p);
    }
    assert Covers(s'.base, s'.regions, s'.m);
    forall i | 0 <= i < |Contents(s)| ensures Contents(s')[i] == Contents(s)[i] {
      ExpandWord(s, host, s.rsp + 8 * i);
    }
    if Below(s.m, s.base) {
      ExpandOthers(s, host);
    }
  }

  lemma ExpandOthers(s: Stack, host: nat)
    requires Covers(s.base, s.regions, s.m) && Below(s.m, s.base)
    ensures var s' := Expand(s, host);
            forall p | p in s.m :: p in s'.m && s'.m[p] == s.m[p]
  {
    hide Covers, Pg;
    BaseAligned(s.base, s.regions, s.m);
    var s', k := Expand(s, host), s.base / STACK_GROW;
    GrowPage(k);
    GrowPage(k - 1);
    forall p | p in s.m ensures p in s'.m && s'.m[p] == s.m[p] {
      assert !R.Between(Pg(s.base - STACK_GROW), Pg(s.base), p);
      assert !R.InRange(Pg(s.base - STACK_GROW), 0x200, p);
    }
  }

  /** pushq: a push that meets an unmapped page expands the stack first. */
  ghost function Grown(s: Stack, host: nat): Stack
    requires s.rsp >= 8 && s.base >= STACK_GROW
  {
    if Pg(s.rsp - 8) in s.m then s else Expand(s, host)
  }

  ghost predicate CanPush(s: Stack, host: nat) {
    s.rsp >= 8 && s.base >= STACK_GROW && (s.rsp == s.base ==> Below(s.m, s.base) && Fresh(s.regions, host))
  }

  lemma PageBelow(s: Stack)
    requires StackOk(s) && s.rsp >= 8 && s.base >= STACK_GROW
    ensures if s.rsp > s.base then s.rsp - 8 >= s.base
            else R.Between(Pg(s.base - STACK_GROW), Pg(s.base), Pg(s.rsp - 8))
  {
    BaseAligned(s.base, s.regions, s.m);
  }

  lemma GrownIs(s: Stack, host: nat)
    requires StackOk(s) && CanPush(s, host)
    ensures Grown(s, host) == if s.rsp > s.base then s else Expand(s, host)
  {
    hide Covers, R.Overlay, R.Between, Block, Fresh, Pg, Translate;
    PageBelow(s);
    if s.rsp > s.base {
      TranslateIs(s, s.rsp - 8);
    }
  }

  lemma GrownKeeps(s: Stack, host: nat)
    requires StackOk(s) && CanPush(s, host)
    ensures var s' := Grown(s, host);
            && StackOk(s') && Contents(s') == Contents(s) && s'.base <= s.rsp - 8 && s'.mem == s.mem && s'.rsp == s.rsp
            && Pg(s.rsp - 8) in s'.m && forall p | p in s.m :: p in s'.m && s'.m[p] == s.m[p]
  {
    hide Covers, R.Overlay, R.Between, Block, Fresh, Pg, Translate, Grown, Contents, Below;
    GrownIs(s, host);
    PageBelow(s);
    if s.rsp == s.base {
      ExpandKeeps(s, host);
    }
    TranslateIs(Grown(s, host), s.rsp - 8);
  }

  /** VCPU::push */
  ghost function Push(s: Stack, val: nat, host: nat): Stack
    requires s.rsp >= 8 && s.base >= STACK_GROW && Pg(s.rsp - 8) in Grown(s, host).m
  {
    var s1 := Grown(s, host);
    s1.(rsp := s.rsp - 8, mem := H.Store(s1.mem, Translate(s1.m, s.rsp - 8), val))
  }

  /** VCPU::pop: the value and the stack behind it. */
  ghost function Popped(s: Stack): nat
    requires Pg(s.rsp) in s.m
  {
    H.Fetch(s.mem, Translate(s.m, s.rsp))
  }

  ghost function Pop(s: Stack): Stack { s.(rsp := s.rsp + 8) }

  /** x lies outside every region of the stack. */
  ghost predicate Outside(regions: seq<nat>, x: nat) {
    forall j | 0 <= j < |regions| :: x < regions[j] || regions[j] + STACK_GROW <= x
  }

  lemma InsideRegion(s: Stack, addr: nat, x: nat)
    requires Covers(s.base, s.regions, s.m) && s.base <= addr < STACK_BASE && addr % 8 == 0 && Outside(s.regions, x)
    ensures 0 <= Block(addr) < |s.regions| && !H.Within(HostOf(s.regions, addr), 8, x)
  {
    BlockBounds(s.base, |s.regions|, addr);
    WordArith(addr);
  }

  /** The value goes on top of the words, host memory outside the stack's regions stays as it
      is, and pages only appear. */
  lemma PushKeeps(s: Stack, val: nat, host: nat)
    requires StackOk(s) && CanPush(s, host) && val < H.WORDS
    ensures Pg(s.rsp - 8) in Grown(s, host).m
    ensures var s' := Push(s, val, host);
            && StackOk(s') && Contents(s') == [val] + Contents(s)
            && (forall x: nat | Outside(s'.regions, x) :: H.At(s'.mem, x) == H.At(s.mem, x))
            && (forall p | p in s.m :: p in s'.m && s'.m[p] == s.m[p])
  {
    hide Covers, Contents, Word, Grown, Block, H.Store, CanPush, Translate, Outside;
    CanPushRsp(s, host);
    GrownKeeps(s, host);
    var s1, s', a := Grown(s, host), Push(s, val, host), s.rsp - 8;
    forall i | 0 <= i < |Contents(s')| ensures Contents(s')[i] == ([val] + Contents(s))[i] {
      if i > 0 {
        assert Contents(s1)[i - 1] == Word(s1, s.rsp + 8 * (i - 1));
      }
      StoredWord(s1, a, val, a + 8 * i);
    }
    forall x: nat | Outside(s'.regions, x) ensures H.At(s'.mem, x) == H.At(s.mem, x) {
      StoredOutside(s1, a, val, x);
    }
  }

  lemma CanPushRsp(s: Stack, host: nat)
    requires StackOk(s) && CanPush(s, host)
    ensures s.rsp >= 8 && s.base >= STACK_GROW
  {
  }

  lemma StoredWord(s: Stack, a: nat, val: nat, b: nat)
    requires Covers(s.base, s.regions, s.m) && s.base <= a < STACK_BASE && s.base <= b < STACK_BASE && a % 8 == 0
    requires b % 8 == 0
    requires Pg(a) in s.m && val < H.WORDS
    ensures Word(s.(rsp := a, mem := H.Store(s.mem, Translate(s.m, a), val)), b) == if b == a then val else Word(s, b)
  {
    hide Covers, HostOf, H.Fetch, H.Store;
    TranslateIs(s, a);
    TranslateIs(s, b);
    if a != b {
      WordsApart(s, a, b);
    }
    H.StoreFetch(s.mem, HostOf(s.regions, a), val, HostOf(s.regions, b));
  }

  lemma StoredOutside(s: Stack, a: nat, val: nat, x: nat)
    requires Covers(s.base, s.regions, s.m) && s.base <= a < STACK_BASE && a % 8 == 0 && Outside(s.regions, x)
    requires Pg(a) in s.m
    ensures H.At(H.Store(s.mem, Translate(s.m, a), val), x) == H.At(s.mem, x)
  {
    hide Covers, HostOf, Outside;
    TranslateIs(s, a);
    InsideRegion(s, a, x);
    H.PutAt(s.mem, HostOf(s.regions, a), H.Bytes(val, 8), x);
  }

  lemma PopKeeps(s: Stack)
    requires StackOk(s) && s.rsp < STACK_BASE
    ensures Pg(s.rsp) in s.m && StackOk(Pop(s)) && Contents(s) == [Popped(s)] + Contents(Pop(s))
  {
    hide Covers, Contents, HostOf, H.Fetch, Block;
    TranslateIs(s, s.rsp);
    forall i | 0 < i < |Contents(s)| ensures Contents(s)[i] == Contents(Pop(s))[i - 1] {
      assert Pop(s).rsp + 8 * (i - 1) == s.rsp + 8 * i;
    }
  }

  /** Writes outside the stack's regions do not change its words. */
  lemma ContentsStay(s: Stack, mem: H.Memory)
    requires StackOk(s) && forall x: nat :: Outside(s.regions, x) || H.At(mem, x) == H.At(s.mem, x)
    ensures StackOk(s.(mem := mem)) && Contents(s.(mem := mem)) == Contents(s)
  {
    hide Covers, Contents, Word, Outside;
    var s' := s.(mem := mem);
    forall i | 0 <= i < |Contents(s)| ensures Contents(s')[i] == Contents(s)[i] {
      WordAddr(s, i);
      WordStays(s, mem, s.rsp + 8 * i);
    }
  }

  lemma WordAddr(s: Stack, i: nat)
    requires StackOk(s) && i < |Contents(s)|
    ensures s.base <= s.rsp + 8 * i < STACK_BASE && (s.rsp + 8 * i) % 8 == 0
  {
    hide Covers, Contents;
    Multiple(8, s.rsp / 8 + i);
  }

  lemma WordStays(s: Stack, mem: H.Memory, a: nat)
    requires Covers(s.base, s.regions, s.m) && s.base <= a < STACK_BASE && a % 8 == 0
    requires forall x: nat :: Outside(s.regions, x) || H.At(mem, x) == H.At(s.mem, x)
    ensures Word(s.(mem := mem), a) == Word(s, a)
  {
    hide Covers, Outside, HostOf;
    TranslateIs(s, a);
    var h := HostOf(s.regions, a);
    forall x: nat | H.Within(h, 8, x) ensures H.At(mem, x) == H.At(s.mem, x) {
      if Outside(s.regions, x) {
        InsideRegion(s, a, x);
      }
    }
    assert H.Get(mem, h, 8) == H.Get(s.mem, h, 8);
  }

  // ----- runs

  datatype Op = PushOp(val: nat, host: nat) | PopOp

  /** A push that expands needs 2 MiB of unused pages below the stack and a fresh region. */
  ghost predicate Step(s: Stack, op: Op, s': Stack) {
    match op
    case PushOp(val, host) =>
      val < H.WORDS && CanPush(s, host) && Pg(s.rsp - 8) in Grown(s, host).m && s' == Push(s, val, host)
    case PopOp => s.rsp < STACK_BASE && s' == Pop(s)
  }

  /** The list of words that the stack stands for. */
  function AbstractStep(c: seq<nat>, op: Op): seq<nat> {
    match op
    case PushOp(val, _) => [val] + c
    case PopOp => if c == [] then [] else c[1..]
  }

  function AbstractRun(c: seq<nat>, ops: seq<Op>): seq<nat> {
    if ops == [] then c else AbstractStep(AbstractRun(c, ops[..|ops| - 1]), ops[|ops| - 1])
  }

  lemma Sizes(s: Stack)
    requires StackOk(s)
    ensures s.base + 0x20_0000 * |s.regions| == 0x8000_0000_0000 && 8 * |Contents(s)| == 0x8000_0000_0000 - s.rsp
  {
  }

  lemma StepRefines(s: Stack, op: Op, s': Stack)
    requires StackOk(s) && Step(s, op, s')
    ensures StackOk(s') && Contents(s') == AbstractStep(Contents(s), op)
    ensures op.PopOp? ==> Pg(s.rsp) in s.m && Contents(s) == [Popped(s)] + Contents(s')
  {
    hide Covers, Contents, Push, Grown, Word, Popped, CanPush;
    match op
    case PushOp(val, host) => PushKeeps(s, val, host);
    case PopOp => PopKeeps(s);
  }

  ghost predicate Run(states: seq<Stack>, ops: seq<Op>) {
    |states| == |ops| + 1 && forall n | 0 <= n < |ops| :: Step(states[n], ops[n], states[n + 1])
  }

  /** After any run of pushes and pops, across any number of expansions, the stack holds the
      words that the same run leaves of a plain list, and still covers [base, 2^47), in steps of 2 MiB. */
  lemma {:induction false} RunRefines(states: seq<Stack>, ops: seq<Op>, n: nat)
    requires Run(states, ops) && n < |states| && StackOk(states[0])
    ensures StackOk(states[n]) && Contents(states[n]) == AbstractRun(Contents(states[0]), ops[..n])
    ensures states[n].base + 0x20_0000 * |states[n].regions| == 0x8000_0000_0000
    ensures 8 * |Contents(states[n])| == 0x8000_0000_0000 - states[n].rsp
  {
    hide StackOk, Contents, Step;
    if n == 0 {
      assert ops[..0] == [];
    } else {
      RunRefines(states, ops, n - 1);
      assert Step(states[n - 1], ops[n - 1], states[n]);
      StepRefines(states[n - 1], ops[n - 1], states[n]);
      assert ops[..n][..n - 1] == ops[..n - 1];
    }
    Sizes(states[n]);
  }

  // ----- last in, first out

  function Reversed(vals: seq<nat>): seq<nat> {
    if vals == [] then [] else [vals[|vals| - 1]] + Reversed(vals[..|vals| - 1])
  }

  lemma ReversedLast(vals: seq<nat>, k: nat)
    requires k <= |vals|
    ensures Reversed(vals[..k]) == if k == 0 then [] else [vals[k - 1]] + Reversed(vals[..k - 1])
  {
    if k > 0 {
      assert vals[..k][..k - 1] == vals[..k - 1];
    }
  }

  lemma SecondOn(v: nat, r: seq<nat>, c: seq<nat>)
    ensures [v] + r + c == [v] + (r + c) && ([v] + r + c)[1..] == r + c
  {
  }

  /** |vals| pushes and as many pops. */
  ghost predicate InAndOut(states: seq<Stack>, vals: seq<nat>, hosts: seq<nat>) {
    var n := |vals|;
    && |hosts| == n && |states| == 2 * n + 1 && StackOk(states[0])
    && (forall k | 0 <= k < n :: Step(states[k], PushOp(vals[k], hosts[k]), states[k + 1]))
    && (forall k | n <= k < 2 * n :: Step(states[k], PopOp, states[k + 1]))
  }

  lemma {:induction false} AfterPushes(states: seq<Stack>, vals: seq<nat>, hosts: seq<nat>, k: nat)
    requires InAndOut(states, vals, hosts) && k <= |vals|
    ensures StackOk(states[k]) && Contents(states[k]) == Reversed(vals[..k]) + Contents(states[0])
  {
    hide StackOk, Contents, Step, Reversed;
    ReversedLast(vals, k);
    if k > 0 {
      AfterPushes(states, vals, hosts, k - 1);
      StepRefines(states[k - 1], PushOp(vals[k - 1], hosts[k - 1]), states[k]);
      SecondOn(vals[k - 1], Reversed(vals[..k - 1]), Contents(states[0]));
    }
  }

  lemma {:induction false} AfterPops(states: seq<Stack>, vals: seq<nat>, hosts: seq<nat>, k: nat)
    requires InAndOut(states, vals, hosts) && k <= |vals|
    ensures var s := states[|vals| + k];
            StackOk(s) && Contents(s) == Reversed(vals[..|vals| - k]) + Contents(states[0])
  {
    hide StackOk, Contents, Step, Reversed;
    var n := |vals|;
    if k == 0 {
      AfterPushes(states, vals, hosts, n);
    } else {
      AfterPops(states, vals, hosts, k - 1);
      StepRefines(states[n + k - 1], PopOp, states[n + k]);
      ReversedLast(vals, n - k + 1);
      SecondOn(vals[n - k], Reversed(vals[..n - k]), Contents(states[0]));
    }
  }

  lemma PoppedAt(states: seq<Stack>, vals: seq<nat>, hosts: seq<nat>, k: nat)
    requires InAndOut(states, vals, hosts) && |vals| <= k < 2 * |vals|
    ensures Pg(states[k].rsp) in states[k].m && Popped(states[k]) == vals[2 * |vals| - 1 - k]
  {
    hide StackOk, Contents, Step, Popped, Reversed;
    AfterPops(states, vals, hosts, k - |vals|);
    ReversedLast(vals, 2 * |vals| - k);
    StepRefines(states[k], PopOp, states[k + 1]);
    assert Contents(states[k])[0] == Popped(states[k]);
  }

  /** Any number of pushes followed by as many pops gives the values back in reverse, restores
      rsp, and leaves the words above it as they were. */
  lemma LastInFirstOut(states: seq<Stack>, vals: seq<nat>, hosts: seq<nat>)
    requires InAndOut(states, vals, hosts)
    ensures forall k | |vals| <= k < 2 * |vals| ::
              Pg(states[k].rsp) in states[k].m && Popped(states[k]) == vals[2 * |vals| - 1 - k]
    ensures var s := states[2 * |vals|];
            s.rsp == states[0].rsp && StackOk(s) && Contents(s) == Contents(states[0])
  {
    hide StackOk, Contents, Step, Popped, Reversed;
    ReversedLast(vals, 0);
    forall k | |vals| <= k < 2 * |vals|
      ensures Pg(states[k].rsp) in states[k].m && Popped(states[k]) == vals[2 * |vals| - 1 - k]
    {
      PoppedAt(states, vals, hosts, k);
    }
    var s := states[2 * |vals|];
    AfterPops(states, vals, hosts, |vals|);
    assert Contents(s) == Contents(states[0]);
    SameHeight(s, states[0]);
  }

  lemma SameHeight(s: Stack, t: Stack)
    requires StackOk(s) && StackOk(t) && Contents(s) == Contents(t)
    ensures s.rsp == t.rsp
  {
    hide Covers;
    assert |Contents(s)| == (STACK_BASE - s.rsp) / 8 && |Contents(t)| == (STACK_BASE - t.rsp) / 8;
  }
}
