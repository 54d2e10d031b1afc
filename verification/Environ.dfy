/** The initial process stack: strings go into one region from its top down, and the words that
    the System V AMD64 ABI asks for (section 3.4.1) onto the user stack. */
module Environ {
  import opened PageArith
  import opened PageEntry
  import C = Chunks
  import P = Pager
  import A = Allocator
  import R = PagerRanges
  import H = HostMemory
  import M = Mappings
  import S = StackRuns
  import opened RegionManagers
  import opened Lookups
  import opened Stacks

  type Str = seq<H.Byte>

  /** An auxiliary vector entry; str is the string at its value if it is read as a pointer. */
  datatype Auxv = Auxv(kind: nat, value: nat, str: Str)

  const AT_SYSINFO_EHDR: nat := 33

  /** AT_NULL, IGNORE, EXECFD, PHDR, PHENT, PHNUM, PAGESZ, BASE, FLAGS, ENTRY, NOTELF, UID,
      EUID, GID, EGID, HWCAP, CLKTCK and SECURE */
  predicate TreatAsInt(kind: nat) { kind in {0, 1, 2, 3, 4, 5, 6, 7, 8, 9, 10, 11, 12, 13, 14, 16, 17, 23} }

  predicate Ignored(kind: nat) { kind == AT_SYSINFO_EHDR }

  // ----- memory

  ghost predicate Clean(mem: H.Memory, lo: nat, hi: nat) { forall x: nat | lo <= x < hi :: H.At(mem, x) == 0 }

  ghost predicate Same(mem: H.Memory, mem': H.Memory, lo: nat, hi: nat) {
    forall x: nat | lo <= x < hi :: H.At(mem', x) == H.At(mem, x)
  }

  /** A string lies at p, with its NUL, in [lo, hi). */
  ghost predicate Placed(mem: H.Memory, lo: nat, hi: nat, p: nat, str: Str) {
    lo <= p && p + |str| < hi && H.StringAt(mem, p, str)
  }

  lemma SameTrans(mem: H.Memory, mem1: H.Memory, mem2: H.Memory, lo: nat, lo1: nat, hi: nat)
    requires Same(mem, mem1, lo, hi) && Same(mem1, mem2, lo1, hi) && lo1 <= lo
    ensures Same(mem, mem2, lo, hi)
  {
  }

  lemma SameFrom(mem: H.Memory, mem': H.Memory, lo: nat, lo': nat, hi: nat)
    requires Same(mem, mem', lo, hi) && lo <= lo'
    ensures Same(mem, mem', lo', hi)
  {
  }

  lemma PlacedStays(mem: H.Memory, mem': H.Memory, lo: nat, lo': nat, hi: nat, p: nat, str: Str)
    requires Placed(mem, lo, hi, p, str) && Same(mem, mem', lo, hi) && lo' <= lo
    ensures Placed(mem', lo', hi, p, str)
  {
    H.StringStays(mem, mem', p, str);
  }

  /** A string written below clean memory is NUL-terminated by it. */
  lemma WrittenString(mem: H.Memory, lo: nat, hi: nat, str: Str)
    requires Clean(mem, lo, hi) && lo + |str| + 1 <= hi
    ensures var p := hi - |str| - 1;
            var mem' := H.Put(mem, p, str);
            && Placed(mem', p, hi, p, str) && Clean(mem', lo, p)
            && forall x: nat | x < lo || hi <= x :: H.At(mem', x) == H.At(mem, x)
  {
    var p := hi - |str| - 1;
    forall x: nat ensures H.At(H.Put(mem, p, str), x) == if H.Within(p, |str|, x) then str[x - p] else H.At(mem, x) {
      H.PutAt(mem, p, str, x);
    }
  }

  /** write_str leaves a C string if and only if the byte behind its text was zero before. */
  lemma TerminatedIffZero(mem: H.Memory, p: nat, str: Str)
    ensures H.StringAt(H.Put(mem, p, str), p, str) <==> H.At(mem, p + |str|) == 0
  {
    forall x: nat ensures H.At(H.Put(mem, p, str), x) == if H.Within(p, |str|, x) then str[x - p] else H.At(mem, x) {
      H.PutAt(mem, p, str, x);
    }
  }

  // ----- guest memory

  /** Guest addresses from lo to hi are mapped to the same host addresses, to be read and written. */
  ghost predicate Identity(m: P.PageMap, lo: nat, hi: nat) {
    forall g: nat | lo <= g < hi ::
      M.Pg(g) in m && m[M.Pg(g)].write && !m[M.Pg(g)].exec && S.Translate(m, g) == g
  }

  ghost predicate Extends(m: P.PageMap, m': P.PageMap) { forall p | p in m :: p in m' && m'[p] == m[p] }

  lemma IdentityStays(m: P.PageMap, m': P.PageMap, lo: nat, hi: nat)
    requires Identity(m, lo, hi) && Extends(m, m')
    ensures Identity(m', lo, hi)
  {
    hide M.Pg;
  }

  /** The guest reads the string, with its NUL, at address p, and may write there. */
  ghost predicate GuestString(m: P.PageMap, mem: H.Memory, p: nat, str: Str) {
    forall i: nat | i <= |str| ::
      && M.Pg(p + i) in m && m[M.Pg(p + i)].write && !m[M.Pg(p + i)].exec
      && H.At(mem, S.Translate(m, p + i)) == if i < |str| then str[i] else 0
  }

  /** The guest finds every string at its pointer. */
  ghost predicate GuestPointers(m: P.PageMap, mem: H.Memory, ptrs: seq<nat>, strs: seq<Str>) {
    |ptrs| == |strs| && forall i | 0 <= i < |ptrs| :: GuestString(m, mem, ptrs[i], strs[i])
  }

  ghost predicate GuestPair(m: P.PageMap, mem: H.Memory, kind: nat, value: nat, a: Auxv) {
    kind == a.kind && if TreatAsInt(a.kind) then value == a.value else GuestString(m, mem, value, a.str)
  }

  ghost predicate GuestPairs(m: P.PageMap, mem: H.Memory, words: seq<nat>, kept: seq<Auxv>) {
    |words| == 2 * |kept| && forall i | 0 <= i < |kept| :: GuestPair(m, mem, words[2 * i], words[2 * i + 1], kept[i])
  }

  lemma PlacedSeen(m: P.PageMap, mem: H.Memory, lo: nat, hi: nat, p: nat, str: Str)
    requires Identity(m, lo, hi) && Placed(mem, lo, hi, p, str)
    ensures GuestString(m, mem, p, str)
  {
    hide M.Pg, S.Translate;
    forall i: nat | i <= |str|
      ensures M.Pg(p + i) in m && m[M.Pg(p + i)].write && !m[M.Pg(p + i)].exec
      ensures H.At(mem, S.Translate(m, p + i)) == if i < |str| then str[i] else 0
    {
      assert lo <= p + i < hi;
    }
  }

  lemma PointersSeen(m: P.PageMap, mem: H.Memory, base: nat, lo: nat, hi: nat, ptrs: seq<nat>, strs: seq<Str>)
    requires Identity(m, base, hi) && base <= lo && Pointers(mem, lo, hi, ptrs, strs)
    ensures GuestPointers(m, mem, ptrs, strs)
  {
    hide M.Pg, Identity, H.StringAt, GuestString;
    forall i | 0 <= i < |ptrs| ensures GuestString(m, mem, ptrs[i], strs[i]) {
      assert Placed(mem, lo, hi, ptrs[i], strs[i]);
      PlacedSeen(m, mem, base, hi, ptrs[i], strs[i]);
    }
  }

  lemma PairsSeen(m: P.PageMap, mem: H.Memory, base: nat, lo: nat, hi: nat, words: seq<nat>, kept: seq<Auxv>)
    requires Identity(m, base, hi) && base <= lo && Pairs(mem, lo, hi, words, kept)
    ensures GuestPairs(m, mem, words, kept)
  {
    hide M.Pg, Identity, H.StringAt, GuestString, TreatAsInt;
    forall i | 0 <= i < |kept| ensures GuestPair(m, mem, words[2 * i], words[2 * i + 1], kept[i]) {
      assert Pair(mem, lo, hi, words[2 * i], words[2 * i + 1], kept[i]);
      if !TreatAsInt(kept[i].kind) {
        PlacedSeen(m, mem, base, hi, words[2 * i + 1], kept[i].str);
      }
    }
  }

  // ----- what the words mean

  ghost predicate Pointers(mem: H.Memory, lo: nat, hi: nat, ptrs: seq<nat>, strs: seq<Str>) {
    |ptrs| == |strs| && forall i | 0 <= i < |ptrs| :: Placed(mem, lo, hi, ptrs[i], strs[i])
  }

  /** Strings stay where they are while others are written below them. */
  lemma PointersStay(mem: H.Memory, mem': H.Memory, lo: nat, lo': nat, hi: nat, ptrs: seq<nat>, strs: seq<Str>)
    requires Pointers(mem, lo, hi, ptrs, strs) && Same(mem, mem', lo, hi) && lo' <= lo
    ensures Pointers(mem', lo', hi, ptrs, strs)
  {
    forall i | 0 <= i < |ptrs| ensures Placed(mem', lo', hi, ptrs[i], strs[i]) {
      PlacedStays(mem, mem', lo, lo', hi, ptrs[i], strs[i]);
    }
  }

  /** The bytes that the strings take, each with its NUL. */
  function Size(strs: seq<Str>): nat {
    if strs == [] then 0 else Size(strs[..|strs| - 1]) + |strs[|strs| - 1]| + 1
  }

  lemma SizeLast(strs: seq<Str>, i: nat)
    requires i < |strs|
    ensures Size(strs[..i + 1]) == Size(strs[..i]) + |strs[i]| + 1
  {
    assert strs[..i + 1][..i] == strs[..i];
  }

  lemma Assoc(a: seq<nat>, b: seq<nat>, c: seq<nat>)
    ensures a + b + c == a + (b + c)
  {
  }

  lemma AssocAll(a: seq<nat>, z: seq<nat>, e: seq<nat>, z': seq<nat>, w: seq<nat>, c: seq<nat>)
    ensures a + z + e + z' + w + c == a + (z + e + z' + w + c)
  {
  }

  // ----- the auxiliary vector

  /** The entries that are passed on. */
  function Kept(auxv: seq<Auxv>): seq<Auxv> {
    if auxv == [] then [] else if Ignored(auxv[0].kind) then Kept(auxv[1..]) else [auxv[0]] + Kept(auxv[1..])
  }

  /** Pairs of type and value, the values of string entries pointing to copies. */
  ghost predicate Pairs(mem: H.Memory, lo: nat, hi: nat, words: seq<nat>, kept: seq<Auxv>) {
    |words| == 2 * |kept| && forall i | 0 <= i < |kept| :: Pair(mem, lo, hi, words[2 * i], words[2 * i + 1], kept[i])
  }

  ghost predicate Pair(mem: H.Memory, lo: nat, hi: nat, kind: nat, value: nat, a: Auxv) {
    kind == a.kind && if TreatAsInt(a.kind) then value == a.value else Placed(mem, lo, hi, value, a.str)
  }

  lemma PairStays(mem: H.Memory, mem': H.Memory, lo: nat, lo': nat, hi: nat, kind: nat, value: nat, a: Auxv)
    requires Pair(mem, lo, hi, kind, value, a) && Same(mem, mem', lo, hi) && lo' <= lo
    ensures Pair(mem', lo', hi, kind, value, a)
  {
    hide Placed, Same, TreatAsInt;
    if !TreatAsInt(a.kind) {
      PlacedStays(mem, mem', lo, lo', hi, value, a.str);
    }
  }

  lemma PairsStay(mem: H.Memory, mem': H.Memory, lo: nat, lo': nat, hi: nat, words: seq<nat>, kept: seq<Auxv>)
    requires Pairs(mem, lo, hi, words, kept) && Same(mem, mem', lo, hi) && lo' <= lo
    ensures Pairs(mem', lo', hi, words, kept)
  {
    hide Pair, Same;
    forall i | 0 <= i < |kept| ensures Pair(mem', lo', hi, words[2 * i], words[2 * i + 1], kept[i]) {
      assert Pair(mem, lo, hi, words[2 * i], words[2 * i + 1], kept[i]);
      PairStays(mem, mem', lo, lo', hi, words[2 * i], words[2 * i + 1], kept[i]);
    }
  }

  lemma PairsMore(mem: H.Memory, lo: nat, hi: nat, words: seq<nat>, kept: seq<Auxv>, value: nat, a: Auxv)
    requires Pairs(mem, lo, hi, words, kept) && Pair(mem, lo, hi, a.kind, value, a)
    ensures Pairs(mem, lo, hi, [a.kind, value] + words, [a] + kept)
  {
    hide Pair;
    var words', kept' := [a.kind, value] + words, [a] + kept;
    forall i | 0 <= i < |kept'| ensures Pair(mem, lo, hi, words'[2 * i], words'[2 * i + 1], kept'[i]) {
      if i > 0 {
        assert words'[2 * i] == words[2 * (i - 1)] && words'[2 * i + 1] == words[2 * (i - 1) + 1]
               && kept'[i] == kept[i - 1];
      }
    }
  }

  /** The bytes that the copied strings take. */
  function AuxSize(auxv: seq<Auxv>): nat {
    if auxv == [] then 0 else
      var a := auxv[|auxv| - 1];
      AuxSize(auxv[..|auxv| - 1]) + if Ignored(a.kind) || TreatAsInt(a.kind) then 0 else |a.str| + 1
  }

  ghost predicate AuxFits(auxv: seq<Auxv>) {
    forall i | 0 <= i < |auxv| :: auxv[i].kind < H.WORDS && auxv[i].value < H.WORDS
  }

  /** What the binary says of itself; valid if it is dynamic. */
  datatype ElfAuxv = ElfAuxv(valid: bool, phdr: nat, phent: nat, phnum: nat, entry: nat, base: nat)

  /** AT_PHDR, PHENT, PHNUM, BASE and ENTRY */
  const DYNAMIC_TYPES: set<nat> := {3, 4, 5, 7, 9}

  function DynamicValue(kind: nat, e: ElfAuxv): nat
    requires kind in DYNAMIC_TYPES
  {
    match kind
    case 3 => e.phdr
    case 4 => e.phent
    case 5 => e.phnum
    case 7 => e.base
    case 9 => e.entry
  }

  function FixedEntry(a: Auxv, e: ElfAuxv): Auxv {
    if a.kind in DYNAMIC_TYPES then a.(value := DynamicValue(a.kind, e)) else a
  }

  /** The vector that is pushed: a dynamic binary's own values take the place of the inherited ones. */
  function Effective(auxv: seq<Auxv>, e: ElfAuxv): (r: seq<Auxv>)
    ensures |r| == |auxv| && forall i | 0 <= i < |r| :: r[i] == if e.valid then FixedEntry(auxv[i], e) else auxv[i]
  {
    if e.valid then seq(|auxv|, i requires 0 <= i < |auxv| => FixedEntry(auxv[i], e)) else auxv
  }

  ghost predicate HasKind(auxv: seq<Auxv>, kind: nat) { exists i :: 0 <= i < |auxv| && auxv[i].kind == kind }

  /** Every value of the binary has a place. */
  ghost predicate Complete(auxv: seq<Auxv>) {
    HasKind(auxv, 3) && HasKind(auxv, 4) && HasKind(auxv, 5) && HasKind(auxv, 7) && HasKind(auxv, 9)
  }

  predicate BinaryFits(e: ElfAuxv) {
    e.phdr < H.WORDS && e.phent < H.WORDS && e.phnum < H.WORDS && e.entry < H.WORDS && e.base < H.WORDS
  }

  // ----- the auxiliary vector as the guest's C library reads it

  /** The types whose value is a number; the value of any other type points to a string. */
  predicate Number(kind: nat) { kind <= 14 || kind == 16 || kind == 17 || kind == 23 }

  /** The value for an entry: the program headers, the loader and the entry point of a dynamic binary, else the
      number or string that was inherited. */
  ghost predicate AbiValue(m: P.PageMap, mem: H.Memory, a: Auxv, e: ElfAuxv, value: nat) {
    if e.valid && a.kind == 3 then value == e.phdr
    else if e.valid && a.kind == 4 then value == e.phent
    else if e.valid && a.kind == 5 then value == e.phnum
    else if e.valid && a.kind == 7 then value == e.base
    else if e.valid && a.kind == 9 then value == e.entry
    else if Number(a.kind) then value == a.value
    else GuestString(m, mem, value, a.str)
  }

  /** The words are pairs of type and value, in the order of the entries. Type 33, the vDSO of the host, is not
      passed on. */
  ghost predicate AbiWords(m: P.PageMap, mem: H.Memory, words: seq<nat>, auxv: seq<Auxv>, e: ElfAuxv) {
    if auxv == [] then words == []
    else if auxv[0].kind == 33 then AbiWords(m, mem, words, auxv[1..], e)
    else
      && |words| >= 2 && words[0] == auxv[0].kind && AbiValue(m, mem, auxv[0], e, words[1])
      && AbiWords(m, mem, words[2..], auxv[1..], e)
  }

  /** The same on host memory, before any value is replaced. */
  ghost predicate RawWords(mem: H.Memory, lo: nat, hi: nat, words: seq<nat>, auxv: seq<Auxv>) {
    if auxv == [] then words == []
    else if auxv[0].kind == 33 then RawWords(mem, lo, hi, words, auxv[1..])
    else
      && |words| >= 2 && words[0] == auxv[0].kind
      && (if Number(auxv[0].kind) then words[1] == auxv[0].value else Placed(mem, lo, hi, words[1], auxv[0].str))
      && RawWords(mem, lo, hi, words[2..], auxv[1..])
  }

  /** The kept entries of the vector that is pushed, in the C library's terms. */
  lemma {:induction false} PairsAreAbi(m: P.PageMap, mem: H.Memory, words: seq<nat>, auxv: seq<Auxv>, e: ElfAuxv)
    requires GuestPairs(m, mem, words, Kept(Effective(auxv, e)))
    ensures AbiWords(m, mem, words, auxv, e)
  {
    if auxv != [] {
      hide GuestString;
      var l, rest := Effective(auxv, e), Effective(auxv[1..], e);
      assert l[1..] == rest;
      if auxv[0].kind == 33 {
        PairsAreAbi(m, mem, words, auxv[1..], e);
      } else {
        assert GuestPair(m, mem, words[0], words[1], Kept(l)[0]);
        forall i | 0 <= i < |Kept(rest)|
          ensures GuestPair(m, mem, words[2..][2 * i], words[2..][2 * i + 1], Kept(rest)[i])
        {
          assert GuestPair(m, mem, words[2 * (i + 1)], words[2 * (i + 1) + 1], Kept(l)[i + 1]);
        }
        PairsAreAbi(m, mem, words[2..], auxv[1..], e);
      }
    }
  }

  lemma {:induction false} PairsAreRaw(mem: H.Memory, lo: nat, hi: nat, words: seq<nat>, auxv: seq<Auxv>)
    requires Pairs(mem, lo, hi, words, Kept(auxv))
    ensures RawWords(mem, lo, hi, words, auxv)
  {
    if auxv != [] {
      hide Placed;
      if auxv[0].kind == 33 {
        PairsAreRaw(mem, lo, hi, words, auxv[1..]);
      } else {
        assert Pair(mem, lo, hi, words[0], words[1], Kept(auxv)[0]);
        forall i | 0 <= i < |Kept(auxv[1..])|
          ensures Pair(mem, lo, hi, words[2..][2 * i], words[2..][2 * i + 1], Kept(auxv[1..])[i])
        {
          assert Pair(mem, lo, hi, words[2 * (i + 1)], words[2 * (i + 1) + 1], Kept(auxv)[i + 1]);
        }
        PairsAreRaw(mem, lo, hi, words[2..], auxv[1..]);
      }
    }
  }

  lemma EffectiveFits(auxv: seq<Auxv>, e: ElfAuxv)
    requires AuxFits(auxv) && BinaryFits(e)
    ensures AuxFits(Effective(auxv, e)) && AuxSize(Effective(auxv, e)) == AuxSize(auxv)
  {
    hide AuxSize, Effective;
    SizeSame(auxv, Effective(auxv, e));
  }

  lemma {:induction false} SizeSame(l: seq<Auxv>, l': seq<Auxv>)
    requires |l| == |l'| && forall i | 0 <= i < |l| :: l'[i].kind == l[i].kind && l'[i].str == l[i].str
    ensures AuxSize(l') == AuxSize(l)
  {
    if l != [] {
      SizeSame(l[..|l| - 1], l'[..|l| - 1]);
    }
  }

  lemma AuxSizeLast(auxv: seq<Auxv>, i: nat)
    requires i < |auxv|
    ensures AuxSize(auxv[..i + 1]) ==
            AuxSize(auxv[..i]) + if Ignored(auxv[i].kind) || TreatAsInt(auxv[i].kind) then 0 else |auxv[i].str| + 1
  {
    assert auxv[..i + 1][..i] == auxv[..i];
  }

  class EnvRegion {
    const rm: RegionManager
    const ram: H.Ram
    const region: nat
    var offset: nat

    ghost predicate Valid()
      reads this, rm
    {
      region in rm.used && region < |rm.regions| && rm.regions[region].addr == rm.regions[region].host
          && offset <= rm.regions[region].size
    }

    ghost function Base(): nat
      requires Valid()
      reads this, rm
    {
      rm.regions[region].host
    }

    ghost function Top(): nat
      requires Valid()
      reads this, rm
    {
      rm.regions[region].host + rm.regions[region].size
    }

    constructor (rm: RegionManager, ram: H.Ram, region: nat)
      requires rm.Valid() && region in rm.used && region < |rm.regions|
      modifies rm`regions
      ensures Valid() && rm.Valid() && this.rm == rm && this.ram == ram && this.region == region
      ensures offset == rm.regions[region].size
      ensures rm.regions == old(rm.regions)[region := old(rm.regions)[region].(addr := old(rm.regions)[region].host)]
    {
      hide P.Inv, A.Inv;
      this.rm, this.ram, this.region := rm, ram, region;
      offset := rm.regions[region].size;
      new;
      rm.SetGuestAddr(region, rm.regions[region].host);
    }

    /** write_str: it reserves a byte for the NUL and does not write it. */
    method WriteStr(str: Str) returns (p: nat)
      requires Valid() && offset > |str| + 1
      modifies this`offset, ram
      ensures Valid() && offset == old(offset) - |str| - 1 && p == Base() + offset
      ensures ram.bytes == H.Put(old(ram.bytes), p, str)
    {
      var noff := offset - |str| - 1;
      ram.Copy(rm.regions[region].host + noff, str);
      offset := noff;
      p := rm.regions[region].addr + noff;
    }
  }

  /** What a loop started from. */
  datatype Mark = Mark(mem: H.Memory, base: nat, top: nat, offset: nat, rsp: nat, contents: seq<nat>)

  class Environment {
    const region: EnvRegion
    const vcpu: VCPU
    const argv: seq<Str>
    const env: seq<Str>
    const binary: ElfAuxv
    var auxv: seq<Auxv>

    constructor (region: EnvRegion, vcpu: VCPU, argv: seq<Str>, env: seq<Str>, auxv: seq<Auxv>, binary: ElfAuxv)
      ensures this.region == region && this.vcpu == vcpu && this.argv == argv && this.env == env && this.auxv == auxv
      ensures this.binary == binary
    {
      this.region, this.vcpu, this.argv, this.env, this.auxv, this.binary := region, vcpu, argv, env, auxv, binary;
    }

    /** The region is in use and none of the stack's, it is mapped at its host address, and it is
        zero below the offset. */
    ghost predicate Ready(freed: set<nat>, limit: nat)
      reads this, region, vcpu, vcpu.stack, vcpu.stack.rm, vcpu.stack.rm.pager, vcpu.stack.rm.pager.tlb, vcpu.stack.ram
    {
      && region.rm == vcpu.stack.rm && region.ram == vcpu.stack.ram && vcpu.Valid(freed, limit) && region.Valid()
      && region.region !in vcpu.stack.stackRegions && region.Top() <= H.WORDS
      && Identity(vcpu.stack.rm.pager.Pages(), region.Base(), region.Top())
      && Clean(region.ram.bytes, region.Base(), region.Base() + region.offset)
    }

    /** No byte of the region belongs to the stack. */
    lemma Outside(x: nat)
      requires vcpu.stack.rm.Valid() && vcpu.stack.Held() && region.rm == vcpu.stack.rm && region.Valid()
      requires region.region !in vcpu.stack.stackRegions && region.Base() <= x < region.Top()
      ensures S.Outside(vcpu.stack.Hosts(), x)
    {
      hide P.Inv, A.Inv;
      var hosts, handles := vcpu.stack.Hosts(), vcpu.stack.stackRegions;
      forall j | 0 <= j < |hosts| ensures x < hosts[j] || hosts[j] + S.STACK_GROW <= x {
        RegionManager.RegionsApart(region.rm.View(), region.region, handles[j]);
      }
    }

    /** A push on the stack, as the region sees it. */
    method PushWord(val: nat, ghost freed: set<nat>, ghost limit: nat)
      requires Ready(freed, limit) && val < H.WORDS && limit + 8 <= vcpu.rsp
      modifies vcpu, vcpu.stack, vcpu.stack.rm, vcpu.stack.rm.pager, vcpu.stack.rm.pager.tlb, vcpu.stack.ram
      ensures Ready(freed, limit) && region.Base() == old(region.Base()) && region.Top() == old(region.Top())
      ensures vcpu.Contents() == [val] + old(vcpu.Contents()) && vcpu.rsp == old(vcpu.rsp) - 8
      ensures Same(old(region.ram.bytes), region.ram.bytes, region.Base(), region.Top())
    {
      hide P.Inv, P.Pages, P.TlbOk, A.Inv, S.StackOk, S.Contents, S.Outside, Room, Identity, R.Need;
      ghost var m := vcpu.stack.rm.pager.Pages();
      vcpu.Push(val, freed, limit);
      IdentityStays(m, vcpu.stack.rm.pager.Pages(), region.Base(), region.Top());
      forall x: nat | region.Base() <= x < region.Top()
        ensures H.At(region.ram.bytes, x) == H.At(old(region.ram.bytes), x)
      {
        Outside(x);
      }
    }

    /** write_str, as the stack sees it. */
    method WriteStr(str: Str, ghost freed: set<nat>, ghost limit: nat) returns (p: nat)
      requires Ready(freed, limit) && region.offset > |str| + 1
      modifies region, vcpu.stack.ram
      ensures Ready(freed, limit) && region.Base() == old(region.Base()) && region.Top() == old(region.Top())
      ensures vcpu.Contents() == old(vcpu.Contents()) && vcpu.rsp == old(vcpu.rsp) && p < H.WORDS
      ensures region.offset == old(region.offset) - |str| - 1
      ensures Placed(region.ram.bytes, region.Base() + region.offset, region.Top(), p, str)
      ensures Same(old(region.ram.bytes), region.ram.bytes, region.Base() + old(region.offset), region.Top())
    {
      hide P.Inv, P.Pages, P.TlbOk, A.Inv, S.StackOk, S.Contents, S.Outside, Room, S.Covers, Identity, R.Need,
           H.StringAt;
      ghost var mem, base, top, off := region.ram.bytes, region.Base(), region.Top(), region.offset;
      ghost var s := vcpu.stack.View(vcpu.rsp);
      WrittenString(mem, base, base + off, str);
      p := region.WriteStr(str);
      forall x: nat ensures S.Outside(s.regions, x) || H.At(region.ram.bytes, x) == H.At(mem, x) {
        if base <= x < base + off {
          Outside(x);
        }
      }
      S.ContentsStay(s, region.ram.bytes);
    }

    /** push_str_copy */
    method PushStrCopy(str: Str, ghost freed: set<nat>, ghost limit: nat) returns (ghost p: nat)
      requires Ready(freed, limit) && region.offset > |str| + 1 && limit + 8 <= vcpu.rsp
      modifies region, vcpu, vcpu.stack, vcpu.stack.rm, vcpu.stack.rm.pager, vcpu.stack.rm.pager.tlb, vcpu.stack.ram
      ensures Ready(freed, limit) && region.Base() == old(region.Base()) && region.Top() == old(region.Top())
      ensures region.offset == old(region.offset) - |str| - 1 && vcpu.rsp == old(vcpu.rsp) - 8
      ensures vcpu.Contents() == [p] + old(vcpu.Contents())
      ensures Placed(region.ram.bytes, region.Base() + region.offset, region.Top(), p, str)
      ensures Same(old(region.ram.bytes), region.ram.bytes, region.Base() + old(region.offset), region.Top())
    {
      hide P.Inv, P.Pages, P.TlbOk, A.Inv, S.StackOk, S.Contents, Room, S.Covers, Identity, R.Need, H.StringAt;
      ghost var mem, base, top, off := region.ram.bytes, region.Base(), region.Top(), region.offset;
      var q := WriteStr(str, freed, limit);
      p := q;
      ghost var mem1 := region.ram.bytes;
      PushWord(q, freed, limit);
      PlacedStays(mem1, region.ram.bytes, base + region.offset, base + region.offset, top, q, str);
    }

    /** The reverse loop of push_env and push_argv. */
    method PushStrings(strs: seq<Str>, ghost freed: set<nat>, ghost limit: nat) returns (ghost ptrs: seq<nat>)
      requires Ready(freed, limit) && region.offset > Size(strs) && limit + 8 * |strs| <= vcpu.rsp
      modifies region, vcpu, vcpu.stack, vcpu.stack.rm, vcpu.stack.rm.pager, vcpu.stack.rm.pager.tlb, vcpu.stack.ram
      ensures Ready(freed, limit) && region.Base() == old(region.Base()) && region.Top() == old(region.Top())
      ensures region.offset == old(region.offset) - Size(strs) && vcpu.rsp == old(vcpu.rsp) - 8 * |strs|
      ensures vcpu.Contents() == ptrs + old(vcpu.Contents())
      ensures Pointers(region.ram.bytes, region.Base() + region.offset, region.Top(), ptrs, strs)
      ensures Same(old(region.ram.bytes), region.ram.bytes, region.Base() + old(region.offset), region.Top())
    {
      hide P.Inv, P.Pages, P.TlbOk, A.Inv, S.StackOk, S.Contents, Room, S.Covers, Identity, R.Need, Size, Pointers,
           Same, Clean, Pushing;
      ghost var at := Mark(region.ram.bytes, region.Base(), region.Top(), region.offset, vcpu.rsp, vcpu.Contents());
      var i := |strs|;
      ptrs := [];
      Started(strs, freed, limit, at);
      while i > 0
        invariant 0 <= i <= |strs| && Pushing(strs, i, ptrs, freed, limit, at)
      {
        i := i - 1;
        ptrs := PushNext(strs, i, ptrs, freed, limit, at);
      }
      Finished(strs, ptrs, freed, limit, at);
    }

    /** strs[i..] are on the stack since the mark was taken, and there is room for the others. */
    ghost predicate Pushing(strs: seq<Str>, i: nat, ptrs: seq<nat>, freed: set<nat>, limit: nat, at: Mark)
      reads this, region, vcpu, vcpu.stack, vcpu.stack.rm, vcpu.stack.rm.pager, vcpu.stack.rm.pager.tlb, vcpu.stack.ram
    {
      && i <= |strs| && Ready(freed, limit) && region.Base() == at.base && region.Top() == at.top
      && at.offset > Size(strs) && region.offset == at.offset - Size(strs) + Size(strs[..i]) <= at.offset
      && limit + 8 * |strs| <= at.rsp && vcpu.rsp == at.rsp - 8 * (|strs| - i) && vcpu.Contents() == ptrs + at.contents
      && Pointers(region.ram.bytes, at.base + region.offset, at.top, ptrs, strs[i..])
      && Same(at.mem, region.ram.bytes, at.base + at.offset, at.top)
    }

    /** One round of the loop. */
    method PushNext(strs: seq<Str>, i: nat, ghost ptrs: seq<nat>, ghost freed: set<nat>, ghost limit: nat,
                    ghost at: Mark)
      returns (ghost ptrs': seq<nat>)
      requires i < |strs| && Pushing(strs, i + 1, ptrs, freed, limit, at)
      modifies region, vcpu, vcpu.stack, vcpu.stack.rm, vcpu.stack.rm.pager, vcpu.stack.rm.pager.tlb, vcpu.stack.ram
      ensures Pushing(strs, i, ptrs', freed, limit, at)
    {
      hide P.Inv, P.Pages, P.TlbOk, A.Inv, S.StackOk, S.Contents, Room, S.Covers, Identity, R.Need, Size, Pointers,
           Placed, Clean;
      SizeLast(strs, i);
      ghost var mem, off := region.ram.bytes, region.offset;
      ghost var p := PushStrCopy(strs[i], freed, limit);
      PointersStay(mem, region.ram.bytes, at.base + off, at.base + region.offset, at.top, ptrs, strs[i + 1..]);
      PointersMore(region.ram.bytes, at.base + region.offset, at.top, ptrs, strs, i, p);
      ptrs' := [p] + ptrs;
      Assoc([p], ptrs, at.contents);
    }

    lemma InBounds(freed: set<nat>, limit: nat)
      requires Ready(freed, limit)
      ensures region.rm == vcpu.stack.rm && region.ram == vcpu.stack.ram && region.Valid() && vcpu.Valid(freed, limit)
    {
    }

    lemma Started(strs: seq<Str>, freed: set<nat>, limit: nat, at: Mark)
      requires Ready(freed, limit) && region.offset > Size(strs) && limit + 8 * |strs| <= vcpu.rsp
      requires at == Mark(region.ram.bytes, region.Base(), region.Top(), region.offset, vcpu.rsp, vcpu.Contents())
      ensures Pushing(strs, |strs|, [], freed, limit, at)
    {
      hide P.Inv, P.Pages, P.TlbOk, A.Inv, S.StackOk, S.Contents, Room, S.Covers, Identity, R.Need, Size, Pointers,
           Clean, Same, Ready;
      NoPointers(at.mem, at.base + at.offset, at.top, strs);
      assert [] + at.contents == at.contents;
      InBounds(freed, limit);
    }

    lemma Finished(strs: seq<Str>, ptrs: seq<nat>, freed: set<nat>, limit: nat, at: Mark)
      requires Pushing(strs, 0, ptrs, freed, limit, at)
      ensures Ready(freed, limit) && region.Base() == at.base && region.Top() == at.top
      ensures region.offset == at.offset - Size(strs) && vcpu.rsp == at.rsp - 8 * |strs|
      ensures vcpu.Contents() == ptrs + at.contents
      ensures Pointers(region.ram.bytes, at.base + region.offset, at.top, ptrs, strs)
      ensures Same(at.mem, region.ram.bytes, at.base + at.offset, at.top)
    {
      hide P.Inv, P.Pages, P.TlbOk, A.Inv, S.StackOk, S.Contents, Room, S.Covers, Identity, R.Need, Size, Pointers,
           Clean, Same;
      SizeNone(strs);
    }

    static lemma NoPointers(mem: H.Memory, lo: nat, hi: nat, strs: seq<Str>)
      ensures Pointers(mem, lo, hi, [], strs[|strs|..]) && strs[..|strs|] == strs && Same(mem, mem, lo, hi)
    {
    }

    static lemma SizeNone(strs: seq<Str>)
      ensures Size(strs[..0]) == 0 && strs[0..] == strs
    {
    }

    static lemma PointersMore(mem: H.Memory, lo: nat, hi: nat, ptrs: seq<nat>, strs: seq<Str>, i: nat, p: nat)
      requires i < |strs| && Pointers(mem, lo, hi, ptrs, strs[i + 1..]) && Placed(mem, lo, hi, p, strs[i])
      ensures Pointers(mem, lo, hi, [p] + ptrs, strs[i..])
    {
      hide Placed;
      assert strs[i..] == [strs[i]] + strs[i + 1..];
    }

    // ----- the auxiliary vector

    /** The push of a value, or of a pointer to a copy of its string. */
    method PushValue(a: Auxv, ghost freed: set<nat>, ghost limit: nat) returns (ghost value: nat)
      requires Ready(freed, limit) && a.value < H.WORDS && limit + 8 <= vcpu.rsp
      requires !TreatAsInt(a.kind) ==> region.offset > |a.str| + 1
      modifies region, vcpu, vcpu.stack, vcpu.stack.rm, vcpu.stack.rm.pager, vcpu.stack.rm.pager.tlb, vcpu.stack.ram
      ensures Ready(freed, limit) && region.Base() == old(region.Base()) && region.Top() == old(region.Top())
      ensures region.offset == old(region.offset) - (if TreatAsInt(a.kind) then 0 else |a.str| + 1)
      ensures vcpu.rsp == old(vcpu.rsp) - 8
      ensures vcpu.Contents() == [value] + old(vcpu.Contents())
      ensures Pair(region.ram.bytes, region.Base() + region.offset, region.Top(), a.kind, value, a)
      ensures Same(old(region.ram.bytes), region.ram.bytes, region.Base() + old(region.offset), region.Top())
    {
      hide P.Inv, P.Pages, P.TlbOk, A.Inv, S.StackOk, S.Contents, Room, S.Covers, Identity, R.Need, Placed, Clean, Same,
           TreatAsInt;
      ghost var mem := region.ram.bytes;
      if TreatAsInt(a.kind) {
        PushWord(a.value, freed, limit);
        value := a.value;
        SameFrom(mem, region.ram.bytes, region.Base(), region.Base() + region.offset, region.Top());
      } else {
        value := PushStrCopy(a.str, freed, limit);
      }
    }

    /** The pushes for one entry: the value and then the type. */
    method PushPair(a: Auxv, ghost freed: set<nat>, ghost limit: nat) returns (ghost value: nat)
      requires Ready(freed, limit) && a.kind < H.WORDS && a.value < H.WORDS && limit + 16 <= vcpu.rsp
      requires !TreatAsInt(a.kind) ==> region.offset > |a.str| + 1
      modifies region, vcpu, vcpu.stack, vcpu.stack.rm, vcpu.stack.rm.pager, vcpu.stack.rm.pager.tlb, vcpu.stack.ram
      ensures Ready(freed, limit) && region.Base() == old(region.Base()) && region.Top() == old(region.Top())
      ensures region.offset == old(region.offset) - (if TreatAsInt(a.kind) then 0 else |a.str| + 1)
      ensures vcpu.rsp == old(vcpu.rsp) - 16
      ensures vcpu.Contents() == [a.kind, value] + old(vcpu.Contents())
      ensures Pair(region.ram.bytes, region.Base() + region.offset, region.Top(), a.kind, value, a)
      ensures Same(old(region.ram.bytes), region.ram.bytes, region.Base() + old(region.offset), region.Top())
    {
      hide P.Inv, P.Pages, P.TlbOk, A.Inv, S.StackOk, S.Contents, Room, S.Covers, Identity, R.Need, Pair, Clean, Same,
           TreatAsInt;
      ghost var c, mem0, off := vcpu.Contents(), region.ram.bytes, region.offset;
      value := PushValue(a, freed, limit);
      ghost var mem, lo := region.ram.bytes, region.Base() + region.offset;
      PushWord(a.kind, freed, limit);
      assert [a.kind] + [value] == [a.kind, value];
      Assoc([a.kind], [value], c);
      SameTrans(mem0, mem, region.ram.bytes, region.Base() + off, region.Base(), region.Top());
      SameFrom(mem, region.ram.bytes, region.Base(), lo, region.Top());
      PairStays(mem, region.ram.bytes, lo, lo, region.Top(), a.kind, value, a);
    }

    ghost predicate AuxReady(freed: set<nat>, limit: nat)
      reads this, region, vcpu, vcpu.stack, vcpu.stack.rm, vcpu.stack.rm.pager, vcpu.stack.rm.pager.tlb, vcpu.stack.ram
    {
      && Ready(freed, limit) && region.offset > AuxSize(auxv) && limit + 16 * |auxv| <= vcpu.rsp
      && AuxFits(auxv)
    }

    /** The pairs of auxv[i..] are on the stack since the mark was taken. */
    ghost predicate PushingAux(i: nat, words: seq<nat>, freed: set<nat>, limit: nat, at: Mark)
      reads this, region, vcpu, vcpu.stack, vcpu.stack.rm, vcpu.stack.rm.pager, vcpu.stack.rm.pager.tlb, vcpu.stack.ram
    {
      && i <= |auxv| && Ready(freed, limit) && region.Base() == at.base && region.Top() == at.top
      && at.offset > AuxSize(auxv) && region.offset == at.offset - AuxSize(auxv) + AuxSize(auxv[..i]) <= at.offset
      && limit + 16 * |auxv| <= at.rsp && vcpu.rsp >= at.rsp - 16 * (|auxv| - i)
      && vcpu.Contents() == words + at.contents
      && Pairs(region.ram.bytes, at.base + region.offset, at.top, words, Kept(auxv[i..]))
      && Same(at.mem, region.ram.bytes, at.base + at.offset, at.top)
      && AuxFits(auxv)
    }

    /** push_auxv_raw */
    method PushAuxvRaw(ghost freed: set<nat>, ghost limit: nat) returns (ghost words: seq<nat>)
      requires AuxReady(freed, limit)
      modifies region, vcpu, vcpu.stack, vcpu.stack.rm, vcpu.stack.rm.pager, vcpu.stack.rm.pager.tlb, vcpu.stack.ram
      ensures Ready(freed, limit) && region.Base() == old(region.Base()) && region.Top() == old(region.Top())
      ensures region.offset == old(region.offset) - AuxSize(auxv) && vcpu.rsp >= old(vcpu.rsp) - 16 * |auxv|
      ensures vcpu.Contents() == words + old(vcpu.Contents())
      ensures Pairs(region.ram.bytes, region.Base() + region.offset, region.Top(), words, Kept(auxv))
      ensures RawWords(region.ram.bytes, region.Base() + region.offset, region.Top(), words, auxv)
    {
      hide P.Inv, P.Pages, P.TlbOk, A.Inv, S.StackOk, S.Contents, Room, S.Covers, Identity, R.Need, AuxSize, Pairs,
           Kept, Clean, Same, PushingAux, RawWords;
      ghost var at := Mark(region.ram.bytes, region.Base(), region.Top(), region.offset, vcpu.rsp, vcpu.Contents());
      var i := |auxv|;
      words := [];
      AuxStarted(freed, limit, at);
      while i > 0
        invariant 0 <= i <= |auxv| && PushingAux(i, words, freed, limit, at)
      {
        i := i - 1;
        words := PushAuxNext(i, words, freed, limit, at);
      }
      AuxFinished(words, freed, limit, at);
      PairsAreRaw(region.ram.bytes, at.base + region.offset, at.top, words, auxv);
    }

    method PushAuxNext(i: nat, ghost words: seq<nat>, ghost freed: set<nat>, ghost limit: nat, ghost at: Mark)
      returns (ghost words': seq<nat>)
      requires i < |auxv| && PushingAux(i + 1, words, freed, limit, at)
      modifies region, vcpu, vcpu.stack, vcpu.stack.rm, vcpu.stack.rm.pager, vcpu.stack.rm.pager.tlb, vcpu.stack.ram
      ensures PushingAux(i, words', freed, limit, at)
    {
      hide P.Inv, P.Pages, P.TlbOk, A.Inv, S.StackOk, S.Contents, Room, S.Covers, Identity, R.Need, AuxSize, Pairs,
           Pair, Kept, Clean, TreatAsInt, Ignored;
      AuxSizeLast(auxv, i);
      KeptFirst(i);
      words' := words;
      if !Ignored(auxv[i].kind) {
        ghost var mem, off := region.ram.bytes, region.offset;
        ghost var value := PushPair(auxv[i], freed, limit);
        PairsStay(mem, region.ram.bytes, at.base + off, at.base + region.offset, at.top, words, Kept(auxv[i + 1..]));
        PairsMore(region.ram.bytes, at.base + region.offset, at.top, words, Kept(auxv[i + 1..]), value, auxv[i]);
        words' := [auxv[i].kind, value] + words;
        Assoc([auxv[i].kind, value], words, at.contents);
      }
    }

    lemma KeptFirst(i: nat)
      requires i < |auxv|
      ensures Kept(auxv[i..]) == if Ignored(auxv[i].kind) then Kept(auxv[i + 1..]) else [auxv[i]] + Kept(auxv[i + 1..])
    {
      assert auxv[i..][1..] == auxv[i + 1..];
    }

    lemma AuxStarted(freed: set<nat>, limit: nat, at: Mark)
      requires AuxReady(freed, limit)
      requires at == Mark(region.ram.bytes, region.Base(), region.Top(), region.offset, vcpu.rsp, vcpu.Contents())
      ensures PushingAux(|auxv|, [], freed, limit, at)
    {
      hide P.Inv, P.Pages, P.TlbOk, A.Inv, S.StackOk, S.Contents, Room, S.Covers, Identity, R.Need, AuxSize, Clean,
           Same, Ready;
      assert auxv[..|auxv|] == auxv && auxv[|auxv|..] == [];
      NoPointers(at.mem, at.base + at.offset, at.top, []);
      assert [] + at.contents == at.contents;
      InBounds(freed, limit);
    }

    lemma AuxFinished(words: seq<nat>, freed: set<nat>, limit: nat, at: Mark)
      requires PushingAux(0, words, freed, limit, at)
      ensures Ready(freed, limit) && region.Base() == at.base && region.Top() == at.top
      ensures region.offset == at.offset - AuxSize(auxv) && vcpu.rsp >= at.rsp - 16 * |auxv|
      ensures vcpu.Contents() == words + at.contents
      ensures Pairs(region.ram.bytes, at.base + region.offset, at.top, words, Kept(auxv))
    {
      hide P.Inv, P.Pages, P.TlbOk, A.Inv, S.StackOk, S.Contents, Room, S.Covers, Identity, R.Need, Pairs, Clean, Same;
      assert auxv[..0] == [] && auxv[0..] == auxv;
    }

    /** fix_auxv_dynamic_values; complete is what the assert behind the loop asks for. */
    method FixAuxvDynamicValues() returns (complete: bool)
      requires binary.valid
      modifies this`auxv
      ensures auxv == Effective(old(auxv), binary) && (complete <==> Complete(old(auxv)))
    {
      hide Effective;
      var i, allSet := 0, {};
      while i < |auxv|
        invariant 0 <= i <= |auxv| && |auxv| == |old(auxv)| && allSet <= DYNAMIC_TYPES
        invariant forall j | 0 <= j < i :: auxv[j] == FixedEntry(old(auxv)[j], binary)
        invariant forall j | i <= j < |auxv| :: auxv[j] == old(auxv)[j]
        invariant forall k | k in DYNAMIC_TYPES :: k in allSet <==> HasKind(old(auxv)[..i], k)
      {
        SeenKinds(old(auxv), i);
        if auxv[i].kind in DYNAMIC_TYPES {
          allSet := allSet + {auxv[i].kind};
          auxv := auxv[i := auxv[i].(value := DynamicValue(auxv[i].kind, binary))];
        }
        i := i + 1;
      }
      assert old(auxv)[..i] == old(auxv);
      complete := allSet == DYNAMIC_TYPES;
    }

    static lemma SeenKinds(l: seq<Auxv>, i: nat)
      requires i < |l|
      ensures forall k :: HasKind(l[..i + 1], k) <==> HasKind(l[..i], k) || l[i].kind == k
    {
      forall k ensures HasKind(l[..i + 1], k) <==> HasKind(l[..i], k) || l[i].kind == k {
        assert l[..i + 1][i] == l[i];
        if HasKind(l[..i], k) {
          var j :| 0 <= j < |l[..i]| && l[..i][j].kind == k;
          assert l[..i + 1][j].kind == k;
        }
        if HasKind(l[..i + 1], k) {
          var j :| 0 <= j < |l[..i + 1]| && l[..i + 1][j].kind == k;
          assert j < i ==> l[..i][j].kind == k;
        }
      }
    }

    /** The values of a dynamic binary fit and, as the code asserts, have their places. */
    ghost predicate BinaryReady()
      reads this
    {
      BinaryFits(binary) && (binary.valid ==> Complete(auxv))
    }

    /** push_auxv: no AT_NULL pair, just one zero above the environment. */
    method PushAuxv(ghost freed: set<nat>, ghost limit: nat) returns (ghost words: seq<nat>)
      requires AuxReady(freed, limit) && BinaryReady() && limit + 16 * |auxv| + 8 <= vcpu.rsp
      modifies this`auxv
      modifies region, vcpu, vcpu.stack, vcpu.stack.rm, vcpu.stack.rm.pager, vcpu.stack.rm.pager.tlb, vcpu.stack.ram
      ensures Ready(freed, limit) && region.Base() == old(region.Base()) && region.Top() == old(region.Top())
      ensures auxv == Effective(old(auxv), binary) && |auxv| == |old(auxv)| && AuxSize(auxv) == AuxSize(old(auxv))
      ensures region.offset == old(region.offset) - AuxSize(auxv) && vcpu.rsp >= old(vcpu.rsp) - 16 * |auxv| - 8
      ensures vcpu.Contents() == [0] + words + old(vcpu.Contents())
      ensures Pairs(region.ram.bytes, region.Base() + region.offset, region.Top(), words, Kept(auxv))
    {
      hide P.Inv, P.Pages, P.TlbOk, A.Inv, S.StackOk, S.Contents, Room, S.Covers, Identity, R.Need, AuxSize, Pairs,
           Kept, Clean, Same, AuxFits, Complete;
      ghost var c := vcpu.Contents();
      EffectiveFits(auxv, binary);
      if binary.valid {
        var complete := FixAuxvDynamicValues();
        assert complete;
      }
      words := PushAuxvRaw(freed, limit);
      ghost var mem, lo := region.ram.bytes, region.Base() + region.offset;
      PushWord(0, freed, limit);
      Assoc([0], words, c);
      SameFrom(mem, region.ram.bytes, region.Base(), lo, region.Top());
      PairsStay(mem, region.ram.bytes, lo, lo, region.Top(), words, Kept(auxv));
    }

    /** push_env */
    method PushEnv(ghost freed: set<nat>, ghost limit: nat) returns (ghost ptrs: seq<nat>)
      requires Ready(freed, limit) && region.offset > Size(env) && limit + 8 * |env| + 8 <= vcpu.rsp
      modifies region, vcpu, vcpu.stack, vcpu.stack.rm, vcpu.stack.rm.pager, vcpu.stack.rm.pager.tlb, vcpu.stack.ram
      ensures Ready(freed, limit) && region.Base() == old(region.Base()) && region.Top() == old(region.Top())
      ensures region.offset == old(region.offset) - Size(env) && vcpu.rsp == old(vcpu.rsp) - 8 * |env| - 8
      ensures vcpu.Contents() == [0] + ptrs + old(vcpu.Contents())
      ensures Pointers(region.ram.bytes, region.Base() + region.offset, region.Top(), ptrs, env)
      ensures Same(old(region.ram.bytes), region.ram.bytes, region.Base() + old(region.offset), region.Top())
    {
      hide P.Inv, P.Pages, P.TlbOk, A.Inv, S.StackOk, S.Contents, Room, S.Covers, Identity, R.Need, Size, Pointers,
           Clean, Same;
      ghost var c, mem0, off := vcpu.Contents(), region.ram.bytes, region.offset;
      ptrs := PushStrings(env, freed, limit);
      ghost var mem, lo := region.ram.bytes, region.Base() + region.offset;
      PushWord(0, freed, limit);
      Assoc([0], ptrs, c);
      SameTrans(mem0, mem, region.ram.bytes, region.Base() + off, region.Base(), region.Top());
      SameFrom(mem, region.ram.bytes, region.Base(), lo, region.Top());
      PointersStay(mem, region.ram.bytes, lo, lo, region.Top(), ptrs, env);
    }

    /** push_argv and push_argc */
    method PushArgs(ghost freed: set<nat>, ghost limit: nat) returns (ghost ptrs: seq<nat>)
      requires Ready(freed, limit) && region.offset > Size(argv) && limit + 8 * |argv| + 8 <= vcpu.rsp
      requires |argv| < H.WORDS
      modifies region, vcpu, vcpu.stack, vcpu.stack.rm, vcpu.stack.rm.pager, vcpu.stack.rm.pager.tlb, vcpu.stack.ram
      ensures Ready(freed, limit) && region.Base() == old(region.Base()) && region.Top() == old(region.Top())
              && region.offset <= old(region.offset)
      ensures vcpu.Contents() == [|argv|] + ptrs + old(vcpu.Contents())
      ensures Pointers(region.ram.bytes, region.Base() + region.offset, region.Top(), ptrs, argv)
      ensures Same(old(region.ram.bytes), region.ram.bytes, region.Base() + old(region.offset), region.Top())
    {
      hide P.Inv, P.Pages, P.TlbOk, A.Inv, S.StackOk, S.Contents, Room, S.Covers, Identity, R.Need, Size, Pointers,
           Clean, Same;
      ghost var c, mem0, off := vcpu.Contents(), region.ram.bytes, region.offset;
      ptrs := PushStrings(argv, freed, limit);
      ghost var mem, lo := region.ram.bytes, region.Base() + region.offset;
      PushWord(|argv|, freed, limit);
      Assoc([|argv|], ptrs, c);
      SameTrans(mem0, mem, region.ram.bytes, region.Base() + off, region.Base(), region.Top());
      SameFrom(mem, region.ram.bytes, region.Base(), lo, region.Top());
      PointersStay(mem, region.ram.bytes, lo, lo, region.Top(), ptrs, argv);
    }

    /** push_auxv and push_env */
    method PushBelow(ghost freed: set<nat>, ghost limit: nat) returns (ghost envs: seq<nat>, ghost words: seq<nat>)
      requires AuxReady(freed, limit) && BinaryReady() && region.offset > AuxSize(auxv) + Size(env)
      requires limit + 16 * |auxv| + 8 * |env| + 16 <= vcpu.rsp
      modifies this`auxv
      modifies region, vcpu, vcpu.stack, vcpu.stack.rm, vcpu.stack.rm.pager, vcpu.stack.rm.pager.tlb, vcpu.stack.ram
      ensures Ready(freed, limit) && region.Base() == old(region.Base()) && region.Top() == old(region.Top())
      ensures auxv == Effective(old(auxv), binary) && |auxv| == |old(auxv)| && AuxSize(auxv) == AuxSize(old(auxv))
      ensures region.offset == old(region.offset) - AuxSize(auxv) - Size(env)
              && vcpu.rsp >= old(vcpu.rsp) - 16 * |auxv| - 8 * |env| - 16
      ensures vcpu.Contents() == [0] + envs + [0] + words + old(vcpu.Contents())
      ensures Pointers(region.ram.bytes, region.Base() + region.offset, region.Top(), envs, env)
      ensures Pairs(region.ram.bytes, region.Base() + region.offset, region.Top(), words, Kept(auxv))
    {
      hide P.Inv, P.Pages, P.TlbOk, A.Inv, S.StackOk, S.Contents, Room, S.Covers, Identity, R.Need, Size, AuxSize,
           Pointers, Pairs, Kept, Clean, Same, AuxFits, BinaryReady, Effective;
      ghost var c := vcpu.Contents();
      words := PushAuxv(freed, limit);
      ghost var mem, lo := region.ram.bytes, region.Base() + region.offset;
      envs := PushEnv(freed, limit);
      PairsStay(mem, region.ram.bytes, lo, region.Base() + region.offset, region.Top(), words, Kept(auxv));
      Assoc([0] + envs, [0], words);
      Assoc([0] + envs, [0] + words, c);
    }

    /** create: read upward from the final rsp, the stack holds argc, the argv pointers, a zero, the
        environment pointers, a zero and the auxiliary pairs, all in order, and every pointer
        leads to its whole string. */
    method Create(ghost freed: set<nat>, ghost limit: nat)
      returns (ghost argvs: seq<nat>, ghost envs: seq<nat>, ghost words: seq<nat>)
      requires AuxReady(freed, limit) && BinaryReady() && region.offset > AuxSize(auxv) + Size(env) + Size(argv)
      requires |argv| < H.WORDS
      requires limit + 16 * |auxv| + 8 * |env| + 8 * |argv| + 24 <= vcpu.rsp
      modifies this`auxv
      modifies region, vcpu, vcpu.stack, vcpu.stack.rm, vcpu.stack.rm.pager, vcpu.stack.rm.pager.tlb, vcpu.stack.ram
      ensures Ready(freed, limit) && region.Base() == old(region.Base()) && region.Top() == old(region.Top())
      ensures auxv == Effective(old(auxv), binary)
      ensures vcpu.Contents() == [|argv|] + argvs + [0] + envs + [0] + words + old(vcpu.Contents())
      ensures Pointers(region.ram.bytes, region.Base() + region.offset, region.Top(), argvs, argv)
      ensures Pointers(region.ram.bytes, region.Base() + region.offset, region.Top(), envs, env)
      ensures Pairs(region.ram.bytes, region.Base() + region.offset, region.Top(), words, Kept(auxv))
      ensures var m := vcpu.stack.rm.pager.Pages();
              && GuestPointers(m, region.ram.bytes, argvs, argv) && GuestPointers(m, region.ram.bytes, envs, env)
              && GuestPairs(m, region.ram.bytes, words, Kept(auxv))
              && AbiWords(m, region.ram.bytes, words, old(auxv), binary)
    {
      hide P.Inv, P.Pages, P.TlbOk, A.Inv, S.StackOk, S.Contents, Room, S.Covers, Identity, R.Need, Size, AuxSize,
           Pointers, Pairs, Kept, Clean, Same, GuestPointers, GuestPairs, BinaryReady, Effective, AbiWords;
      ghost var c := vcpu.Contents();
      envs, words := PushBelow(freed, limit);
      ghost var mem, lo := region.ram.bytes, region.Base() + region.offset;
      argvs := PushArgs(freed, limit);
      PairsStay(mem, region.ram.bytes, lo, region.Base() + region.offset, region.Top(), words, Kept(auxv));
      PointersStay(mem, region.ram.bytes, lo, region.Base() + region.offset, region.Top(), envs, env);
      AssocAll([|argv|] + argvs, [0], envs, [0], words, c);
      Seen(argvs, envs, words, freed, limit);
      PairsAreAbi(vcpu.stack.rm.pager.Pages(), region.ram.bytes, words, old(auxv), binary);
    }

    /** What lies in the region is what the guest reads. */
    lemma Seen(argvs: seq<nat>, envs: seq<nat>, words: seq<nat>, freed: set<nat>, limit: nat)
      requires Ready(freed, limit)
      requires Pointers(region.ram.bytes, region.Base() + region.offset, region.Top(), argvs, argv)
      requires Pointers(region.ram.bytes, region.Base() + region.offset, region.Top(), envs, env)
      requires Pairs(region.ram.bytes, region.Base() + region.offset, region.Top(), words, Kept(auxv))
      ensures var m := vcpu.stack.rm.pager.Pages();
              && GuestPointers(m, region.ram.bytes, argvs, argv) && GuestPointers(m, region.ram.bytes, envs, env)
              && GuestPairs(m, region.ram.bytes, words, Kept(auxv))
    {
      hide P.Inv, P.Pages, P.TlbOk, A.Inv, S.StackOk, S.Contents, Room, S.Covers, Identity, R.Need, Pointers, Pairs,
           Kept, Clean, GuestPointers, GuestPairs;
      var m, mem, base, hi := vcpu.stack.rm.pager.Pages(), region.ram.bytes, region.Base(), region.Top();
      var lo := base + region.offset;
      PointersSeen(m, mem, base, lo, hi, argvs, argv);
      PointersSeen(m, mem, base, lo, hi, envs, env);
      PairsSeen(m, mem, base, lo, hi, words, Kept(auxv));
    }
  }

  // ----- setting up

  const ENV_PAGES: nat := 12

  /** The host range at t may become the environment's: its pages are free, below what the stack
      may take and in blocks with room for their tables, and its bytes are zero. */
  ghost predicate EnvPlace(m: P.PageMap, mem: H.Memory, blocks: set<nat>, limit: nat, t: nat) {
    && t + 0x1000 * ENV_PAGES <= limit && R.Touched(M.Pg(t), ENV_PAGES) <= blocks
    && R.Range(M.Pg(t), ENV_PAGES) !! m.Keys
    && Clean(mem, t, t + 0x1000 * ENV_PAGES)
  }

  /** What allocate_region must come up with. */
  ghost predicate CanSetup(a: A.Alloc, m: P.PageMap, mem: H.Memory, blocks: set<nat>, limit: nat, host: nat) {
    && |a.freelists| == A.N_FREELISTS
    && (A.FindList(a, 0x1000 * ENV_PAGES) == A.N_FREELISTS ==>
          C.FreshRange(a.chunks, host, A.GrowSize(0x1000 * ENV_PAGES)))
    && forall r | A.GrantsAt(a, 0x1000 * ENV_PAGES, host, r) ::
         r.h < |r.s.regions| && EnvPlace(m, mem, blocks, limit, r.s.regions[r.h].host)
  }

  lemma IdentityMapped(m: P.PageMap, t: nat, opts: Opts)
    requires t % 0x1000 == 0 && opts.write && !opts.exec
    ensures Identity(R.Overlay(m, M.Pg(t), t, ENV_PAGES, opts), t, t + 0x1000 * ENV_PAGES)
  {
    var m' := R.Overlay(m, M.Pg(t), t, ENV_PAGES, opts);
    forall g: nat | t <= g < t + 0x1000 * ENV_PAGES
      ensures M.Pg(g) in m' && m'[M.Pg(g)].write && !m'[M.Pg(g)].exec && S.Translate(m', g) == g
    {
      assert R.InRange(M.Pg(t), ENV_PAGES, M.Pg(g));
    }
  }

  /** A page map that only grows, and not into the stack's pages, keeps the stack. */
  lemma StackStays(s: S.Stack, m': P.PageMap, blocks: set<nat>, freed: set<nat>, limit: nat)
    requires S.StackOk(s) && Room(s.m, blocks, s.base, freed, limit) && Extends(s.m, m')
    requires forall p: nat | p in m' && p !in s.m :: p < M.Pg(limit)
    ensures S.StackOk(s.(m := m')) && Room(m', blocks, s.base, freed, limit) && S.Contents(s.(m := m')) == S.Contents(s)
  {
    hide M.Pg, R.Touched;
    var s' := s.(m := m');
    forall p: nat | R.Between(M.Pg(s.base), M.Pg(S.STACK_BASE), p) ensures p in m' && m'[p] == s.m[p] {
      assert p in s.m;
    }
    assert S.Covers(s.base, s.regions, m');
    assert forall i | 0 <= i < |S.Contents(s)| :: S.Contents(s')[i] == S.Contents(s)[i];
  }

  /** The range below the limit, seen from the stack. */
  lemma MappedBelow(m: P.PageMap, mem: H.Memory, blocks: set<nat>, limit: nat, t: nat, opts: Opts)
    requires EnvPlace(m, mem, blocks, limit, t) && t % 0x1000 == 0
    ensures var m' := R.Overlay(m, M.Pg(t), t, ENV_PAGES, opts);
            && R.RangeOk(m, M.Pg(t), t, ENV_PAGES) && Extends(m, m')
            && forall p: nat | p in m' && p !in m :: p < M.Pg(limit)
  {
    forall p: nat | R.InRange(M.Pg(t), ENV_PAGES, p) ensures p !in m && p < M.Pg(limit) {
      assert p in R.Range(M.Pg(t), ENV_PAGES);
    }
  }

  /** The region h is new and fit to become the environment's. */
  ghost predicate EnvRegionReady(stack: Stack, h: nat, limit: nat)
    reads stack, stack.rm, stack.rm.pager, stack.rm.pager.tlb, stack.ram
  {
    && h in stack.rm.used && h !in stack.stackRegions && h < |stack.rm.regions| && |stack.rm.pager.chunks| > 0
    && !RegionManager.IsPool(stack.rm.regions[h], stack.rm.pager.chunks[0]) && limit <= S.STACK_BASE
    && stack.rm.regions[h].size == 0xC000
    && EnvPlace(stack.rm.pager.Pages(), stack.ram.bytes, stack.blocks, limit, stack.rm.regions[h].host)
  }

  /** allocate_region for the environment. */
  method AllocateEnv(vcpu: VCPU, host: nat, ghost freed: set<nat>, ghost limit: nat) returns (h: nat)
    requires vcpu.Valid(freed, limit)
    requires CanSetup(vcpu.stack.rm.View(), vcpu.stack.rm.pager.Pages(), vcpu.stack.ram.bytes, vcpu.stack.blocks,
                      limit, host)
    modifies vcpu.stack.rm, vcpu.stack.rm.pager
    ensures vcpu.Valid(freed, limit) && vcpu.stack.View(vcpu.rsp) == old(vcpu.stack.View(vcpu.rsp))
    ensures EnvRegionReady(vcpu.stack, h, limit)
  {
    hide P.Inv, P.Pages, P.TlbOk, A.Inv, A.FindList, A.Grants, A.GrowSize, C.FreshRange, R.Need, EnvPlace, Room,
         S.Covers;
    var rm := vcpu.stack.rm;
    ghost var s, st, m := vcpu.stack.View(vcpu.rsp), rm.pager.S(), rm.pager.Pages();
    ghost var c;
    h, c := rm.Allocate(0x1000 * ENV_PAGES, host);
    assert A.GrantsAt(old(rm.View()), 0x1000 * ENV_PAGES, host, A.Allocated(rm.View(), h));
    Stack.RoomBounds(m, vcpu.stack.blocks, s.base, freed, limit);
    CacheStays(st, rm.pager.S(), freed);
    assert vcpu.stack.Hosts() == s.regions;
  }

  /** set_guest_addr and map_region for the environment. */
  method MapEnv(vcpu: VCPU, h: nat, ghost freed: set<nat>, ghost limit: nat) returns (region: EnvRegion)
    requires vcpu.Valid(freed, limit) && EnvRegionReady(vcpu.stack, h, limit)
    modifies vcpu.stack.rm, vcpu.stack.rm.pager
    ensures vcpu.Valid(freed, limit) && vcpu.Contents() == old(vcpu.Contents()) && vcpu.rsp == old(vcpu.rsp)
    ensures fresh(region) && region.rm == vcpu.stack.rm && region.ram == vcpu.stack.ram && region.Valid()
    ensures region.region !in vcpu.stack.stackRegions && region.Top() <= H.WORDS && region.offset == 0xC000
    ensures vcpu.stack.rm.pager.Pages() ==
            R.Overlay(old(vcpu.stack.rm.pager.Pages()), M.Pg(region.Base()), region.Base(), 12, Opts(true, false))
    ensures Identity(vcpu.stack.rm.pager.Pages(), region.Base(), region.Top())
    ensures Clean(region.ram.bytes, region.Base(), region.Base() + region.offset)
  {
    hide P.Inv, P.Pages, P.TlbOk, A.Inv, R.Overlay, R.Range, R.RangeOk, R.Need, R.Touched, M.Pg, Vpn, Room, S.Covers,
         S.Contents, Identity, Clean, PageBegin, Extends, PagesizeAlign;
    var rm := vcpu.stack.rm;
    ghost var s, st, m := vcpu.stack.View(vcpu.rsp), rm.pager.S(), rm.pager.Pages();
    ghost var t := rm.regions[h].host;
    EnvFacts(rm.View(), h, m, s.mem, vcpu.stack.blocks, limit);
    rm.RegionMappable(h, ENV_PAGES);
    region := new EnvRegion(rm, vcpu.stack.ram, h);
    MappedBelow(m, s.mem, vcpu.stack.blocks, limit, t, Opts(true, false));
    var err := rm.pager.MapRegion(rm.regions[h].host, rm.regions[h].addr, ENV_PAGES, Opts(true, false),
                                  vcpu.stack.blocks);
    StackStays(s, rm.pager.Pages(), vcpu.stack.blocks, freed, limit);
    IdentityMapped(m, t, Opts(true, false));
    ExtendsHosts(m, rm.pager.Pages());
    CacheStays(st, rm.pager.S(), freed);
    assert vcpu.stack.Hosts() == s.regions;
  }

  lemma ExtendsHosts(m: P.PageMap, m': P.PageMap)
    requires Extends(m, m')
    ensures forall p | p in m :: p in m' && m'[p].host == m[p].host
  {
  }

  lemma EnvFacts(a: A.Alloc, h: nat, m: P.PageMap, mem: H.Memory, blocks: set<nat>, limit: nat)
    requires A.Inv(a) && h < |a.regions| && a.regions[h].size == 0xC000
    requires EnvPlace(m, mem, blocks, limit, a.regions[h].host) && limit <= S.STACK_BASE
    ensures var t := a.regions[h].host;
            && t > 0 && t % 0x1000 == 0 && PageBegin(t) == t && a.regions[h].size == 0x1000 * ENV_PAGES
            && Vpn(t) == M.Pg(t) && Vpn(t) + ENV_PAGES <= 0x10_0000_0000 && t + 0x1000 * ENV_PAGES <= H.WORDS
  {
    RegionManager.RegionAligned(a, h);
  }

  /** create_and_setup_environment: everything that the words on the new stack point to is there
      for the guest to read. */
  method SetupEnvironment(vcpu: VCPU, argv: seq<Str>, env: seq<Str>, auxv: seq<Auxv>, binary: ElfAuxv, host: nat,
                          ghost freed: set<nat>, ghost limit: nat)
    returns (ghost argvs: seq<nat>, ghost envs: seq<nat>, ghost words: seq<nat>)
    requires vcpu.Valid(freed, limit) && AuxFits(auxv) && |argv| < H.WORDS
    requires BinaryFits(binary) && (binary.valid ==> Complete(auxv))
    requires CanSetup(vcpu.stack.rm.View(), vcpu.stack.rm.pager.Pages(), vcpu.stack.ram.bytes, vcpu.stack.blocks,
                      limit, host)
    requires AuxSize(auxv) + Size(env) + Size(argv) < 0xC000
    requires limit + 16 * |auxv| + 8 * |env| + 8 * |argv| + 24 <= vcpu.rsp
    modifies vcpu, vcpu.stack, vcpu.stack.rm, vcpu.stack.rm.pager, vcpu.stack.rm.pager.tlb, vcpu.stack.ram
    ensures vcpu.Valid(freed, limit)
    ensures vcpu.Contents() == [|argv|] + argvs + [0] + envs + [0] + words + old(vcpu.Contents())
    ensures var m, mem := vcpu.stack.rm.pager.Pages(), vcpu.stack.ram.bytes;
            && GuestPointers(m, mem, argvs, argv) && GuestPointers(m, mem, envs, env)
            && GuestPairs(m, mem, words, Kept(Effective(auxv, binary))) && AbiWords(m, mem, words, auxv, binary)
  {
    hide P.Inv, P.Pages, P.TlbOk, A.Inv, Room, S.StackOk, S.Covers, S.Contents, Identity, Clean, CanSetup, Size,
         AuxSize, R.Need, GuestPointers, GuestPairs, Pointers, Pairs, Kept, AuxFits, Complete, Effective, AbiWords;
    var h := AllocateEnv(vcpu, host, freed, limit);
    var region := MapEnv(vcpu, h, freed, limit);
    var e := new Environment(region, vcpu, argv, env, auxv, binary);
    argvs, envs, words := e.Create(freed, limit);
  }
}
