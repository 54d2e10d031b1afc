/** Mappings and the two mapping lists on values (src/mapping.cc, src/heap.cc). Page tables
    appear as the page map that the pager implements. */
module Mappings {
  import opened PageArith
  import opened PageEntry
  import P = Pager
  import A = Allocator
  import R = PagerRanges

  datatype Prot = Prot(read: bool, write: bool, exec: bool)

  datatype Mapping = Mapping(host: nat, addr: nat, length: nat, pages: nat, prot: Prot,
                             anon: bool, fd: int, offset: int, region: nat)

  /** The lists hold mappings by value; a reference to one is its list and position. */
  datatype Ref = InBrk(i: nat) | InMmap(i: nat)

  datatype Heap = Heap(brk: seq<Mapping>, mmap: seq<Mapping>, curbrk: nat, a: A.Alloc, m: P.PageMap)

  /** Page number of a user address. */
  function Pg(addr: nat): nat { addr / 0x1000 }

  function OptsOf(x: Mapping): Opts { Opts(x.prot.write, x.prot.exec) }

  predicate Contains(x: Mapping, addr: nat) { x.addr <= addr < x.addr + x.length }

  /** Mapping::fits_address */
  predicate Fits(a: A.Alloc, x: Mapping, addr: nat)
    requires x.region < |a.regions|
  {
    a.regions[x.region].addr <= addr < a.regions[x.region].addr + a.regions[x.region].size
  }

  /** operator== on mappings; it looks at neither the region nor the read permission. */
  predicate Same(x: Mapping, y: Mapping) {
    && x.host == y.host && x.addr == y.addr && x.length == y.length && x.pages == y.pages
    && x.anon == y.anon && x.prot.write == y.prot.write && x.prot.exec == y.prot.exec
    && x.fd == y.fd && x.offset == y.offset
  }

  /** std::find; -1 if there is none. */
  function FindSame(l: seq<Mapping>, x: Mapping): (k: int)
    ensures -1 <= k < |l|
    ensures k >= 0 ==> Same(l[k], x)
    ensures forall i | 0 <= i < (if k < 0 then |l| else k) :: !Same(l[i], x)
  {
    if |l| == 0 then -1
    else if Same(l[0], x) then 0
    else
      var k := FindSame(l[1..], x);
      if k < 0 then -1 else k + 1
  }

  function Erase(l: seq<Mapping>, k: nat): seq<Mapping>
    requires k < |l|
  {
    l[..k] + l[k + 1..]
  }

  predicate Valid(s: Heap, ref: Ref) {
    match ref
    case InBrk(i) => i < |s.brk|
    case InMmap(i) => i < |s.mmap|
  }

  function Get(s: Heap, ref: Ref): Mapping
    requires Valid(s, ref)
  {
    match ref
    case InBrk(i) => s.brk[i]
    case InMmap(i) => s.mmap[i]
  }

  function Set(s: Heap, ref: Ref, x: Mapping): Heap
    requires Valid(s, ref)
  {
    match ref
    case InBrk(i) => s.(brk := s.brk[i := x])
    case InMmap(i) => s.(mmap := s.mmap[i := x])
  }

  // ----- Mapping's own methods

  /** The constructor: the mapping takes its base from the region and gives it its address. */
  function NewMapping(a: A.Alloc, h: nat, addr: nat, length: nat, prot: Prot, anon: bool, fd: int, offset: int): Mapping
    requires h < |a.regions|
  {
    var host := a.regions[h].host;
    Mapping(host, if addr == 0 then host else addr, length, PagesFromSize(length), prot, anon, fd, offset, h)
  }

  function GrowToFill(a: A.Alloc, x: Mapping): Mapping
    requires x.region < |a.regions|
  {
    var r := a.regions[x.region];
    x.(addr := r.addr, length := r.size, pages := PagesFromSize(r.size))
  }

  /** Mapping::grow never shrinks and never exceeds the region. */
  function Grow(a: A.Alloc, x: Mapping, sz: nat): (y: Mapping)
    requires x.region < |a.regions|
    ensures y.length ==
            if sz <= x.length then x.length else if sz <= a.regions[x.region].size then sz else a.regions[x.region].size
    ensures y.host == x.host && y.addr == x.addr && y.region == x.region
  {
    if sz <= x.length then x
    else
      var n := if sz >= a.regions[x.region].size then a.regions[x.region].size else sz;
      x.(length := n, pages := PagesFromSize(n))
  }

  function SetLength(x: Mapping, length: nat): Mapping { x.(length := length, pages := PagesFromSize(length)) }

  /** move_guest_address without its region part. */
  function MoveUp(x: Mapping, off: nat): Mapping
    requires off <= x.length
  {
    x.(addr := x.addr + off, host := x.host + off, length := x.length - off, pages := PagesFromSize(x.length - off))
  }

  // ----- HeapManager's shared steps

  /** HeapManager::map for a mapping with some permission: record it in the mmap list unless an
      equal one is there, map its pages, use its region if it is free. */
  ghost function MapIn(s: Heap, x: Mapping): Heap
    requires x.region < |s.a.regions|
  {
    s.(mmap := if FindSame(s.mmap, x) >= 0 then s.mmap else s.mmap + [x],
       m := R.Overlay(s.m, Pg(x.addr), x.host, x.pages, OptsOf(x)),
       a := if s.a.regions[x.region].free then A.Use(s.a, x.region) else s.a)
  }

  /** The mapping without its region and its read permission. */
  function Compared(x: Mapping): Mapping { x.(region := 0, prot := x.prot.(read := false)) }

  /** Some entry equals x in everything that is compared. */
  ghost predicate Recorded(l: seq<Mapping>, x: Mapping) { exists i :: 0 <= i < |l| && Compared(l[i]) == Compared(x) }

  lemma FoundIffRecorded(l: seq<Mapping>, x: Mapping)
    ensures FindSame(l, x) >= 0 <==> Recorded(l, x)
  {
    assert forall y :: Same(y, x) <==> Compared(y) == Compared(x);
  }

  /** What map does to the list: it holds x afterwards, the old list is its beginning, and it has grown, by
      one entry, if and only if x was not on it. */
  ghost predicate Records(l: seq<Mapping>, l': seq<Mapping>, x: Mapping) {
    && Recorded(l', x) && |l| <= |l'| <= |l| + 1 && l'[..|l|] == l && (|l'| == |l| <==> Recorded(l, x))
    && (|l'| == |l| + 1 ==> l'[|l|] == x)
  }

  /** map records the mapping, and its region is in use afterwards. */
  lemma MapRecords(s: Heap, x: Mapping)
    requires x.region < |s.a.regions|
    ensures var s' := MapIn(s, x);
            && Records(s.mmap, s'.mmap, x) && x.region < |s'.a.regions| && !s'.a.regions[x.region].free
            && s'.brk == s.brk && s'.curbrk == s.curbrk
  {
    hide R.Overlay, FindSame;
    FoundIffRecorded(s.mmap, x);
    assert (s.mmap + [x])[|s.mmap|] == x;
  }

  /** free_mapping: erase the first equal mapping, looking at the brk list first. */
  function FreeMapping(s: Heap, x: Mapping): Heap {
    var k := FindSame(s.brk, x);
    if k >= 0 then s.(brk := Erase(s.brk, k))
    else
      var j := FindSame(s.mmap, x);
      if j >= 0 then s.(mmap := Erase(s.mmap, j)) else s
  }

  /** The asserts of HeapManager::unmap, among them that every page is present. */
  ghost predicate CanUnmap(s: Heap, ref: Ref, addr: nat, pages: nat) {
    && Valid(s, ref) && pages > 0 && Contains(Get(s, ref), addr) && pages <= Get(s, ref).pages
    && Contains(Get(s, ref), addr + (pages - 1) * 0x1000)
    && R.Range(Pg(addr), pages) <= s.m.Keys
    && Get(s, ref).region in s.a.used && Get(s, ref).region < |s.a.regions| && |s.a.freelists| == A.N_FREELISTS
  }

  /** HeapManager::unmap: the region goes back and the mapping goes away with its last page. */
  ghost function Unmap(s: Heap, ref: Ref, addr: nat, pages: nat): Heap
    requires CanUnmap(s, ref, addr, pages)
  {
    var x := Get(s, ref);
    var y := x.(pages := x.pages - pages);
    var s1 := Set(s.(m := s.m - R.Range(Pg(addr), pages)), ref, y);
    if y.pages == 0 then FreeMapping(s1.(a := A.FreeRegion(s1.a, x.region)), y) else s1
  }

  /** A mapping that became empty is the first one equal to itself when no other is empty. */
  lemma FindEmptied(l: seq<Mapping>, i: nat)
    requires i < |l| && l[i].pages == 0 && forall j | 0 <= j < |l| && j != i :: l[j].pages > 0
    ensures FindSame(l, l[i]) == i
  {
    assert Same(l[i], l[i]);
  }

  lemma FindNone(l: seq<Mapping>, x: Mapping)
    requires x.pages == 0 && forall j | 0 <= j < |l| :: l[j].pages > 0
    ensures FindSame(l, x) == -1
  {
  }
}
