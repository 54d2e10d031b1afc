/** The search of map_kernel_page for a free kernel page (src/pager.cc). */
module KernelPages {
  import opened PageArith
  import opened PageEntry
  import opened PageTables

  /** Page number of KERNEL_SPACE_BOTTOM, where every search starts: guest_next_free is set
      once and never moved. */
  const KERNEL_BOTTOM: nat := 0x8_0000_0000

  datatype Found = Found(pt: PT, v: nat)

  /** The loop: step through the page table, and after its last entry go 1 MiB into the range
      of the next one, walking there with create. */
  function Search(s: PT, v: nat, opts: Opts): Found
    decreases 0x10_0000_0000 - v
  {
    if v >= 0x10_0000_0000 || !Leaf(s, v).present then Found(s, v)
    else if (v + 1) % 512 == 0 then Search(WalkCreate(s, v + 257, opts, 0), v + 257, opts)
    else Search(s, v + 1, opts)
  }

  /** The pages a search from v looks at: the rest of v's page table, then the upper half of
      each later one. */
  predicate Candidate(v: nat, u: nat) { v <= u && (u / 512 == v / 512 || u % 512 >= 256) }

  /** Everything about the page table that the search keeps while it stands on page v. */
  ghost predicate Standing(s: PT, sh: Shape, v: nat, opts: Opts) {
    Good(s, sh) && 0 <= TableOf(s, v, 0) < |s.tables| && ParentCovers(s, sh, TableOf(s, v, 0), opts)
  }

  ghost predicate AllPresent(s: PT, v: nat, w: nat) {
    forall u: nat | Candidate(v, u) && u < w && u < 0x10_0000_0000 :: Leaf(s, u).present
  }

  /** What a search from page v of s promises of what it finds. */
  ghost predicate Finds(s: PT, v: nat, f: Found) {
    && Extends(s, f.pt) && Candidate(v, f.v)
    && (f.v < 0x10_0000_0000 ==> !Leaf(s, f.v).present)
    && AllPresent(s, v, f.v)
    && |f.pt.tables| <= |s.tables| + 3
    && (!Leaf(s, v).present ==> f.pt == s)
  }

  lemma FindsStep(s: PT, v: nat, f: Found)
    requires Leaf(s, v).present && (v + 1) % 512 != 0 && Finds(s, v + 1, f)
    ensures Finds(s, v, f)
  {
    StepCandidates(v);
  }

  lemma FindsCross(s: PT, s1: PT, v: nat, f: Found)
    requires Leaf(s, v).present && (v + 1) % 512 == 0 && Extends(s, s1) && Finds(s1, v + 257, f)
    requires |s1.tables| == |s.tables| || (|s1.tables| <= |s.tables| + 3 && !Leaf(s, v + 257).present)
    ensures Finds(s, v, f)
  {
    CrossCandidates(v);
    ExtendsTrans(s, s1, f.pt);
    assert forall u :: Leaf(s1, u) == Leaf(s, u);
  }

  lemma CrossStanding(s: PT, sh: Shape, v: nat, opts: Opts) returns (s1: PT, sh1: Shape)
    requires Good(s, sh)
    ensures s1 == WalkCreate(s, v, opts, 0) && Standing(s1, sh1, v, opts) && Extends(s, s1)
    ensures |s1.tables| == |s.tables| || (|s1.tables| <= |s.tables| + 3 && !Leaf(s, v).present)
  {
    s1 := WalkCreate(s, v, opts, 0);
    sh1 := WalkCreateKeeps(s, sh, v, opts, 0);
    TableLevel(s, sh, v, 0);
  }

  /** Walking into the next page table with create. */
  lemma Cross(s: PT, sh: Shape, v: nat, opts: Opts) returns (s1: PT, sh1: Shape, f: Found)
    requires Good(s, sh) && v < 0x10_0000_0000 && Leaf(s, v).present && (v + 1) % 512 == 0
    ensures Standing(s1, sh1, v + 257, opts) && Extends(s, s1)
    ensures |s1.tables| == |s.tables| || (|s1.tables| <= |s.tables| + 3 && !Leaf(s, v + 257).present)
    ensures f == Search(s, v, opts) == Search(s1, v + 257, opts)
  {
    hide Good, Standing, Extends, WalkCreate, Digit;
    s1, sh1 := CrossStanding(s, sh, v + 257, opts);
    f := Search(s1, v + 257, opts);
  }

  lemma {:induction false} SearchKeeps(s: PT, sh: Shape, v: nat, opts: Opts) returns (sh': Shape)
    requires Standing(s, sh, v, opts)
    ensures Standing(Search(s, v, opts).pt, sh', Search(s, v, opts).v, opts) && Finds(s, v, Search(s, v, opts))
    decreases 0x10_0000_0000 - v, 1
  {
    if v >= 0x10_0000_0000 || !Leaf(s, v).present {
      sh' := sh;
    } else if (v + 1) % 512 != 0 {
      sh' := SearchInTable(s, sh, v, opts);
    } else {
      sh' := SearchNextTable(s, sh, v, opts);
    }
  }

  /** pt_entry++ stands on the entry of the next page. */
  lemma {:induction false} SearchInTable(s: PT, sh: Shape, v: nat, opts: Opts) returns (sh': Shape)
    requires Standing(s, sh, v, opts) && v < 0x10_0000_0000 && Leaf(s, v).present && (v + 1) % 512 != 0
    ensures Standing(Search(s, v, opts).pt, sh', Search(s, v, opts).v, opts) && Finds(s, v, Search(s, v, opts))
    decreases 0x10_0000_0000 - v, 0
  {
    SameTable(s, v);
    sh' := SearchKeeps(s, sh, v + 1, opts);
    FindsStep(s, v, Search(s, v + 1, opts));
  }

  lemma {:induction false} SearchNextTable(s: PT, sh: Shape, v: nat, opts: Opts) returns (sh': Shape)
    requires Standing(s, sh, v, opts) && v < 0x10_0000_0000 && Leaf(s, v).present && (v + 1) % 512 == 0
    ensures Standing(Search(s, v, opts).pt, sh', Search(s, v, opts).v, opts) && Finds(s, v, Search(s, v, opts))
    decreases 0x10_0000_0000 - v, 0
  {
    var s1, sh1, f := Cross(s, sh, v, opts);
    sh' := SearchKeeps(s1, sh1, v + 257, opts);
    FindsCross(s, s1, v, f);
  }

  lemma SearchDone(s: PT, v: nat, opts: Opts)
    requires !Leaf(s, v).present
    ensures Search(s, v, opts) == Found(s, v)
  {
  }

  /** The search only moves up. */
  lemma {:induction false} SearchAhead(s: PT, v: nat, opts: Opts)
    ensures v <= Search(s, v, opts).v
    ensures |s.tables| <= |Search(s, v, opts).pt.tables|
    decreases 0x10_0000_0000 - v
  {
    if v < 0x10_0000_0000 && Leaf(s, v).present {
      if (v + 1) % 512 != 0 {
        SearchAhead(s, v + 1, opts);
      } else {
        WalkCreateGrows(s, v + 257, opts, 3, 0);
        SearchAhead(WalkCreate(s, v + 257, opts, 0), v + 257, opts);
      }
    }
  }

  lemma StepCandidates(v: nat)
    requires (v + 1) % 512 != 0
    ensures forall u: nat :: Candidate(v, u) <==> u == v || Candidate(v + 1, u)
  {
    assert (v + 1) / 512 == v / 512;
  }

  lemma CrossCandidates(v: nat)
    requires (v + 1) % 512 == 0
    ensures forall u: nat :: Candidate(v, u) <==> u == v || Candidate(v + 257, u)
  {
    var q := v / 512;
    assert v == 512 * q + 511 && (v + 257) / 512 == q + 1;
    forall u: nat ensures Candidate(v, u) <==> u == v || Candidate(v + 257, u) {
      var k, r := u / 512, u % 512;
      assert u == 512 * k + r;
    }
  }

  /** Distinct numbers below n are at most n. */
  lemma {:induction false} DistinctBelow(ts: seq<int>, n: nat)
    requires forall i | 0 <= i < |ts| :: 0 <= ts[i] < n
    requires forall i, j | 0 <= i < j < |ts| :: ts[i] != ts[j]
    ensures |ts| <= n
  {
    assert |ts| > 0 ==> 0 <= ts[0] < n;
    if n > 0 {
      if k :| 0 <= k < |ts| && ts[k] == n - 1 {
        DistinctBelow(ts[..k] + ts[k + 1..], n - 1);
      } else {
        DistinctBelow(ts, n - 1);
      }
    }
  }

  /** A search that leaves more page tables behind than the pool holds is impossible, so the
      address never wraps. */
  lemma SearchStops(s: PT, sh: Shape, v: nat, w: nat, blocks: nat)
    requires Tree(s, sh) && AllPresent(s, v, w) && Candidate(v, w)
    requires 512 * (v / 512 + blocks) <= w && 512 * (v / 512 + blocks) <= 0x10_0000_0000
    ensures blocks <= |s.tables|
  {
    hide TableOf, Digit, Tree, AllPresent;
    var q := v / 512;
    var ts := seq(blocks, j requires 0 <= j < blocks => TableOf(s, 512 * (q + j) + 511, 0));
    forall j | 0 <= j < blocks ensures 0 <= ts[j] < |s.tables| {
      LastSlot(s, sh, v, w, q + j);
    }
    forall i, j | 0 <= i < j < blocks ensures ts[i] != ts[j] {
      LastSlot(s, sh, v, w, q + i);
      LastSlot(s, sh, v, w, q + j);
      if ts[i] == ts[j] {
        LeafSlotUnique(s, sh, 512 * (q + i) + 511, 512 * (q + j) + 511);
      }
    }
    DistinctBelow(ts, |s.tables|);
  }

  /** The last slot of a page table that the search has passed. */
  lemma LastSlot(s: PT, sh: Shape, v: nat, w: nat, k: nat)
    requires Tree(s, sh) && AllPresent(s, v, w) && v / 512 <= k && 512 * k + 511 < w && 512 * k + 511 < 0x10_0000_0000
    ensures 0 <= TableOf(s, 512 * k + 511, 0) < |s.tables| && Digit(512 * k + 511, 0) == 511
  {
    hide Tree;
    assert Candidate(v, 512 * k + 511);
    TableLevel(s, sh, 512 * k + 511, 0);
  }

  /** map_kernel_page below its address computation. */
  function MapKernel(s: PT, v0: nat, frame: nat, opts: Opts): Found {
    var f := Search(WalkCreate(s, v0, opts, 0), v0, opts);
    Found(SetLeaf(f.pt, f.v, CreateEntry(frame, opts)), f.v)
  }

  /** map_kernel_page returns the first free candidate, which did not translate before and now
      translates to the given frame, leaves every other page alone, takes at most three pool
      pages and stays inside the kernel half of the address space. */
  lemma MapKernelRefines(s: PT, frame: nat, opts: Opts)
    requires Inv(s) && |s.tables| <= 4096
    ensures var r := MapKernel(s, KERNEL_BOTTOM, frame, opts);
            && KERNEL_BOTTOM <= r.v < 0x10_0000_0000 && Candidate(KERNEL_BOTTOM, r.v)
            && r.v / 512 <= KERNEL_BOTTOM / 512 + |s.tables|
            && !Leaf(s, r.v).present && AllPresent(s, KERNEL_BOTTOM, r.v)
            && Inv(r.pt) && OnlyAt(s, r.pt, r.v) && Leaf(r.pt, r.v) == CreateEntry(frame, opts)
            && |r.pt.tables| <= |s.tables| + 3
  {
    var v0 := KERNEL_BOTTOM;
    var sh :| Good(s, sh);
    var s1 := WalkCreate(s, v0, opts, 0);
    var sh1 := WalkCreateKeeps(s, sh, v0, opts, 0);
    var f := Search(s1, v0, opts);
    var sh2 := SearchKeeps(s1, sh1, v0, opts);
    ExtendsTrans(s, s1, f.pt);
    assert AllPresent(s, v0, f.v) by {
      forall u: nat | Candidate(v0, u) && u < f.v && u < 0x10_0000_0000 ensures Leaf(s, u).present {
        assert Leaf(s1, u) == Leaf(s, u);
      }
    }
    SearchBounded(s, sh, f.v);
    assert Leaf(s1, f.v) == Leaf(s, f.v);
    StoreLeaf(f.pt, sh2, f.v, frame, opts);
    ExtendsOnlyAt(s, f.pt, MapKernel(s, v0, frame, opts).pt, f.v);
    PoolUse(s, sh, opts);
  }

  lemma SearchBounded(s: PT, sh: Shape, w: nat)
    requires Tree(s, sh) && |s.tables| <= 4096 && AllPresent(s, KERNEL_BOTTOM, w) && Candidate(KERNEL_BOTTOM, w)
    ensures w < 0x10_0000_0000 && w / 512 <= KERNEL_BOTTOM / 512 + |s.tables|
  {
    var q := KERNEL_BOTTOM / 512;
    if w / 512 > q + |s.tables| {
      SearchStops(s, sh, KERNEL_BOTTOM, w, |s.tables| + 1);
    }
  }

  /** Only one of the creating walks of a search can take pool pages: a page table that was
      just created has a free entry. */
  lemma PoolUse(s: PT, sh: Shape, opts: Opts)
    requires Good(s, sh)
    ensures |Search(WalkCreate(s, KERNEL_BOTTOM, opts, 0), KERNEL_BOTTOM, opts).pt.tables| <= |s.tables| + 3
  {
    var v0 := KERNEL_BOTTOM;
    var s1 := WalkCreate(s, v0, opts, 0);
    var sh1 := WalkCreateKeeps(s, sh, v0, opts, 0);
    var sh2 := SearchKeeps(s1, sh1, v0, opts);
    if TableOf(s, v0, 0) < 0 {
      TableLevel(s, sh, v0, 0);
      assert !Leaf(s, v0).present;
      assert Leaf(s1, v0) == Leaf(s, v0);
    }
  }
}
