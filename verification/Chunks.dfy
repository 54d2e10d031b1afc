/** The table of memory chunks handed to KVM (src/pager.cc: alloc_chunk, map_chunk_to_kvm,
    find_chunk_for_host_p, host_to_guest_physical and the lookup of get_host_p). */
module Chunks {
  import opened PageArith

  datatype Chunk = Chunk(host: nat, gpa: nat, size: nat, slot: nat)

  datatype ChunkTable = ChunkTable(chunks: seq<Chunk>, freeSlots: seq<nat>, total: nat)

  predicate ContainsHost(c: Chunk, p: nat) { c.host <= p < c.host + c.size }
  predicate ContainsPhys(c: Chunk, g: nat) { c.gpa <= g < c.gpa + c.size }

  /** First chunk that holds host address p, -1 if none. */
  function FindHost(cs: seq<Chunk>, p: nat): (r: int)
    ensures -1 <= r < |cs|
    ensures r >= 0 ==> ContainsHost(cs[r], p)
    ensures forall i | 0 <= i < (if r < 0 then |cs| else r) :: !ContainsHost(cs[i], p)
  {
    if |cs| == 0 then -1
    else if ContainsHost(cs[0], p) then 0
    else
      var r := FindHost(cs[1..], p);
      if r < 0 then -1 else r + 1
  }

  /** First chunk that holds guest-physical address g, -1 if none. */
  function FindPhys(cs: seq<Chunk>, g: nat): (r: int)
    ensures -1 <= r < |cs|
    ensures r >= 0 ==> ContainsPhys(cs[r], g)
    ensures forall i | 0 <= i < (if r < 0 then |cs| else r) :: !ContainsPhys(cs[i], g)
  {
    if |cs| == 0 then -1
    else if ContainsPhys(cs[0], g) then 0
    else
      var r := FindPhys(cs[1..], g);
      if r < 0 then -1 else r + 1
  }

  /** host_to_guest_physical; 0 when no chunk holds p. */
  function HostToGuest(cs: seq<Chunk>, p: nat): nat {
    var k := FindHost(cs, p);
    if k < 0 then 0 else p - cs[k].host + cs[k].gpa
  }

  /** The chunk lookup of get_host_p; 0 (NULL) when no chunk holds g. */
  function PhysToHost(cs: seq<Chunk>, g: nat): nat {
    var k := FindPhys(cs, g);
    if k < 0 then 0 else g - cs[k].gpa + cs[k].host
  }

  // ----- the operations

  /** alloc_chunk: guest-physical memory grows upward, a released slot is reused last-in
      first-out, otherwise the slot is the number of live chunks. */
  function AllocChunk(ct: ChunkTable, host: nat, size: nat): ChunkTable {
    var n := |ct.freeSlots|;
    if n == 0 then
      ChunkTable(ct.chunks + [Chunk(host, ct.total, size, |ct.chunks|)], ct.freeSlots, ct.total + size)
    else
      ChunkTable(ct.chunks + [Chunk(host, ct.total, size, ct.freeSlots[n - 1])], ct.freeSlots[..n - 1], ct.total + size)
  }

  /** map_chunk_to_kvm on a chunk whose size was set to 0. */
  function ReleaseChunk(ct: ChunkTable, k: nat): ChunkTable
    requires k < |ct.chunks|
  {
    ct.(chunks := ct.chunks[..k] + ct.chunks[k + 1..], freeSlots := ct.freeSlots + [ct.chunks[k].slot])
  }

  predicate WellFormed(c: Chunk) {
    c.host > 0 && c.size > 0 && c.host % 0x1000 == 0 && c.gpa % 0x1000 == 0 && c.size % 0x1000 == 0
  }

  predicate HostDisjoint(c: Chunk, host: nat, size: nat) {
    c.host + c.size <= host || host + size <= c.host
  }

  /** posix_memalign gave a fresh page-aligned range. */
  predicate FreshRange(cs: seq<Chunk>, host: nat, size: nat) {
    && host > 0 && size > 0 && host % 0x1000 == 0 && size % 0x1000 == 0
    && forall i | 0 <= i < |cs| :: HostDisjoint(cs[i], host, size)
  }

  ghost predicate ChunksOk(cs: seq<Chunk>, total: nat) {
    && total % 0x1000 == 0
    && (forall i | 0 <= i < |cs| :: WellFormed(cs[i]) && cs[i].gpa + cs[i].size <= total)
    && (forall i, j | 0 <= i < j < |cs| :: cs[i].gpa + cs[i].size <= cs[j].gpa)
    && (forall i, j | 0 <= i < j < |cs| :: HostDisjoint(cs[i], cs[j].host, cs[j].size))
  }

  /** The live slots and the released ones are, together, each of 0 .. n-1 once. */
  ghost predicate SlotsOk(ct: ChunkTable) {
    var n := |ct.chunks| + |ct.freeSlots|;
    && (forall i | 0 <= i < |ct.chunks| :: ct.chunks[i].slot < n)
    && (forall i | 0 <= i < |ct.freeSlots| :: ct.freeSlots[i] < n)
    && (forall i, j | 0 <= i < j < |ct.chunks| :: ct.chunks[i].slot != ct.chunks[j].slot)
    && (forall i, j | 0 <= i < j < |ct.freeSlots| :: ct.freeSlots[i] != ct.freeSlots[j])
    && (forall i, j | 0 <= i < |ct.chunks| && 0 <= j < |ct.freeSlots| :: ct.chunks[i].slot != ct.freeSlots[j])
  }

  ghost predicate Inv(ct: ChunkTable) { ChunksOk(ct.chunks, ct.total) && SlotsOk(ct) }

  lemma AllocKeepsChunks(ct: ChunkTable, host: nat, size: nat)
    requires ChunksOk(ct.chunks, ct.total) && FreshRange(ct.chunks, host, size)
    ensures ChunksOk(AllocChunk(ct, host, size).chunks, AllocChunk(ct, host, size).total)
  {
  }

  lemma AllocKeepsSlots(ct: ChunkTable, host: nat, size: nat)
    requires SlotsOk(ct)
    ensures SlotsOk(AllocChunk(ct, host, size))
  {
  }

  lemma AllocKeeps(ct: ChunkTable, host: nat, size: nat)
    requires Inv(ct) && FreshRange(ct.chunks, host, size)
    ensures Inv(AllocChunk(ct, host, size))
  {
    AllocKeepsChunks(ct, host, size);
    AllocKeepsSlots(ct, host, size);
  }

  lemma ReleaseKeepsChunks(ct: ChunkTable, k: nat)
    requires ChunksOk(ct.chunks, ct.total) && k < |ct.chunks|
    ensures ChunksOk(ReleaseChunk(ct, k).chunks, ct.total)
  {
    var cs, cs' := ct.chunks, ReleaseChunk(ct, k).chunks;
    assert forall i | 0 <= i < |cs'| :: cs'[i] == cs[if i < k then i else i + 1];
  }

  lemma ReleaseKeepsSlots(ct: ChunkTable, k: nat)
    requires SlotsOk(ct) && k < |ct.chunks|
    ensures SlotsOk(ReleaseChunk(ct, k))
  {
    var cs, cs' := ct.chunks, ReleaseChunk(ct, k).chunks;
    assert forall i | 0 <= i < |cs'| :: cs'[i] == cs[if i < k then i else i + 1];
  }

  lemma ReleaseKeeps(ct: ChunkTable, k: nat)
    requires Inv(ct) && k < |ct.chunks|
    ensures Inv(ReleaseChunk(ct, k))
  {
    ReleaseKeepsChunks(ct, k);
    ReleaseKeepsSlots(ct, k);
  }

  // ----- runs

  datatype ChunkOp = Alloc(host: nat, size: nat) | Release(k: nat)

  predicate Enabled(ct: ChunkTable, op: ChunkOp) {
    match op
    case Alloc(host, size) => FreshRange(ct.chunks, host, size)
    case Release(k) => k < |ct.chunks|
  }

  function Apply(ct: ChunkTable, op: ChunkOp): ChunkTable
    requires Enabled(ct, op)
  {
    match op
    case Alloc(host, size) => AllocChunk(ct, host, size)
    case Release(k) => ReleaseChunk(ct, k)
  }

  ghost predicate Runs(ct: ChunkTable, ops: seq<ChunkOp>, ct': ChunkTable)
    decreases |ops|
  {
    if |ops| == 0 then ct' == ct
    else Enabled(ct, ops[0]) && Runs(Apply(ct, ops[0]), ops[1..], ct')
  }

  /** Under any order of allocation and release, live chunks have disjoint guest-physical and
      host ranges and distinct KVM slots. */
  lemma {:induction false} RunKeeps(ct: ChunkTable, ops: seq<ChunkOp>, ct': ChunkTable)
    requires Inv(ct) && Runs(ct, ops, ct')
    ensures Inv(ct')
    decreases |ops|
  {
    if |ops| > 0 {
      match ops[0] {
        case Alloc(host, size) => AllocKeeps(ct, host, size);
        case Release(k) => ReleaseKeeps(ct, k);
      }
      RunKeeps(Apply(ct, ops[0]), ops[1..], ct');
    }
  }

  /** The bytes that a run asks for, whether they are released later or not. */
  function Asked(ops: seq<ChunkOp>): nat {
    if |ops| == 0 then 0 else (if ops[0].Alloc? then ops[0].size else 0) + Asked(ops[1..])
  }

  /** Chunk c comes from allocation j of a run that started at guest-physical address `from`. */
  ghost predicate MadeBy(c: Chunk, ops: seq<ChunkOp>, j: nat, from: nat) {
    j < |ops| && ops[j] == Alloc(c.host, c.size) && c.gpa == from + Asked(ops[..j])
  }

  /** Guest-physical memory is handed out in order and never again: after any run each chunk is an old one, or
      starts behind all that was asked for before it. */
  lemma {:induction false} RunPlaces(ct: ChunkTable, ops: seq<ChunkOp>, ct': ChunkTable)
    requires Runs(ct, ops, ct')
    ensures ct'.total == ct.total + Asked(ops)
    ensures forall c | c in ct'.chunks :: c in ct.chunks || exists j: nat :: MadeBy(c, ops, j, ct.total)
    decreases |ops|
  {
    if |ops| > 0 {
      var ct1 := Apply(ct, ops[0]);
      RunPlaces(ct1, ops[1..], ct');
      forall c | c in ct'.chunks && c !in ct.chunks ensures exists j: nat :: MadeBy(c, ops, j, ct.total) {
        if c in ct1.chunks {
          assert ops[..0] == [];
          assert MadeBy(c, ops, 0, ct.total);
        } else {
          var j: nat :| MadeBy(c, ops[1..], j, ct1.total);
          assert ops[..j + 1][1..] == ops[1..][..j];
          assert MadeBy(c, ops, j + 1, ct.total);
        }
      }
    }
  }

  /** The slot of a released chunk is the next one to be used, and the other released ones wait as before. */
  lemma SlotReused(ct: ChunkTable, k: nat, host: nat, size: nat)
    requires k < |ct.chunks|
    ensures var ct' := AllocChunk(ReleaseChunk(ct, k), host, size);
            && ct'.chunks == ct.chunks[..k] + ct.chunks[k + 1..] + [Chunk(host, ct.total, size, ct.chunks[k].slot)]
            && ct'.freeSlots == ct.freeSlots
  {
  }

  // ----- translation

  /** Byte i of a chunk is byte i of it in both address spaces. */
  lemma ByteOfChunk(cs: seq<Chunk>, total: nat, k: nat, i: nat)
    requires ChunksOk(cs, total) && k < |cs| && i < cs[k].size
    ensures HostToGuest(cs, cs[k].host + i) == cs[k].gpa + i
    ensures PhysToHost(cs, cs[k].gpa + i) == cs[k].host + i
  {
    HostUnique(cs, total, cs[k].host + i, k);
    PhysUnique(cs, total, cs[k].gpa + i, k);
  }

  /** What lies in no chunk has no address in the other space, and nothing else has none, but for guest-physical
      address 0, which the program takes for the error value too. */
  lemma NullOutside(cs: seq<Chunk>, total: nat, p: nat)
    requires ChunksOk(cs, total)
    ensures (forall k | 0 <= k < |cs| :: !ContainsPhys(cs[k], p)) <==> PhysToHost(cs, p) == 0
    ensures (forall k | 0 <= k < |cs| :: !ContainsHost(cs[k], p) || (cs[k].gpa == 0 && p == cs[k].host)) <==>
            HostToGuest(cs, p) == 0
  {
    if HostToGuest(cs, p) == 0 {
      forall k | 0 <= k < |cs| && ContainsHost(cs[k], p) ensures cs[k].gpa == 0 && p == cs[k].host {
        HostUnique(cs, total, p, k);
      }
    }
  }

  /** Host to guest-physical and back is the identity on every address of a live chunk. */
  lemma HostRoundTrip(cs: seq<Chunk>, total: nat, p: nat)
    requires ChunksOk(cs, total) && FindHost(cs, p) >= 0
    ensures FindPhys(cs, HostToGuest(cs, p)) == FindHost(cs, p)
    ensures PhysToHost(cs, HostToGuest(cs, p)) == p
  {
  }

  /** And the other way round. */
  lemma PhysRoundTrip(cs: seq<Chunk>, total: nat, g: nat)
    requires ChunksOk(cs, total) && FindPhys(cs, g) >= 0
    ensures FindHost(cs, PhysToHost(cs, g)) == FindPhys(cs, g)
    ensures HostToGuest(cs, PhysToHost(cs, g)) == g && PhysToHost(cs, g) > 0
  {
  }

  /** Both directions keep the offset in the page, and a whole page stays in its chunk. */
  lemma PageAligned(cs: seq<Chunk>, total: nat, g: nat)
    requires ChunksOk(cs, total) && FindPhys(cs, g) >= 0
    ensures FindPhys(cs, PageBegin(g)) == FindPhys(cs, g)
    ensures PhysToHost(cs, g) == PhysToHost(cs, PageBegin(g)) + g % 0x1000
    ensures PhysToHost(cs, PageBegin(g)) % 0x1000 == 0
  {
    var k := FindPhys(cs, g);
    var c := cs[k];
    SamePage(c.gpa, c.size, g);
    PhysUnique(cs, total, PageBegin(g), k);
    assert PhysToHost(cs, g) == g - c.gpa + c.host;
    assert PhysToHost(cs, PageBegin(g)) == PageBegin(g) - c.gpa + c.host;
    ShiftAligned(PageBegin(g), c.gpa, c.host);
  }

  lemma SamePage(base: nat, size: nat, g: nat)
    requires base % 0x1000 == 0 && size % 0x1000 == 0 && base <= g < base + size
    ensures base <= PageBegin(g) && PageBegin(g) + 0x1000 <= base + size
  {
  }

  lemma HostUnique(cs: seq<Chunk>, total: nat, p: nat, k: nat)
    requires ChunksOk(cs, total) && k < |cs| && ContainsHost(cs[k], p)
    ensures FindHost(cs, p) == k
  {
  }

  lemma PhysUnique(cs: seq<Chunk>, total: nat, g: nat, k: nat)
    requires ChunksOk(cs, total) && k < |cs| && ContainsPhys(cs[k], g)
    ensures FindPhys(cs, g) == k
  {
  }

  lemma ChunkAligned(cs: seq<Chunk>, total: nat, k: nat)
    requires ChunksOk(cs, total) && k < |cs|
    ensures cs[k].host % 0x1000 == 0 && cs[k].size % 0x1000 == 0 && cs[k].gpa % 0x1000 == 0
  {
  }

  lemma HostPageAligned(cs: seq<Chunk>, total: nat, p: nat)
    requires ChunksOk(cs, total) && FindHost(cs, p) >= 0
    ensures FindHost(cs, PageBegin(p)) == FindHost(cs, p)
    ensures HostToGuest(cs, PageBegin(p)) == PageBegin(HostToGuest(cs, p))
    ensures HostToGuest(cs, p) % 0x1000 == p % 0x1000
  {
    hide ChunksOk, PageBegin;
    var k := FindHost(cs, p);
    var c := cs[k];
    ChunkAligned(cs, total, k);
    SamePage(c.host, c.size, p);
    HostUnique(cs, total, PageBegin(p), k);
    ShiftAligned(p, c.host, c.gpa);
  }

  lemma ShiftAligned(p: nat, from: nat, to: nat)
    requires from % 0x1000 == 0 && to % 0x1000 == 0 && from <= p
    ensures (p - from + to) % 0x1000 == p % 0x1000
    ensures PageBegin(p - from + to) == PageBegin(p) - from + to
  {
    var a, b := from / 0x1000, to / 0x1000;
    assert p - from + to == p + 0x1000 * (b - a);
  }

  /** A later chunk changes no translation that exists. */
  lemma AllocKeepsTranslations(ct: ChunkTable, host: nat, size: nat, g: nat)
    requires Inv(ct) && FreshRange(ct.chunks, host, size) && FindPhys(ct.chunks, g) >= 0
    ensures PhysToHost(AllocChunk(ct, host, size).chunks, g) == PhysToHost(ct.chunks, g)
    ensures FindPhys(AllocChunk(ct, host, size).chunks, g) == FindPhys(ct.chunks, g)
  {
    var cs' := AllocChunk(ct, host, size).chunks;
    var k := FindPhys(ct.chunks, g);
    assert ContainsPhys(cs'[k], g);
  }
}
