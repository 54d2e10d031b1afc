/** What the users of guest memory ask for: host addresses of guest addresses, and host ranges. */
module Lookups {
  import opened PageArith
  import C = Chunks
  import P = Pager
  import A = Allocator
  import Q = PagerRuns
  import opened Mappings
  import opened RegionManagers

  /** Some range that posix_memalign may return: page-aligned, not null and used by no chunk. */
  method PosixMemalign(cs: seq<C.Chunk>, size: nat) returns (host: nat)
    requires size > 0 && size % 0x1000 == 0
    ensures C.FreshRange(cs, host, size)
  {
    host := 0x1000;
    var i := 0;
    while i < |cs|
      invariant 0 <= i <= |cs| && host > 0 && host % 0x1000 == 0
      invariant forall j | 0 <= j < i :: cs[j].host + cs[j].size <= host
    {
      var end := cs[i].host + cs[i].size;
      if host < end {
        host := NextPage(end);
      }
      i := i + 1;
    }
  }

  lemma UserPage(gva: nat)
    requires gva < 0x8000_0000_0000
    ensures Vpn(gva) == Pg(gva) < 0x10_0000_0000
  {
  }

  /** With the cache in order a lookup answers as the page map does. */
  lemma LookupPages(s: P.State, freed: set<nat>, gva: nat)
    requires P.Inv(s) && P.TlbOk(s, freed) && 0x1000 <= gva < 0x8000_0000_0000 && Pg(gva) !in freed
    ensures Vpn(gva) == Pg(gva)
    ensures var m := P.Pages(s);
            P.GetHostP(s, gva).host == if Pg(gva) in m then m[Pg(gva)].host + gva % 0x1000 else 0
    ensures Pg(gva) in P.Pages(s) ==> P.Pages(s)[Pg(gva)].host > 0
  {
    hide P.Inv, P.Pages, P.Uncached, P.HostPage, P.TlbOk, P.GetHostP, Vpn, Pg;
    UserPage(gva);
    P.LookupAgrees(s, freed, gva);
    P.UncachedIsPage(s, gva);
    Q.HostOfPages(s, Vpn(gva));
  }

  /** The cache stays in order as long as present pages keep their host pages. */
  lemma CacheStays(s: P.State, s': P.State, freed: set<nat>)
    requires P.Inv(s) && P.Inv(s') && P.TlbOk(s, freed) && s'.tlb == s.tlb
    requires forall p | p in P.Pages(s) :: p in P.Pages(s') && P.Pages(s')[p].host == P.Pages(s)[p].host
    ensures P.TlbOk(s', freed)
  {
    forall h: nat | h < 4096 ensures P.SlotOk(s', freed, h) {
      SlotStays(s, s', freed, h);
    }
  }

  lemma SlotStays(s: P.State, s': P.State, freed: set<nat>, h: nat)
    requires P.Inv(s) && P.Inv(s') && P.TlbOk(s, freed) && s'.tlb == s.tlb && h < 4096
    requires forall p | p in P.Pages(s) :: p in P.Pages(s') && P.Pages(s')[p].host == P.Pages(s)[p].host
    ensures P.SlotOk(s', freed, h)
  {
    hide P.Inv, P.Pages, P.HostPage;
    assert P.SlotOk(s, freed, h);
    var v := Vpn(s.tlb[h].key);
    Q.HostOfPages(s, v);
    Q.HostOfPages(s', v);
  }

  /** get_host_p for a page that was never freed. */
  method HostP(rm: RegionManager, gva: nat, ghost freed: set<nat>) returns (host: nat)
    requires rm.Valid() && P.TlbOk(rm.pager.S(), freed) && 0x1000 <= gva < 0x8000_0000_0000 && Pg(gva) !in freed
    modifies rm.pager.tlb
    ensures rm.Valid() && P.TlbOk(rm.pager.S(), freed) && rm.pager.Pages() == old(rm.pager.Pages())
    ensures host == if Pg(gva) in rm.pager.Pages() then rm.pager.Pages()[Pg(gva)].host + gva % 0x1000 else 0
    ensures Pg(gva) in rm.pager.Pages() ==> host > 0
  {
    hide P.Inv, P.Pages, P.TlbOk, P.GetHostP, A.Inv;
    LookupPages(rm.pager.S(), freed, gva);
    P.LookupKeeps(rm.pager.S(), freed, gva);
    host := rm.pager.GetHostP(gva);
  }

}
