/** Loading a writable segment of an ELF file: the bytes of the file, zeros behind them, and the
    pages through which the guest sees both. */
module ElfSegment {
  import opened PageArith
  import opened PageEntry
  import C = Chunks
  import P = Pager
  import A = Allocator
  import R = PagerRanges
  import H = HostMemory
  import opened Mappings
  import S = StackRuns
  import opened RegionManagers
  import opened Lookups

  const MAX_BUFSIZE: nat := 0x8000

  /** A file that may read short, but makes progress until its end. */
  class File {
    const content: seq<H.Byte>
    var pos: nat
    var plan: seq<nat>

    constructor (content: seq<H.Byte>, plan: seq<nat>)
      ensures this.content == content
    {
      this.content, this.plan, pos := content, plan, 0;
    }

    method Read(ram: H.Ram, buf: nat, n: nat) returns (r: nat)
      requires pos <= |content|
      modifies this, ram
      ensures r <= n && old(pos) + r == pos <= |content| && (r == 0 <==> n == 0 || old(pos) == |content|)
      ensures ram.bytes == H.Put(old(ram.bytes), buf, content[old(pos)..pos])
    {
      hide H.Put;
      r := if n <= |content| - pos then n else |content| - pos;
      if plan != [] {
        r := if 0 < plan[0] < r then plan[0] else r;
        plan := plan[1..];
      }
      ram.Copy(buf, content[pos..pos + r]);
      pos := pos + r;
    }

    /** elf_file::read_segment: whatever the reads deliver, exactly the bytes asked for arrive. */
    method ReadSegment(ram: H.Ram, buf: nat, bytes: nat, off: nat) returns (r: nat)
      requires off + bytes <= |content|
      modifies this, ram
      ensures r == 0 && ram.bytes == H.Put(old(ram.bytes), buf, content[off..off + bytes])
    {
      hide H.Put;
      var bufsize := if bytes < MAX_BUFSIZE then bytes else MAX_BUFSIZE;
      pos := off;
      var remaining, to := bytes, buf;
      ghost var mem := ram.bytes;
      r := Read(ram, to, bufsize);
      while r > 0
        invariant r <= bufsize <= remaining <= bytes && (bufsize == 0 <==> remaining == 0)
        invariant to + remaining == buf + bytes
        invariant off + (to - buf) + r == pos <= off + bytes && (r == 0 <==> bufsize == 0)
        invariant ram.bytes == H.Put(mem, buf, content[off..pos])
        decreases remaining
      {
        remaining := remaining - r;
        if remaining < bufsize {
          bufsize := remaining;
        }
        to := to + r;
        ghost var pos0 := pos;
        r := Read(ram, to, bufsize);
        PutPiece(mem, buf, content, off, pos0, pos);
      }
      assert remaining == 0;
    }
  }

  lemma PutPiece(mem: H.Memory, a: nat, content: seq<H.Byte>, off: nat, mid: nat, end: nat)
    requires off <= mid <= end <= |content|
    ensures H.Put(H.Put(mem, a, content[off..mid]), a + (mid - off), content[mid..end]) ==
            H.Put(mem, a, content[off..end])
  {
    hide H.Put;
    PutBehind(mem, a, content[off..mid], content[mid..end]);
    assert content[off..mid] + content[mid..end] == content[off..end];
  }

  lemma PutBehind(mem: H.Memory, a: nat, bs: seq<H.Byte>, cs: seq<H.Byte>)
    ensures H.Put(H.Put(mem, a, bs), a + |bs|, cs) == H.Put(mem, a, bs + cs)
  {
    var m1, m2 := H.Put(H.Put(mem, a, bs), a + |bs|, cs), H.Put(mem, a, bs + cs);
    forall x: nat ensures (x in m1 <==> x in m2) && (x in m1 ==> m1[x] == m2[x]) {
      assert H.Within(a, |bs + cs|, x) <==> H.Within(a, |bs|, x) || H.Within(a + |bs|, |cs|, x);
    }
  }

  // ----- the image

  datatype Phdr = Phdr(vaddr: nat, memsz: nat, filesz: nat, offset: nat)

  function Zeros(n: nat): (z: seq<H.Byte>)
    ensures |z| == n && forall i | 0 <= i < n :: z[i] == 0
  {
    seq<H.Byte>(n, _ => 0)
  }

  /** Byte i of the segment: from the file first, zero behind. */
  function ImageByte(content: seq<H.Byte>, phdr: Phdr, i: nat): H.Byte
    requires phdr.offset + phdr.filesz <= |content|
  {
    if i < phdr.filesz then content[phdr.offset + i] else 0
  }

  /** Host memory from a on holds the segment. */
  ghost predicate Image(mem: H.Memory, a: nat, content: seq<H.Byte>, phdr: Phdr)
    requires phdr.offset + phdr.filesz <= |content|
  {
    forall x: nat | H.Within(a, phdr.memsz, x) :: H.At(mem, x) == ImageByte(content, phdr, x - a)
  }

  /** The guest sees the segment at addr. */
  ghost predicate Loaded(m: P.PageMap, mem: H.Memory, addr: nat, content: seq<H.Byte>, phdr: Phdr)
    requires phdr.offset + phdr.filesz <= |content|
  {
    forall g: nat | H.Within(addr, phdr.memsz, g) ::
      Pg(g) in m && m[Pg(g)].write && !m[Pg(g)].exec
      && H.At(mem, S.Translate(m, g)) == ImageByte(content, phdr, g - addr)
  }

  /** The file bytes and then zeros, at least up to memsz. */
  lemma ImageWritten(mem: H.Memory, a: nat, content: seq<H.Byte>, phdr: Phdr, pad: nat)
    requires phdr.offset + phdr.filesz <= |content| && phdr.filesz <= phdr.memsz
    ensures var mem1 := H.Put(mem, a, content[phdr.offset..phdr.offset + phdr.filesz]);
            Image(H.Put(mem1, a + phdr.filesz, Zeros(pad + phdr.memsz - phdr.filesz)), a, content, phdr)
  {
    hide H.Put;
    var bs := content[phdr.offset..phdr.offset + phdr.filesz];
    var mem1 := H.Put(mem, a, bs);
    var mem2 := H.Put(mem1, a + phdr.filesz, Zeros(pad + phdr.memsz - phdr.filesz));
    forall x: nat | H.Within(a, phdr.memsz, x) ensures H.At(mem2, x) == ImageByte(content, phdr, x - a) {
      H.PutAt(mem, a, bs, x);
      H.PutAt(mem1, a + phdr.filesz, Zeros(pad + phdr.memsz - phdr.filesz), x);
    }
  }

  /** A linear mapping of whole pages, seen byte by byte. */
  lemma SeenThrough(m: P.PageMap, addr: nat, host: nat, pages: nat, opts: Opts, g: nat)
    requires host % 0x1000 == 0 && addr <= g && OffsetInPage(addr) + (g - addr) < 0x1000 * pages
    ensures var m' := R.Overlay(m, Pg(PageBegin(addr)), host, pages, opts);
            && Pg(g) in m' && m'[Pg(g)].write == opts.write && m'[Pg(g)].exec == opts.exec
            && S.Translate(m', g) == host + OffsetInPage(addr) + (g - addr)
  {
    var v, p := Pg(PageBegin(addr)), Pg(g);
    assert PageBegin(addr) == 0x1000 * v && g == 0x1000 * p + g % 0x1000;
    assert R.InRange(v, pages, p);
  }

  lemma SegmentLoaded(m: P.PageMap, mem: H.Memory, addr: nat, host: nat, content: seq<H.Byte>, phdr: Phdr, pages: nat)
    requires phdr.offset + phdr.filesz <= |content| && host % 0x1000 == 0
    requires OffsetInPage(addr) + phdr.memsz <= 0x1000 * pages
    requires Image(mem, host + OffsetInPage(addr), content, phdr)
    ensures Loaded(R.Overlay(m, Pg(PageBegin(addr)), host, pages, Opts(true, false)), mem, addr, content, phdr)
  {
    hide R.Overlay, Pg, S.Translate, PageBegin, OffsetInPage;
    var m' := R.Overlay(m, Pg(PageBegin(addr)), host, pages, Opts(true, false));
    forall g: nat | H.Within(addr, phdr.memsz, g)
      ensures Pg(g) in m' && m'[Pg(g)].write && !m'[Pg(g)].exec
      ensures H.At(mem, S.Translate(m', g)) == ImageByte(content, phdr, g - addr)
    {
      SeenThrough(m, addr, host, pages, Opts(true, false), g);
      assert H.Within(host + OffsetInPage(addr), phdr.memsz, host + OffsetInPage(addr) + (g - addr));
    }
  }

  const LOADER_BASE: nat := 0x100_0000

  /** The dynamic loader is moved by a whole number of pages. */
  function LoadAddr(phdr: Phdr, isLdr: bool): (addr: nat)
    ensures OffsetInPage(addr) == OffsetInPage(phdr.vaddr)
  {
    if isLdr then LOADER_BASE + phdr.vaddr else phdr.vaddr
  }

  /** User pages from addr on that are not in use, in blocks of pages that have room for their
      tables. */
  ghost predicate Vacant(m: P.PageMap, blocks: set<nat>, addr: nat, pages: nat) {
    && 0 < PageBegin(addr) && PageBegin(addr) + 0x1000 * pages <= 0x8000_0000_0000
    && R.Touched(Pg(PageBegin(addr)), pages) <= blocks && R.Range(Pg(PageBegin(addr)), pages) !! m.Keys
  }

  /** Every byte of host memory after a segment was put at host: the padding in front of it, its file bytes,
      zeros for the rest of its memory and as many as the page of the last file byte had left, and all others as
      before. */
  ghost predicate Filled(mem: H.Memory, mem': H.Memory, host: nat, content: seq<H.Byte>, phdr: Phdr, pad: seq<H.Byte>)
    requires phdr.filesz <= phdr.memsz && phdr.offset + phdr.filesz <= |content|
  {
    var buf := host + |pad|;
    var end := buf + phdr.filesz;
    forall x: nat ::
      H.At(mem', x) ==
      if H.Within(host, |pad|, x) then pad[x - host]
      else if H.Within(buf, phdr.filesz, x) then content[phdr.offset + (x - buf)]
      else if H.Within(end, 0x1000 - end % 0x1000 + phdr.memsz - phdr.filesz, x) then 0
      else H.At(mem, x)
  }

  /** The zeros end inside the region of the segment if and only if the memory of the segment ends inside a page,
      and no further into it than the file bytes do. */
  lemma FillFits(phdr: Phdr, host: nat)
    requires phdr.filesz <= phdr.memsz && host % 0x1000 == 0
    ensures var end := host + OffsetInPage(phdr.vaddr) + phdr.filesz;
            end + PageRemain(end) + phdr.memsz - phdr.filesz <=
            host + PagesizeAlign(phdr.memsz + OffsetInPage(phdr.vaddr)) <==>
            0 < (phdr.vaddr + phdr.memsz) % 0x1000 <= (phdr.vaddr + phdr.filesz) % 0x1000
  {
    var off, k := phdr.vaddr % 0x1000, phdr.vaddr / 0x1000;
    var a, b := off + phdr.filesz, off + phdr.memsz;
    assert phdr.vaddr + phdr.filesz == a + 0x1000 * k && phdr.vaddr + phdr.memsz == b + 0x1000 * k;
    ModShift(a, k);
    ModShift(b, k);
    ModShift(a, host / 0x1000);
    assert host + a == a + 0x1000 * (host / 0x1000);
    assert PageRemain(host + a) == 0x1000 - a % 0x1000;
    assert PagesizeAlign(b) == if b % 0x1000 == 0 then b else b - b % 0x1000 + 0x1000;
  }

  lemma ModShift(a: nat, k: nat)
    ensures (a + 0x1000 * k) % 0x1000 == a % 0x1000
  {
  }

  lemma FilledBytes(mem: H.Memory, host: nat, content: seq<H.Byte>, phdr: Phdr, pad: seq<H.Byte>)
    requires phdr.filesz <= phdr.memsz && phdr.offset + phdr.filesz <= |content|
    ensures var buf := host + |pad|;
            var end := buf + phdr.filesz;
            var mem1 := H.Put(H.Put(mem, host, pad), buf, content[phdr.offset..phdr.offset + phdr.filesz]);
            Filled(mem, H.Put(mem1, end, Zeros(PageRemain(end) + phdr.memsz - phdr.filesz)), host, content, phdr, pad)
  {
    hide H.Put;
    var buf := host + |pad|;
    var end, bs := buf + phdr.filesz, content[phdr.offset..phdr.offset + phdr.filesz];
    var z := Zeros(PageRemain(end) + phdr.memsz - phdr.filesz);
    var mem1 := H.Put(mem, host, pad);
    var mem2 := H.Put(mem1, buf, bs);
    forall x: nat
      ensures H.At(H.Put(mem2, end, z), x) ==
              if H.Within(host, |pad|, x) then pad[x - host]
              else if H.Within(buf, phdr.filesz, x) then content[phdr.offset + (x - buf)]
              else if H.Within(end, 0x1000 - end % 0x1000 + phdr.memsz - phdr.filesz, x) then 0
              else H.At(mem, x)
    {
      H.PutAt(mem, host, pad, x);
      H.PutAt(mem1, buf, bs, x);
      H.PutAt(mem2, end, z, x);
    }
  }

  /** read_segment and pad_end of a writable segment, behind the padding in front of it. */
  method Fill(ram: H.Ram, file: File, host: nat, phdr: Phdr, pad: seq<H.Byte>)
    requires phdr.filesz <= phdr.memsz && phdr.offset + phdr.filesz <= |file.content|
    requires |pad| == OffsetInPage(phdr.vaddr)
    modifies ram, file
    ensures Filled(old(ram.bytes), ram.bytes, host, file.content, phdr, pad)
    ensures Image(ram.bytes, host + OffsetInPage(phdr.vaddr), file.content, phdr)
  {
    hide H.Put, Image, Filled;
    FilledBytes(ram.bytes, host, file.content, phdr, pad);
    ram.Copy(host, pad);
    ghost var mem := ram.bytes;
    var buf := host + OffsetInPage(phdr.vaddr);
    var r := file.ReadSegment(ram, buf, phdr.filesz, phdr.offset);
    var end := buf + phdr.filesz;
    ImageWritten(mem, buf, file.content, phdr, PageRemain(end));
    ram.Copy(end, Zeros(PageRemain(end) + phdr.memsz - phdr.filesz));
  }

  /** load_phdr for a segment that is writable and not executable, up to the heap's part in it:
      the guest sees file bytes and then zeros from the load address on, and every other page as
      before. pad is what pad_data_begin puts in front. */
  method LoadPhdr(rm: RegionManager, ram: H.Ram, file: File, phdr: Phdr, isLdr: bool, pad: seq<H.Byte>,
                  ghost blocks: set<nat>)
    returns (h: nat)
    requires phdr.filesz <= phdr.memsz && 0 < phdr.memsz && phdr.offset + phdr.filesz <= |file.content|
             && |pad| == OffsetInPage(phdr.vaddr)
    requires Vacant(rm.pager.Pages(), blocks, LoadAddr(phdr, isLdr),
                    PagesFromSize(phdr.memsz + OffsetInPage(phdr.vaddr)))
    requires rm.Valid() && rm.pager.Need(blocks) <= P.POOL_TABLES
    modifies rm, rm.pager, ram, file
    ensures h !in old(rm.used) && h in rm.used && h < |rm.regions|
    ensures var addr := if isLdr then 0x100_0000 + phdr.vaddr else phdr.vaddr;
            && Loaded(rm.pager.Pages(), ram.bytes, addr, file.content, phdr) && rm.regions[h].addr == PageBegin(addr)
            && rm.pager.Pages() ==
               R.Overlay(old(rm.pager.Pages()), Pg(PageBegin(addr)), rm.regions[h].host,
                         PagesFromSize(phdr.memsz + OffsetInPage(phdr.vaddr)), Opts(true, false))
    ensures Filled(old(ram.bytes), ram.bytes, rm.regions[h].host, file.content, phdr, pad)
    ensures rm.regions[h].size == PagesizeAlign(phdr.memsz + OffsetInPage(phdr.vaddr)) && |rm.pager.chunks| > 0
            && !RegionManager.IsPool(rm.regions[h], rm.pager.chunks[0])
    ensures rm.Valid() && rm.pager.Need(blocks) <= old(rm.pager.Need(blocks))
  {
    hide P.Inv, P.Pages, A.Inv, A.FindList, A.Allocate, C.FreshRange, A.GrowSize, A.FreshChunk, A.AddChunk, R.Overlay,
         R.RangeOk, R.Need, R.Touched, R.Range, Pg, Vpn, PageBegin, OffsetInPage, PagesFromSize, PagesizeAlign, Image,
         Loaded, Filled;
    var addr, total := LoadAddr(phdr, isLdr), phdr.memsz + OffsetInPage(phdr.vaddr);
    ghost var m := rm.pager.Pages();
    var chunk := PosixMemalign(rm.pager.chunks, A.GrowSize(total));
    ghost var c;
    h, c := rm.Allocate(total, chunk);
    rm.SetGuestAddr(h, PageBegin(addr));
    var host := rm.regions[h].host;
    Fill(ram, file, host, phdr, pad);
    var pages := PagesFromSize(total);
    LoadFacts(rm.View(), h, m, blocks, addr, total);
    rm.RegionMappable(h, pages);
    var err := rm.pager.MapRegion(host, PageBegin(addr), pages, Opts(true, false), blocks);
    SegmentLoaded(m, ram.bytes, addr, host, file.content, phdr, pages);
  }

  lemma LoadFacts(a: A.Alloc, h: nat, m: P.PageMap, blocks: set<nat>, addr: nat, total: nat)
    requires A.Inv(a) && h < |a.regions| && a.regions[h].size == PagesizeAlign(total)
    requires Vacant(m, blocks, addr, PagesFromSize(total))
    ensures var host, v, pages := a.regions[h].host, PageBegin(addr), PagesFromSize(total);
            && host % 0x1000 == 0 && PageBegin(host) == host && v % 0x1000 == 0 && Vpn(v) == Pg(v)
            && Vpn(v) + pages <= 0x10_0000_0000
            && R.RangeOk(m, Pg(v), host, pages) && total <= 0x1000 * pages <= a.regions[h].size
  {
    RegionManager.RegionAligned(a, h);
    R.FreeRange(m, Pg(PageBegin(addr)), a.regions[h].host, PagesFromSize(total));
  }
}
