/** One page-table entry: the 64-bit word the code manipulates and the record the rest of
    the model uses for it. */
module PageEntry {
  import opened PageArith

  /** ptopt_t, of which only PT_OPT_WRITE and PT_OPT_EXEC are ever read. */
  datatype Opts = Opts(write: bool, exec: bool)

  datatype Entry = Entry(present: bool, writeable: bool, user: bool, noexec: bool, addr: nat)

  /** What memset leaves behind. */
  const EMPTY: Entry := Entry(false, false, false, false, 0)

  /** create_entry */
  function CreateEntry(guestNext: nat, opts: Opts): (e: Entry)
    ensures e.present && e.addr % 0x1000 == 0 && e.addr <= guestNext < e.addr + 0x1000
  {
    Entry(true, opts.write, true, !opts.exec, PageBegin(guestNext))
  }

  /** The second half of update_entry: rights are only ever added. */
  function RaiseEntry(e: Entry, opts: Opts): Entry {
    e.(writeable := e.writeable || opts.write, noexec := e.noexec && !opts.exec)
  }

  // ----- the 64-bit words

  predicate Encodable(e: Entry) {
    e.addr % 0x1000 == 0 && e.addr < 0x10_0000_0000_0000
  }

  function Flag(b: bool, value: nat): nat { if b then value else 0 }

  function Encode(e: Entry): nat {
    Flag(e.present, 1) + Flag(e.writeable, 2) + Flag(e.user, 4) + e.addr + Flag(e.noexec, 0x8000_0000_0000_0000)
  }

  predicate BitIsSet(w: nat, bit: nat) requires bit > 0 { w / bit % 2 == 1 }

  /** w | bit, for a single bit. */
  function SetBit(w: nat, bit: nat): nat requires bit > 0 { if BitIsSet(w, bit) then w else w + bit }

  /** w & ~bit, for a single bit. */
  function ClearBit(w: nat, bit: nat): nat
    requires bit > 0
  {
    if BitIsSet(w, bit) && bit <= w then w - bit else w
  }

  /** w & 0x000FFFFFFFFFF000 */
  function AddrBits(w: nat): nat { PageBegin(w % 0x10_0000_0000_0000) }

  /** create_entry, word by word. */
  function CreateEntryWord(guestNext: nat, opts: Opts): nat {
    var base := PageBegin(guestNext);
    var user := SetBit(base, 4);
    var write := if opts.write then SetBit(user, 2) else user;
    var nxe := if !opts.exec then SetBit(write, 0x8000_0000_0000_0000) else write;
    SetBit(nxe, 1)
  }

  /** update_entry on a present entry, word by word. */
  function UpdateEntryWord(w: nat, opts: Opts): nat {
    var write := if opts.write then SetBit(w, 2) else w;
    if opts.exec then ClearBit(write, 0x8000_0000_0000_0000) else write
  }

  /** Every reader of a word sees the field of the record it stands for. */
  lemma WordFields(e: Entry)
    requires Encodable(e)
    ensures BitIsSet(Encode(e), 1) == e.present
    ensures BitIsSet(Encode(e), 2) == e.writeable
    ensures BitIsSet(Encode(e), 4) == e.user
    ensures BitIsSet(Encode(e), 0x8000_0000_0000_0000) == e.noexec
    ensures AddrBits(Encode(e)) == e.addr
  {
    var low := Flag(e.present, 1) + Flag(e.writeable, 2) + Flag(e.user, 4);
    var k := e.addr / 0x1000;
    var h := 0x200 * k + Flag(e.noexec, 0x1000_0000_0000_0000);
    assert Encode(e) == low + 8 * h;
    assert Encode(e) == low + 0x1000 * k + Flag(e.noexec, 0x8000_0000_0000_0000);
    FlagBits(e.present, e.writeable, e.user);
    LowBits(low, h);
    HighBits(low, k, e.noexec);
  }

  lemma FlagBits(p: bool, w: bool, u: bool)
    ensures var low := Flag(p, 1) + Flag(w, 2) + Flag(u, 4);
            BitIsSet(low, 1) == p && BitIsSet(low, 2) == w && BitIsSet(low, 4) == u
  {
  }

  lemma LowBits(low: nat, h: nat)
    requires low < 8
    ensures BitIsSet(low + 8 * h, 1) == BitIsSet(low, 1)
    ensures BitIsSet(low + 8 * h, 2) == BitIsSet(low, 2)
    ensures BitIsSet(low + 8 * h, 4) == BitIsSet(low, 4)
  {
    DivModUnique(low + 8 * h, 2, low / 2 + 4 * h, low % 2);
    DivModUnique(low + 8 * h, 4, low / 4 + 2 * h, low % 4);
  }

  lemma HighBits(low: nat, k: nat, top: bool)
    requires low < 8 && k < 0x100_0000_0000
    ensures var w := low + 0x1000 * k + Flag(top, 0x8000_0000_0000_0000);
            AddrBits(w) == 0x1000 * k && BitIsSet(w, 0x8000_0000_0000_0000) == top
  {
    var w, f := low + 0x1000 * k + Flag(top, 0x8000_0000_0000_0000), if top then 1 else 0;
    DivModUnique(w, 0x10_0000_0000_0000, 0x800 * f, low + 0x1000 * k);
    DivModUnique(w, 0x8000_0000_0000_0000, f, low + 0x1000 * k);
    PageAndOffset(0x1000 * k, low);
  }

  /** Bit arithmetic on the word is record update on the entry. */
  lemma WordUpdates(e: Entry)
    requires Encodable(e)
    ensures SetBit(Encode(e), 1) == Encode(e.(present := true))
    ensures SetBit(Encode(e), 2) == Encode(e.(writeable := true))
    ensures SetBit(Encode(e), 4) == Encode(e.(user := true))
    ensures SetBit(Encode(e), 0x8000_0000_0000_0000) == Encode(e.(noexec := true))
    ensures ClearBit(Encode(e), 0x8000_0000_0000_0000) == Encode(e.(noexec := false))
  {
    WordFields(e);
  }

  /** create_entry writes the word of CreateEntry. */
  lemma CreateEntryRefines(guestNext: nat, opts: Opts)
    requires guestNext < 0x10_0000_0000_0000
    ensures CreateEntryWord(guestNext, opts) == Encode(CreateEntry(guestNext, opts))
  {
    var base := EMPTY.(addr := PageBegin(guestNext));
    var user := base.(user := true);
    var write := user.(writeable := opts.write);
    var nxe := write.(noexec := !opts.exec);
    WordUpdates(base);
    WordUpdates(user);
    WordUpdates(write);
    WordUpdates(nxe);
  }

  /** update_entry turns the word of a present entry into the word of RaiseEntry. */
  lemma UpdateEntryRefines(e: Entry, opts: Opts)
    requires Encodable(e)
    ensures UpdateEntryWord(Encode(e), opts) == Encode(RaiseEntry(e, opts))
  {
    WordUpdates(e);
    WordUpdates(e.(writeable := e.writeable || opts.write));
  }
}
