/** The four-level page table built in the bump-allocated pool (src/pager.cc: the two walks,
    update_entry, create_table). The pool is a sequence of 512-entry tables, table 0 being
    the PML4; the table at index t lies at guest-physical address base + 0x1000 * t. */
module PageTables {
  import opened PageArith
  import opened PageEntry

  type Table = seq<Entry>

  datatype PT = PT(base: nat, tables: seq<Table>)

  function EmptyTable(): Table { seq(512, i => EMPTY) }

  /** The entry in slot i of table t; what lies outside the pool counts as not present. */
  function EntryAt(s: PT, t: int, i: nat): Entry {
    if 0 <= t < |s.tables| && i < |s.tables[t]| then s.tables[t][i] else EMPTY
  }

  /** find_next_table, as a pool index; -1 is NULL. */
  function NextTable(s: PT, e: Entry): int {
    if e.present then (e.addr - s.base) / 0x1000 else -1
  }

  /** The table of `level` on the path of page number v; -1 when the path ends above it. */
  function TableOf(s: PT, v: nat, level: nat): int
    requires level <= 3
    decreases 3 - level
  {
    if level == 3 then 0 else NextTable(s, EntryAt(s, TableOf(s, v, level + 1), Digit(v, level + 1)))
  }

  /** The entry of `level` on the path of v. */
  function PathEntry(s: PT, v: nat, level: nat): Entry
    requires level <= 3
  {
    EntryAt(s, TableOf(s, v, level), Digit(v, level))
  }

  /** What page_table_walk returns: the entry of v in its page table. */
  function Leaf(s: PT, v: nat): Entry { PathEntry(s, v, 0) }

  // ----- updates

  function SetEntry(s: PT, t: int, i: nat, e: Entry): PT
    requires 0 <= t < |s.tables| && i < |s.tables[t]|
  {
    s.(tables := s.tables[t := s.tables[t][i := e]])
  }

  /** create_table: zero the next free pool page, move the pool pointer, point the entry at it. */
  function CreateTable(s: PT, t: int, i: nat, opts: Opts): PT
    requires 0 <= t < |s.tables| && i < |s.tables[t]|
  {
    SetEntry(s.(tables := s.tables + [EmptyTable()]), t, i, CreateEntry(s.base + 0x1000 * |s.tables|, opts))
  }

  /** update_entry */
  function UpdateEntry(s: PT, t: int, i: nat, opts: Opts): PT {
    if !(0 <= t < |s.tables| && i < |s.tables[t]|) then s
    else
      var s1 := if EntryAt(s, t, i).present then s else CreateTable(s, t, i, opts);
      SetEntry(s1, t, i, RaiseEntry(s1.tables[t][i], opts))
  }

  /** page_table_walk_create, down to and including the entry above `level`. */
  function WalkCreate(s: PT, v: nat, opts: Opts, level: nat): PT
    requires level <= 3
    decreases 3 - level
  {
    if level == 3 then s
    else
      var s1 := WalkCreate(s, v, opts, level + 1);
      UpdateEntry(s1, TableOf(s1, v, level + 1), Digit(v, level + 1), opts)
  }

  // ----- the invariant

  /** For every pool table its level, and for every table but the PML4 the one slot that
      refers to it. */
  datatype Shape = Shape(level: seq<nat>, parent: seq<(nat, nat)>)

  ghost predicate ChildOk(s: PT, sh: Shape, t: nat, i: nat)
    requires |s.tables| == |sh.level| == |sh.parent| && t < |s.tables|
  {
    var e := EntryAt(s, t, i);
    var c := NextTable(s, e);
    1 <= c < |s.tables| && e.addr == s.base + 0x1000 * c && sh.level[c] + 1 == sh.level[t] && sh.parent[c] == (t, i)
  }

  ghost predicate ParentOk(s: PT, sh: Shape, c: nat)
    requires |s.tables| == |sh.level| == |sh.parent| && c < |s.tables|
  {
    var (t, i) := sh.parent[c];
    t < c && i < 512 && EntryAt(s, t, i).present && NextTable(s, EntryAt(s, t, i)) == c
    && sh.level[t] == sh.level[c] + 1
  }

  /** The tables form a tree of depth four rooted in table 0. */
  ghost predicate Tree(s: PT, sh: Shape) {
    && |s.tables| == |sh.level| == |sh.parent|
    && |s.tables| > 0
    && s.base % 0x1000 == 0
    && sh.level[0] == 3
    && (forall t | 0 <= t < |s.tables| :: |s.tables[t]| == 512)
    && (forall t: nat, i: nat | t < |s.tables| && sh.level[t] > 0 && EntryAt(s, t, i).present :: ChildOk(s, sh, t, i))
    && (forall c: nat | 1 <= c < |s.tables| :: ParentOk(s, sh, c))
  }

  /** `up` grants at least what `e` grants. */
  predicate Covers(up: Entry, e: Entry) {
    up.user && (e.writeable ==> up.writeable) && (up.noexec ==> e.noexec)
  }

  predicate CoversOpts(up: Entry, opts: Opts) {
    up.user && (opts.write ==> up.writeable) && (up.noexec ==> !opts.exec)
  }

  /** Every entry is covered by the entry that refers to its table. */
  ghost predicate Permissive(s: PT, sh: Shape)
    requires |s.tables| == |sh.level| == |sh.parent|
  {
    forall c: nat, j: nat | 1 <= c < |s.tables| && EntryAt(s, c, j).present ::
      Covers(EntryAt(s, sh.parent[c].0, sh.parent[c].1), EntryAt(s, c, j))
  }

  ghost predicate UserBits(s: PT) {
    forall t: nat, i: nat | EntryAt(s, t, i).present :: EntryAt(s, t, i).user
  }

  ghost predicate Good(s: PT, sh: Shape) {
    Tree(s, sh) && Permissive(s, sh) && UserBits(s)
  }

  /** The page-table invariant. */
  ghost predicate Inv(s: PT) { exists sh :: Good(s, sh) }

  // ----- the tree

  lemma {:induction false} TableLevel(s: PT, sh: Shape, v: nat, level: nat)
    requires Tree(s, sh) && level <= 3
    ensures var t := TableOf(s, v, level);
            t == -1 || (0 <= t < |s.tables| && sh.level[t] == level)
    decreases 3 - level
  {
    if level < 3 {
      TableLevel(s, sh, v, level + 1);
      var t := TableOf(s, v, level + 1);
      if t >= 0 && PathEntry(s, v, level + 1).present {
        assert ChildOk(s, sh, t, Digit(v, level + 1));
      }
    }
  }

  lemma TableParent(s: PT, sh: Shape, v: nat, level: nat)
    requires Tree(s, sh) && level < 3 && TableOf(s, v, level) >= 0
    ensures var c := TableOf(s, v, level);
            1 <= c < |s.tables| && TableOf(s, v, level + 1) >= 0 && PathEntry(s, v, level + 1).present
            && sh.parent[c] == (TableOf(s, v, level + 1), Digit(v, level + 1))
  {
    TableLevel(s, sh, v, level + 1);
    TableLevel(s, sh, v, level);
    assert ChildOk(s, sh, TableOf(s, v, level + 1), Digit(v, level + 1));
  }

  /** Two pages that share a table of some level agree on every index above it. */
  lemma {:induction false} PathUnique(s: PT, sh: Shape, v: nat, u: nat, level: nat)
    requires Tree(s, sh) && level <= 3 && TableOf(s, v, level) == TableOf(s, u, level) >= 0
    ensures forall k | level < k <= 3 :: Digit(v, k) == Digit(u, k)
    decreases 3 - level
  {
    if level < 3 {
      TableParent(s, sh, v, level);
      TableParent(s, sh, u, level);
      PathUnique(s, sh, v, u, level + 1);
    }
  }

  lemma {:induction false} SameUpperDigits(s: PT, v: nat, u: nat, level: nat)
    requires level <= 3 && forall k | level < k <= 3 :: Digit(v, k) == Digit(u, k)
    ensures TableOf(s, v, level) == TableOf(s, u, level)
    decreases 3 - level
  {
    if level < 3 {
      SameUpperDigits(s, v, u, level + 1);
    }
  }

  // ----- raising the rights of a present upper entry

  lemma SetEntryAt(s: PT, t: int, i: nat, e: Entry, t': int, i': nat)
    requires 0 <= t < |s.tables| && i < |s.tables[t]|
    ensures EntryAt(SetEntry(s, t, i, e), t', i') == if t' == t && i' == i then e else EntryAt(s, t', i')
  {
  }

  lemma {:induction false} RaiseTables(s: PT, t: int, i: nat, opts: Opts, u: nat, level: nat)
    requires 0 <= t < |s.tables| && i < |s.tables[t]| && level <= 3
    ensures TableOf(SetEntry(s, t, i, RaiseEntry(s.tables[t][i], opts)), u, level) == TableOf(s, u, level)
    decreases 3 - level
  {
    if level < 3 {
      RaiseTables(s, t, i, opts, u, level + 1);
    }
  }

  /** The slot that refers to table t already grants opts. */
  ghost predicate ParentCovers(s: PT, sh: Shape, t: nat, opts: Opts)
    requires t < |sh.parent|
  {
    t > 0 ==> CoversOpts(EntryAt(s, sh.parent[t].0, sh.parent[t].1), opts)
  }

  /** A change of one entry that keeps its presence and address keeps the tree. */
  lemma SetTree(s: PT, sh: Shape, t: nat, i: nat, e: Entry)
    requires Tree(s, sh) && t < |s.tables| && i < 512
    requires sh.level[t] > 0 ==> e.present == EntryAt(s, t, i).present && e.addr == EntryAt(s, t, i).addr
    ensures Tree(SetEntry(s, t, i, e), sh)
  {
    hide SetEntry, EntryAt;
    SetEntries(s, t, i, e);
    var s' := SetEntry(s, t, i, e);
    forall t': nat, i': nat | t' < |s'.tables| && sh.level[t'] > 0 && EntryAt(s', t', i').present
      ensures ChildOk(s', sh, t', i')
    {
      assert ChildOk(s, sh, t', i');
    }
    forall c: nat | 1 <= c < |s'.tables| ensures ParentOk(s', sh, c) {
      assert ParentOk(s, sh, c);
      var up := EntryAt(s', sh.parent[c].0, sh.parent[c].1);
      assert up.present && up.addr == EntryAt(s, sh.parent[c].0, sh.parent[c].1).addr;
    }
  }

  lemma SetEntries(s: PT, t: nat, i: nat, e: Entry)
    requires t < |s.tables| && i < |s.tables[t]| && forall t' | 0 <= t' < |s.tables| :: |s.tables[t']| == 512
    ensures var s' := SetEntry(s, t, i, e);
            && s'.base == s.base && |s'.tables| == |s.tables|
            && (forall t' | 0 <= t' < |s'.tables| :: |s'.tables[t']| == 512)
            && forall t': nat, i': nat :: EntryAt(s', t', i') == if t' == t && i' == i then e else EntryAt(s, t', i')
  {
    var s' := SetEntry(s, t, i, e);
    forall t': nat, i': nat ensures EntryAt(s', t', i') == if t' == t && i' == i then e else EntryAt(s, t', i') {
      SetEntryAt(s, t, i, e, t', i');
    }
  }

  lemma RaiseGood(s: PT, sh: Shape, t: nat, i: nat, opts: Opts)
    requires Good(s, sh) && t < |s.tables| && i < 512 && sh.level[t] > 0 && EntryAt(s, t, i).present
    requires ParentCovers(s, sh, t, opts)
    ensures Good(SetEntry(s, t, i, RaiseEntry(s.tables[t][i], opts)), sh)
  {
    hide SetEntry, NextTable;
    var s' := SetEntry(s, t, i, RaiseEntry(s.tables[t][i], opts));
    SetTree(s, sh, t, i, RaiseEntry(s.tables[t][i], opts));
    SetEntries(s, t, i, RaiseEntry(s.tables[t][i], opts));
    forall c: nat, j: nat | 1 <= c < |s'.tables| && EntryAt(s', c, j).present
      ensures Covers(EntryAt(s', sh.parent[c].0, sh.parent[c].1), EntryAt(s', c, j))
    {
      assert Covers(EntryAt(s, sh.parent[c].0, sh.parent[c].1), EntryAt(s, c, j));
    }
  }

  // ----- a new table below an empty upper entry

  lemma CreateEntryAt(s: PT, t: int, i: nat, opts: Opts, t': int, i': nat)
    requires 0 <= t < |s.tables| && i < |s.tables[t]|
    ensures EntryAt(CreateTable(s, t, i, opts), t', i') ==
            if t' == t && i' == i then CreateEntry(s.base + 0x1000 * |s.tables|, opts) else EntryAt(s, t', i')
  {
  }

  /** A new table changes no path, except that one path now ends in the new table. */
  lemma {:induction false} CreateTables(s: PT, sh: Shape, t: nat, i: nat, opts: Opts, u: nat, level: nat)
    requires Tree(s, sh) && t < |s.tables| && i < 512 && sh.level[t] > 0 && !EntryAt(s, t, i).present && level <= 3
    ensures TableOf(CreateTable(s, t, i, opts), u, level) ==
            if level < 3 && level + 1 == sh.level[t] && TableOf(s, u, level + 1) == t && Digit(u, level + 1) == i
            then |s.tables| else TableOf(s, u, level)
    decreases 3 - level
  {
    if level < 3 {
      var s' := CreateTable(s, t, i, opts);
      CreateTables(s, sh, t, i, opts, u, level + 1);
      TableLevel(s, sh, u, level + 1);
      var t1, t1' := TableOf(s, u, level + 1), TableOf(s', u, level + 1);
      CreateEntryAt(s, t, i, opts, t1', Digit(u, level + 1));
      if t1' != t1 {
        assert t1' == |s.tables| && t1 == -1;
      } else if t1 == t && Digit(u, level + 1) == i {
        assert NextTable(s', CreateEntry(s.base + 0x1000 * |s.tables|, opts)) == |s.tables|;
      }
    }
  }

  function GrowShape(sh: Shape, t: nat, i: nat): Shape
    requires t < |sh.level| && sh.level[t] > 0
  {
    Shape(sh.level + [sh.level[t] - 1], sh.parent + [(t, i)])
  }

  lemma CreateEntries(s: PT, t: nat, i: nat, opts: Opts)
    requires t < |s.tables| && i < |s.tables[t]| && forall t' | 0 <= t' < |s.tables| :: |s.tables[t']| == 512
    ensures var s', e := CreateTable(s, t, i, opts), CreateEntry(s.base + 0x1000 * |s.tables|, opts);
            && s'.base == s.base && |s'.tables| == |s.tables| + 1
            && (forall t' | 0 <= t' < |s'.tables| :: |s'.tables[t']| == 512)
            && forall t': nat, i': nat :: EntryAt(s', t', i') == if t' == t && i' == i then e else EntryAt(s, t', i')
  {
    var s', e := CreateTable(s, t, i, opts), CreateEntry(s.base + 0x1000 * |s.tables|, opts);
    forall t': nat, i': nat ensures EntryAt(s', t', i') == if t' == t && i' == i then e else EntryAt(s, t', i') {
      CreateEntryAt(s, t, i, opts, t', i');
    }
  }

  lemma CreateTree(s: PT, sh: Shape, t: nat, i: nat, opts: Opts)
    requires Tree(s, sh) && t < |s.tables| && i < 512 && sh.level[t] > 0 && !EntryAt(s, t, i).present
    ensures Tree(CreateTable(s, t, i, opts), GrowShape(sh, t, i))
  {
    hide CreateTable, EntryAt;
    CreateEntries(s, t, i, opts);
    NoEntryBeyond(s);
    var s', sh' := CreateTable(s, t, i, opts), GrowShape(sh, t, i);
    forall t': nat, i': nat | t' < |s'.tables| && sh'.level[t'] > 0 && EntryAt(s', t', i').present
      ensures ChildOk(s', sh', t', i')
    {
      if !(t' == t && i' == i) {
        assert ChildOk(s, sh, t', i');
      }
    }
    forall c: nat | 1 <= c < |s'.tables| ensures ParentOk(s', sh', c) {
      if c < |s.tables| {
        assert ParentOk(s, sh, c);
        assert EntryAt(s', sh.parent[c].0, sh.parent[c].1) == EntryAt(s, sh.parent[c].0, sh.parent[c].1);
      }
    }
  }

  /** Beyond the tables there are no present entries. */
  lemma NoEntryBeyond(s: PT)
    ensures forall t: nat, i: nat | t >= |s.tables| :: !EntryAt(s, t, i).present
  {
  }

  lemma CreateGood(s: PT, sh: Shape, t: nat, i: nat, opts: Opts)
    requires Good(s, sh) && t < |s.tables| && i < 512 && sh.level[t] > 0 && !EntryAt(s, t, i).present
    requires ParentCovers(s, sh, t, opts)
    ensures Good(CreateTable(s, t, i, opts), GrowShape(sh, t, i))
  {
    hide CreateTable, EntryAt, NextTable;
    CreateTree(s, sh, t, i, opts);
    CreateEntries(s, t, i, opts);
    NoEntryBeyond(s);
    var s', sh' := CreateTable(s, t, i, opts), GrowShape(sh, t, i);
    forall c: nat, j: nat | 1 <= c < |s'.tables| && EntryAt(s', c, j).present
      ensures Covers(EntryAt(s', sh'.parent[c].0, sh'.parent[c].1), EntryAt(s', c, j))
    {
      assert ParentOk(s, sh, c);
      if !(c == t && j == i) {
        assert Covers(EntryAt(s, sh.parent[c].0, sh.parent[c].1), EntryAt(s, c, j));
      }
    }
  }

  // ----- update_entry and the creating walk

  /** `s'` answers every walk as `s` does, and may have grown the pool. */
  ghost predicate Extends(s: PT, s': PT) {
    && s'.base == s.base
    && |s.tables| <= |s'.tables|
    && (forall u :: Leaf(s', u) == Leaf(s, u))
    && (forall u, k | 0 <= k <= 3 && TableOf(s, u, k) >= 0 :: TableOf(s', u, k) == TableOf(s, u, k))
  }

  lemma CreateExtends(s: PT, sh: Shape, t: nat, i: nat, opts: Opts)
    requires Tree(s, sh) && t < |s.tables| && i < 512 && sh.level[t] > 0 && !EntryAt(s, t, i).present
    ensures Extends(s, CreateTable(s, t, i, opts))
  {
    var s' := CreateTable(s, t, i, opts);
    forall u, k | 0 <= k <= 3 && TableOf(s, u, k) >= 0 ensures TableOf(s', u, k) == TableOf(s, u, k) {
      CreateTables(s, sh, t, i, opts, u, k);
    }
    forall u ensures Leaf(s', u) == Leaf(s, u) {
      CreateTables(s, sh, t, i, opts, u, 0);
      TableLevel(s, sh, u, 0);
      CreateEntryAt(s, t, i, opts, TableOf(s', u, 0), Digit(u, 0));
    }
  }

  lemma RaiseExtends(s: PT, sh: Shape, t: nat, i: nat, opts: Opts)
    requires Tree(s, sh) && t < |s.tables| && i < 512 && sh.level[t] > 0 && EntryAt(s, t, i).present
    ensures Extends(s, SetEntry(s, t, i, RaiseEntry(s.tables[t][i], opts)))
  {
    var s' := SetEntry(s, t, i, RaiseEntry(s.tables[t][i], opts));
    forall u, k | 0 <= k <= 3 && TableOf(s, u, k) >= 0 ensures TableOf(s', u, k) == TableOf(s, u, k) {
      RaiseTables(s, t, i, opts, u, k);
    }
    forall u ensures Leaf(s', u) == Leaf(s, u) {
      RaiseTables(s, t, i, opts, u, 0);
      TableLevel(s, sh, u, 0);
    }
  }

  lemma {:induction false} ExtendsTrans(a: PT, b: PT, c: PT)
    requires Extends(a, b) && Extends(b, c)
    ensures Extends(a, c)
  {
    forall u ensures Leaf(c, u) == Leaf(a, u) {
      assert Leaf(b, u) == Leaf(a, u);
    }
  }

  /** One level of the creating walk. */
  lemma UpdateKeeps(s: PT, sh: Shape, v: nat, level: nat, opts: Opts) returns (sh': Shape)
    requires Good(s, sh) && 1 <= level <= 3 && TableOf(s, v, level) >= 0
    requires TableOf(s, v, level) < |sh.parent| && ParentCovers(s, sh, TableOf(s, v, level), opts)
    ensures var s' := UpdateEntry(s, TableOf(s, v, level), Digit(v, level), opts);
            && Good(s', sh') && Extends(s, s') && 0 <= TableOf(s', v, level - 1) < |s'.tables|
            && |s'.tables| == |s.tables| + (if PathEntry(s, v, level).present then 0 else 1)
            && ParentCovers(s', sh', TableOf(s', v, level - 1), opts)
  {
    TableLevel(s, sh, v, level);
    var t, i := TableOf(s, v, level), Digit(v, level);
    var s1, sh1 := s, sh;
    if !EntryAt(s, t, i).present {
      s1, sh1 := CreateTable(s, t, i, opts), GrowShape(sh, t, i);
      CreateGood(s, sh, t, i, opts);
      CreateExtends(s, sh, t, i, opts);
      CreateTables(s, sh, t, i, opts, v, level - 1);
      assert ParentCovers(s1, sh1, t, opts) by {
        if t > 0 {
          assert ParentOk(s, sh, t);
          CreateEntryAt(s, t, i, opts, sh.parent[t].0, sh.parent[t].1);
        }
      }
    }
    sh' := sh1;
    RaiseGood(s1, sh1, t, i, opts);
    RaiseExtends(s1, sh1, t, i, opts);
    var s' := SetEntry(s1, t, i, RaiseEntry(s1.tables[t][i], opts));
    ExtendsTrans(s, s1, s');
    assert TableOf(s1, v, level) == t;
    assert TableOf(s', v, level) == t;
    assert TableOf(s', v, level - 1) == NextTable(s', EntryAt(s', t, i));
    assert ChildOk(s', sh1, t, i);
  }

  lemma PathStays(s: PT, sh: Shape, s1: PT, sh1: Shape, v: nat, level: nat)
    requires Tree(s, sh) && Tree(s1, sh1) && Extends(s, s1) && level < 3 && TableOf(s, v, level) >= 0
    ensures PathEntry(s1, v, level + 1).present && TableOf(s, v, level + 1) >= 0
  {
    TableParent(s, sh, v, level);
    assert TableOf(s1, v, level) >= 0;
    TableParent(s1, sh1, v, level);
  }

  /** What the creating walk has achieved when it stands at `level` on the path of v: the
      invariant and every answer are kept, the path reaches that level, every entry above it
      grants opts, and pool pages were taken only for missing levels. */
  ghost predicate Walked(s: PT, s': PT, sh': Shape, v: nat, opts: Opts, level: nat)
    requires level <= 3
  {
    && Good(s', sh') && Extends(s, s') && 0 <= TableOf(s', v, level) < |s'.tables|
    && |s.tables| <= |s'.tables| <= |s.tables| + (3 - level)
    && (TableOf(s, v, level) >= 0 ==> |s'.tables| == |s.tables|)
    && ParentCovers(s', sh', TableOf(s', v, level), opts)
  }

  lemma WalkStep(s: PT, sh: Shape, s1: PT, sh1: Shape, v: nat, opts: Opts, level: nat) returns (sh': Shape)
    requires Good(s, sh) && level < 3 && Walked(s, s1, sh1, v, opts, level + 1)
    ensures Walked(s, UpdateEntry(s1, TableOf(s1, v, level + 1), Digit(v, level + 1), opts), sh', v, opts, level)
  {
    var s' := UpdateEntry(s1, TableOf(s1, v, level + 1), Digit(v, level + 1), opts);
    sh' := UpdateKeeps(s1, sh1, v, level + 1, opts);
    ExtendsTrans(s, s1, s');
    if TableOf(s, v, level) >= 0 {
      PathStays(s, sh, s1, sh1, v, level);
    }
  }

  lemma {:induction false} WalkCreateKeeps(s: PT, sh: Shape, v: nat, opts: Opts, level: nat) returns (sh': Shape)
    requires Good(s, sh) && level <= 3
    ensures Walked(s, WalkCreate(s, v, opts, level), sh', v, opts, level)
    decreases 3 - level
  {
    if level == 3 {
      sh' := sh;
    } else {
      var s1 := WalkCreate(s, v, opts, level + 1);
      var sh1 := WalkCreateKeeps(s, sh, v, opts, level + 1);
      sh' := WalkStep(s, sh, s1, sh1, v, opts, level);
    }
  }

  // ----- the page table entry itself

  /** Store e in the page table entry of v, as create_entry and free_page do. */
  function SetLeaf(s: PT, v: nat, e: Entry): PT {
    var t, i := TableOf(s, v, 0), Digit(v, 0);
    if 0 <= t < |s.tables| && i < |s.tables[t]| then SetEntry(s, t, i, e) else s
  }

  /** `s'` differs from `s` in the answer for page v at most. */
  ghost predicate OnlyAt(s: PT, s': PT, v: nat) {
    && s'.base == s.base
    && |s'.tables| >= |s.tables|
    && (forall u: nat | u < 0x10_0000_0000 && u != v :: Leaf(s', u) == Leaf(s, u))
    && (forall u: nat, k | 0 <= k <= 3 && TableOf(s, u, k) >= 0 :: TableOf(s', u, k) == TableOf(s, u, k))
  }

  lemma {:induction false} SetLeafTables(s: PT, sh: Shape, v: nat, e: Entry, u: nat, level: nat)
    requires Tree(s, sh) && TableOf(s, v, 0) >= 0 && level <= 3
    ensures TableOf(SetLeaf(s, v, e), u, level) == TableOf(s, u, level)
    decreases 3 - level
  {
    if level < 3 {
      SetLeafTables(s, sh, v, e, u, level + 1);
      TableLevel(s, sh, v, 0);
      TableLevel(s, sh, u, level + 1);
    }
  }

  lemma SetLeafGood(s: PT, sh: Shape, v: nat, e: Entry)
    requires Good(s, sh) && 0 <= TableOf(s, v, 0) < |sh.parent|
    requires e.present ==> e.user && ParentCovers(s, sh, TableOf(s, v, 0), Opts(e.writeable, !e.noexec))
    ensures Good(SetLeaf(s, v, e), sh)
  {
    hide SetEntry, NextTable, TableOf, EntryAt, Digit;
    TableLevel(s, sh, v, 0);
    var t, i, s' := TableOf(s, v, 0), Digit(v, 0), SetLeaf(s, v, e);
    SetTree(s, sh, t, i, e);
    SetEntries(s, t, i, e);
    forall c: nat, j: nat | 1 <= c < |s'.tables| && EntryAt(s', c, j).present
      ensures Covers(EntryAt(s', sh.parent[c].0, sh.parent[c].1), EntryAt(s', c, j))
    {
      assert ParentOk(s, sh, c);
      if !(c == t && j == i) {
        assert Covers(EntryAt(s, sh.parent[c].0, sh.parent[c].1), EntryAt(s, c, j));
      }
    }
  }

  /** Two pages never share a page table entry. */
  lemma LeafSlotUnique(s: PT, sh: Shape, v: nat, u: nat)
    requires Tree(s, sh) && v < 0x10_0000_0000 && u < 0x10_0000_0000
    requires TableOf(s, v, 0) == TableOf(s, u, 0) >= 0 && Digit(v, 0) == Digit(u, 0)
    ensures v == u
  {
    PathUnique(s, sh, v, u, 0);
    DigitsInjective(v, u);
  }

  lemma SetLeafOther(s: PT, sh: Shape, v: nat, e: Entry, u: nat)
    requires Tree(s, sh) && TableOf(s, v, 0) >= 0 && v < 0x10_0000_0000 && u < 0x10_0000_0000
    ensures Leaf(SetLeaf(s, v, e), u) == if u == v then e else Leaf(s, u)
  {
    TableLevel(s, sh, v, 0);
    SetLeafTables(s, sh, v, e, u, 0);
    SetEntryAt(s, TableOf(s, v, 0), Digit(v, 0), e, TableOf(s, u, 0), Digit(u, 0));
    if TableOf(s, u, 0) == TableOf(s, v, 0) && Digit(u, 0) == Digit(v, 0) {
      LeafSlotUnique(s, sh, v, u);
    }
  }

  lemma SetLeafOnly(s: PT, sh: Shape, v: nat, e: Entry)
    requires Tree(s, sh) && TableOf(s, v, 0) >= 0 && v < 0x10_0000_0000
    ensures Leaf(SetLeaf(s, v, e), v) == e && OnlyAt(s, SetLeaf(s, v, e), v)
  {
    var s' := SetLeaf(s, v, e);
    SetLeafOther(s, sh, v, e, v);
    forall u: nat, k | 0 <= k <= 3 && TableOf(s, u, k) >= 0 ensures TableOf(s', u, k) == TableOf(s, u, k) {
      SetLeafTables(s, sh, v, e, u, k);
    }
    forall u: nat | u < 0x10_0000_0000 && u != v ensures Leaf(s', u) == Leaf(s, u) {
      SetLeafOther(s, sh, v, e, u);
    }
  }

  // ----- the operations

  datatype MapResult = MapResult(pt: PT, ok: bool)

  /** map_user_page below its address checks: never re-point a present entry. */
  function MapPage(s: PT, v: nat, frame: nat, opts: Opts): MapResult {
    var s1 := WalkCreate(s, v, opts, 0);
    if Leaf(s1, v).present && Leaf(s1, v).addr != PageBegin(frame) then MapResult(s1, false)
    else MapResult(SetLeaf(s1, v, CreateEntry(frame, opts)), true)
  }

  /** free_page */
  function FreePage(s: PT, v: nat): MapResult {
    if Leaf(s, v).present then MapResult(SetLeaf(s, v, EMPTY), true) else MapResult(s, false)
  }

  /** page_table_walk_create alone changes no answer. */
  lemma WalkCreateRefines(s: PT, v: nat, opts: Opts)
    requires Inv(s)
    ensures var s' := WalkCreate(s, v, opts, 0);
            && Inv(s') && Extends(s, s') && 0 <= TableOf(s', v, 0) < |s'.tables|
            && |s'.tables| <= |s.tables| + 3
            && (TableOf(s, v, 0) >= 0 ==> |s'.tables| == |s.tables|)
  {
    var sh :| Good(s, sh);
    var sh' := WalkCreateKeeps(s, sh, v, opts, 0);
  }

  lemma ExtendsOnlyAt(a: PT, b: PT, c: PT, v: nat)
    requires Extends(a, b) && OnlyAt(b, c, v)
    ensures OnlyAt(a, c, v)
  {
    forall u: nat | u < 0x10_0000_0000 && u != v ensures Leaf(c, u) == Leaf(a, u) {
      assert Leaf(b, u) == Leaf(a, u);
    }
  }

  lemma StoreLeaf(s: PT, sh: Shape, v: nat, frame: nat, opts: Opts)
    requires Good(s, sh) && v < 0x10_0000_0000 && 0 <= TableOf(s, v, 0) < |s.tables|
    requires ParentCovers(s, sh, TableOf(s, v, 0), opts)
    ensures var s' := SetLeaf(s, v, CreateEntry(frame, opts));
            Good(s', sh) && OnlyAt(s, s', v) && Leaf(s', v) == CreateEntry(frame, opts)
            && |s'.tables| == |s.tables| && TableOf(s', v, 0) == TableOf(s, v, 0)
  {
    SetLeafGood(s, sh, v, CreateEntry(frame, opts));
    SetLeafOnly(s, sh, v, CreateEntry(frame, opts));
  }

  /** A successful map sets the answer of page v, a failed one sets none; failure is exactly
      a present entry with another frame. */
  lemma MapPageRefines(s: PT, v: nat, frame: nat, opts: Opts)
    requires Inv(s) && v < 0x10_0000_0000
    ensures var r := MapPage(s, v, frame, opts);
            && Inv(r.pt) && OnlyAt(s, r.pt, v) && |r.pt.tables| <= |s.tables| + 3
            && (r.ok <==> Leaf(s, v).present ==> Leaf(s, v).addr == PageBegin(frame))
            && Leaf(r.pt, v) == (if r.ok then CreateEntry(frame, opts) else Leaf(s, v))
            && TableOf(r.pt, v, 0) >= 0
            && (TableOf(s, v, 0) >= 0 ==> |r.pt.tables| == |s.tables|)
  {
    var sh :| Good(s, sh);
    var s1 := WalkCreate(s, v, opts, 0);
    var sh1 := WalkCreateKeeps(s, sh, v, opts, 0);
    var r := MapPage(s, v, frame, opts);
    assert Leaf(s1, v) == Leaf(s, v);
    if r.ok {
      StoreLeaf(s1, sh1, v, frame, opts);
      ExtendsOnlyAt(s, s1, r.pt, v);
    }
  }

  /** free_page removes exactly one answer, and fails exactly when there is none. */
  lemma FreePageRefines(s: PT, v: nat)
    requires Inv(s) && v < 0x10_0000_0000
    ensures var r := FreePage(s, v);
            && Inv(r.pt) && OnlyAt(s, r.pt, v) && |r.pt.tables| == |s.tables|
            && (r.ok <==> Leaf(s, v).present)
            && !Leaf(r.pt, v).present
  {
    var sh :| Good(s, sh);
    if Leaf(s, v).present {
      TableLevel(s, sh, v, 0);
      SetLeafGood(s, sh, v, EMPTY);
      SetLeafOnly(s, sh, v, EMPTY);
    }
  }

  // ----- rights (section 4.6 of the Intel SDM volume 3A: all four levels must grant an access)

  predicate EffectiveUser(s: PT, v: nat) { forall k: nat | k <= 3 :: PathEntry(s, v, k).user }
  predicate EffectiveWrite(s: PT, v: nat) { forall k: nat | k <= 3 :: PathEntry(s, v, k).writeable }
  predicate EffectiveExec(s: PT, v: nat) { forall k: nat | k <= 3 :: !PathEntry(s, v, k).noexec }

  lemma {:induction false} PathCovers(s: PT, sh: Shape, v: nat, level: nat)
    requires Good(s, sh) && Leaf(s, v).present && level <= 3
    ensures PathEntry(s, v, level).present && Covers(PathEntry(s, v, level), Leaf(s, v))
  {
    if level > 0 {
      PathCovers(s, sh, v, level - 1);
      TableLevel(s, sh, v, level - 1);
      TableParent(s, sh, v, level - 1);
      var c := TableOf(s, v, level - 1);
      assert Covers(EntryAt(s, sh.parent[c].0, sh.parent[c].1), EntryAt(s, c, Digit(v, level - 1)));
    }
  }

  /** The rights the processor computes over all four levels are those of the page table
      entry, which are the options of the page's last successful map. */
  lemma EffectiveRights(s: PT, v: nat)
    requires Inv(s) && Leaf(s, v).present
    ensures EffectiveUser(s, v)
    ensures EffectiveWrite(s, v) <==> Leaf(s, v).writeable
    ensures EffectiveExec(s, v) <==> !Leaf(s, v).noexec
  {
    var sh :| Good(s, sh);
    forall k: nat | k <= 3 ensures Covers(PathEntry(s, v, k), Leaf(s, v)) {
      PathCovers(s, sh, v, k);
    }
    assert PathEntry(s, v, 0) == Leaf(s, v);
  }

  // ----- the pool

  /** A table is on the path of a page at one level only, and pages that meet in a table agree
      on every index above it: each table is referred to by one upper entry. */
  lemma TablesFormATree(s: PT, v: nat, u: nat, l: nat, k: nat)
    requires Inv(s) && l <= 3 && k <= 3 && TableOf(s, v, l) == TableOf(s, u, k) >= 0
    ensures l == k && forall j | l < j <= 3 :: Digit(v, j) == Digit(u, j)
  {
    var sh :| Good(s, sh);
    TableLevel(s, sh, v, l);
    TableLevel(s, sh, u, k);
    PathUnique(s, sh, v, u, l);
  }

  function WithDigit(v: nat, level: nat, d: nat): nat {
    if level == 0 then v - v % 512 + d else 512 * WithDigit(v / 512, level - 1, d) + v % 512
  }

  lemma {:induction false} WithDigitDigits(v: nat, level: nat, d: nat, k: nat)
    requires d < 512
    ensures Digit(WithDigit(v, level, d), k) == if k == level then d else Digit(v, k)
  {
    var w := WithDigit(v, level, d);
    if level == 0 {
      assert w / 512 == v / 512;
      assert k > 0 ==> Digit(w, k) == Digit(v, k);
    } else {
      assert w / 512 == WithDigit(v / 512, level - 1, d) && w % 512 == v % 512;
      if k > 0 {
        WithDigitDigits(v / 512, level - 1, d, k - 1);
      }
    }
  }

  /** No pool page is lost: every table is on the path of some page. */
  lemma {:induction false} EveryTableReached(s: PT, sh: Shape, t: nat) returns (v: nat)
    requires Tree(s, sh) && t < |s.tables|
    ensures sh.level[t] <= 3 && TableOf(s, v, sh.level[t]) == t
    decreases t
  {
    if t == 0 {
      v := 0;
    } else {
      assert ParentOk(s, sh, t);
      var (p, i) := sh.parent[t];
      var u := EveryTableReached(s, sh, p);
      v := WithDigit(u, sh.level[p], i);
      forall k | sh.level[p] < k <= 3 ensures Digit(v, k) == Digit(u, k) {
        WithDigitDigits(u, sh.level[p], i, k);
      }
      SameUpperDigits(s, v, u, sh.level[p]);
      WithDigitDigits(u, sh.level[p], i, sh.level[p]);
    }
  }

  // ----- the first state

  /** create_page_tables: a zeroed pool whose first page is the PML4. */
  function EmptyTables(base: nat): PT { PT(base, [EmptyTable()]) }

  lemma EmptyTablesInv(base: nat)
    requires base % 0x1000 == 0
    ensures Inv(EmptyTables(base)) && forall v :: !Leaf(EmptyTables(base), v).present
  {
    var s := EmptyTables(base);
    assert forall t: int, i: nat :: EntryAt(s, t, i) == EMPTY;
    assert Good(s, Shape([3], [(0, 0)]));
  }

  // ----- consecutive pages

  /** The next page of the same page table. */
  lemma SameTable(s: PT, v: nat)
    requires (v + 1) % 512 != 0
    ensures TableOf(s, v + 1, 0) == TableOf(s, v, 0) && Digit(v + 1, 0) == Digit(v, 0) + 1
  {
    assert (v + 1) / 512 == v / 512;
    assert forall k | 0 < k <= 3 :: Digit(v + 1, k) == Digit(v, k);
    SameUpperDigits(s, v + 1, v, 0);
  }

  // ----- facts for code that holds the tables

  /** Every step of a walk stays in the pool. */
  lemma PathInPool(s: PT, v: nat, level: nat)
    requires Inv(s) && level <= 3
    ensures |s.tables| > 0 && forall t | 0 <= t < |s.tables| :: |s.tables[t]| == 512
    ensures TableOf(s, v, level) == -1 || 0 <= TableOf(s, v, level) < |s.tables|
  {
    var sh :| Good(s, sh);
    TableLevel(s, sh, v, level);
  }

  lemma PathGoesOn(s: PT, v: nat, level: nat)
    requires Inv(s) && level < 3 && TableOf(s, v, level + 1) >= 0 && PathEntry(s, v, level + 1).present
    ensures TableOf(s, v, level) >= 0
  {
    var sh :| Good(s, sh);
    TableLevel(s, sh, v, level + 1);
    assert ChildOk(s, sh, TableOf(s, v, level + 1), Digit(v, level + 1));
  }

  /** A path that ends early has no page table entry. */
  lemma {:induction false} PathEnds(s: PT, v: nat, level: nat)
    requires level <= 3 && TableOf(s, v, level) == -1
    ensures TableOf(s, v, 0) == -1
  {
    if level > 0 {
      PathEnds(s, v, level - 1);
    }
  }

  /** The pool only grows along a creating walk. */
  lemma {:induction false} WalkCreateGrows(s: PT, v: nat, opts: Opts, level: nat, below: nat)
    requires below <= level <= 3
    ensures |WalkCreate(s, v, opts, level).tables| <= |WalkCreate(s, v, opts, below).tables|
  {
    if below < level {
      WalkCreateGrows(s, v, opts, level - 1, below);
    }
  }

  /** One step of the creating walk, as its loop sees it. */
  lemma WalkNext(s: PT, v: nat, opts: Opts, level: nat) returns (s1: PT, s': PT, t: int, t': int)
    requires Inv(s) && 1 <= level <= 3
    ensures s1 == WalkCreate(s, v, opts, level) && s' == WalkCreate(s, v, opts, level - 1)
    ensures t == TableOf(s1, v, level) && t' == TableOf(s', v, level - 1)
    ensures s' == UpdateEntry(s1, t, Digit(v, level), opts)
    ensures 0 <= t < |s1.tables| <= |s'.tables| && 0 <= t' < |s'.tables|
    ensures (forall k | 0 <= k < |s1.tables| :: |s1.tables[k]| == 512)
    ensures forall k | 0 <= k < |s'.tables| :: |s'.tables[k]| == 512
    ensures t' == NextTable(s', s'.tables[t][Digit(v, level)])
  {
    var sh :| Good(s, sh);
    s1, s' := WalkCreate(s, v, opts, level), WalkCreate(s, v, opts, level - 1);
    t, t' := TableOf(s1, v, level), TableOf(s', v, level - 1);
    var sh1 := WalkCreateKeeps(s, sh, v, opts, level);
    var sh' := UpdateKeeps(s1, sh1, v, level, opts);
    assert TableOf(s', v, level) == t;
  }
}
