/**
 Extended page tables as a whole: what the processor makes of them, when they
 form a tree, and what adding a table or writing an entry changes (x86/vmx.c).
 */
module EptTables {
  import opened Wrappers
  import opened EptWords

  // ----- the meaning of a set of tables -----

  /** Memory: page address to the 512 words of that page. */
  type Mem = map<nat, seq<nat>>

  /** A word of memory; pages that do not exist read as zero. */
  function Load(mem: Mem, p: nat, i: nat): nat {
    if p in mem && i < |mem[p]| then mem[p][i] else 0
  }

  /** Writes a word of an existing page. */
  function Store(mem: Mem, p: nat, i: nat, e: nat): Mem {
    if p in mem && i < |mem[p]| then
      var table: seq<nat> := mem[p][i := e];
      mem[p := table]
    else mem
  }

  datatype Translation = Translation(hpa: nat, perm: Perm)

  function Restrict(t: Option<Translation>, perm: Perm): Option<Translation> {
    if t.None? then None else Some(Translation(t.value.hpa, t.value.perm.Meet(perm)))
  }

  /** What the processor makes of guest address `g` from table `p` on: the
      physical address, and the permissions granted by every entry used. */
  function Walk(mem: Mem, p: nat, level: int, g: nat): Option<Translation>
    requires 1 <= level <= 4
    decreases level
  {
    var e := Load(mem, p, Index(g, level));
    if !Present(e) then None
    else if IsLeaf(e, level) then
      Some(Translation(LeafAddr(e, level, g), PermOf(e)))
    else if level == 1 then None
    else Restrict(Walk(mem, Addr(e), level - 1, g), PermOf(e))
  }

  /** The table that serves `g` at level `target`, when no entry above is missing or large. */
  function TableAt(mem: Mem, p: nat, level: int, target: int, g: nat): Option<nat>
    requires 1 <= level <= 4
    decreases level
  {
    if level <= target then Some(p)
    else
      var e := Load(mem, p, Index(g, level));
      if !Present(e) || IsLeaf(e, level) then None else TableAt(mem, Addr(e), level - 1, target, g)
  }

  /** The permissions that the entries above level `target` leave for `g`. */
  function PathPerm(mem: Mem, p: nat, level: int, target: int, g: nat): Perm
    requires 1 <= level <= 4
    decreases level
  {
    if level <= target then RWX
    else
      var e := Load(mem, p, Index(g, level));
      if !Present(e) then RWX
      else if IsLeaf(e, level) then PermOf(e)
      else PermOf(e).Meet(if level == 1 then RWX else PathPerm(mem, Addr(e), level - 1, target, g))
  }

  /** get_ept_pte: the entry for `g` at level `target`, if the way to it exists. */
  function EptPte(mem: Mem, root: nat, target: int, g: nat): Option<nat>
    requires 1 <= target <= 4
  {
    var pt := TableAt(mem, root, 4, target, g);
    if pt.None? then None else Some(Load(mem, pt.value, Index(g, target)))
  }

  /** Where the way down to level `target` breaks off: at a missing entry, at a large one, or not at all. */
  datatype Gap = NoGap | Missing(level: int) | LargeAt(level: int)

  function FirstGap(mem: Mem, p: nat, level: int, target: int, g: nat): Gap
    requires 1 <= target <= level <= 4
    decreases level
  {
    if level == target then NoGap
    else
      var e := Load(mem, p, Index(g, level));
      if !Present(e) then Missing(level)
      else if Large(e) then LargeAt(level)
      else FirstGap(mem, Addr(e), level - 1, target, g)
  }

  // ----- well-formed tables -----

  /** A table's place in the tree: its level and the region of the entry above it. */
  datatype Label = Label(level: int, region: nat)

  predicate EntryOk(tables: map<nat, Label>, place: Label, i: nat, e: nat)
    requires 1 <= place.level <= 4
  {
    || place.level == 1
    || !Present(e)
    || (IsLeaf(e, place.level) && Aligned(e, place.level))
    || (!Large(e) && Addr(e) in tables &&
        tables[Addr(e)] == Label(place.level - 1, place.region * EPT_PGDIR_ENTRIES + i))
  }

  predicate IsTable(mem: Mem, p: nat) {
    p in mem && |mem[p]| == EPT_PGDIR_ENTRIES && Addr(p) == p
  }

  ghost predicate WellFormed(mem: Mem, tables: map<nat, Label>) {
    && (forall p <- tables :: IsTable(mem, p) && 1 <= tables[p].level <= 4)
    && (forall p <- tables, i: nat :: i < EPT_PGDIR_ENTRIES ==> EntryOk(tables, tables[p], i, Load(mem, p, i)))
  }

  ghost predicate Serves(tables: map<nat, Label>, p: nat, level: int, g: nat)
    requires 1 <= level <= 4
  {
    p in tables && tables[p] == Label(level, Region(g, level + 1))
  }

  lemma ChildServes(mem: Mem, tables: map<nat, Label>, p: nat, level: int, g: nat)
    requires WellFormed(mem, tables) && 1 <= level <= 4 && Serves(tables, p, level, g)
    requires var e := Load(mem, p, Index(g, level)); Present(e) && !IsLeaf(e, level)
    ensures level > 1 && Serves(tables, Addr(Load(mem, p, Index(g, level))), level - 1, g)
  {
    RegionStep(g, level);
    assert EntryOk(tables, tables[p], Index(g, level), Load(mem, p, Index(g, level)));
  }

  /** `g` reads the same through table `p` in both memories, at every depth. */
  ghost predicate SameView(mem: Mem, mem': Mem, p: nat, level: int, g: nat)
    requires 1 <= level <= 4
  {
    && Walk(mem, p, level, g) == Walk(mem', p, level, g)
    && forall t :: 1 <= t <= 4 ==> PathPerm(mem, p, level, t, g) == PathPerm(mem', p, level, t, g)
  }

  /** Every guest address reads the same from `root` in both memories. */
  ghost predicate SameViews(mem: Mem, mem': Mem, root: nat) {
    forall a: nat :: a < GPA_LIMIT ==> SameView(mem, mem', root, 4, a)
  }

  lemma AtRoot(mem: Mem, root: nat, g: nat)
    ensures SameViews(mem, mem, root) && TableAt(mem, root, 4, 4, g) == Some(root)
  {}

  lemma SameViewsTrans(m0: Mem, m1: Mem, m2: Mem, root: nat)
    requires SameViews(m0, m1, root) && SameViews(m1, m2, root)
    ensures SameViews(m0, m2, root)
  {
    forall a: nat | a < GPA_LIMIT
      ensures SameView(m0, m2, root, 4, a)
    {
      assert SameView(m0, m1, root, 4, a) && SameView(m1, m2, root, 4, a);
    }
  }

  /** What installing `pte` for `g` at `level` means: the entry is there, addresses of its
      region translate through it, and all others as before. */
  ghost predicate Installed(mem: Mem, mem': Mem, root: nat, level: int, g: nat, pte: nat)
    requires 1 <= level <= 4
  {
    && EptPte(mem', root, level, g) == Some(pte)
    && (forall a: nat :: a < GPA_LIMIT && Region(a, level) != Region(g, level) ==> SameView(mem, mem', root, 4, a))
    && (forall a: nat :: Region(a, level) == Region(g, level) && !Present(pte) ==> Walk(mem', root, 4, a) == None)
    && (forall a: nat :: Region(a, level) == Region(g, level) && Present(pte) && IsLeaf(pte, level) ==>
          Walk(mem', root, 4, a) ==
            Some(Translation(LeafAddr(pte, level, a), PermOf(pte).Meet(PathPerm(mem, root, 4, level, g)))))
  }

  lemma InstalledAfter(m0: Mem, m1: Mem, m2: Mem, root: nat, level: int, g: nat, pte: nat)
    requires 1 <= level <= 4 && g < GPA_LIMIT
    requires SameViews(m0, m1, root) && Installed(m1, m2, root, level, g, pte)
    ensures Installed(m0, m2, root, level, g, pte)
  {
    hide Region, Size, Addr, PermOf, Present, Large, LeafAddr;
    assert SameView(m0, m1, root, 4, g);
    forall a: nat | a < GPA_LIMIT && Region(a, level) != Region(g, level)
      ensures SameView(m0, m2, root, 4, a)
    {
      assert SameView(m0, m1, root, 4, a) && SameView(m1, m2, root, 4, a);
    }
  }

  /** The two memories hold the same tables but for one entry. */
  ghost predicate DifferAt(mem: Mem, mem': Mem, tables: map<nat, Label>, p0: nat, i0: nat) {
    forall p <- tables, i: nat :: i < EPT_PGDIR_ENTRIES && (p != p0 || i != i0) ==> Load(mem, p, i) == Load(mem', p, i)
  }

  /** A one-entry change is seen only by the addresses that use the entry. */
  lemma {:induction false} ViewFrame(mem: Mem, mem': Mem, tables: map<nat, Label>, p: nat, level: int, g: nat, p0: nat,
                                     i0: nat)
    requires WellFormed(mem, tables) && 1 <= level <= 4 && Serves(tables, p, level, g)
    requires DifferAt(mem, mem', tables, p0, i0)
    requires p0 in tables
    requires var l0 := tables[p0].level;
             Serves(tables, p0, l0, g) && Index(g, l0) == i0 ==> SameView(mem, mem', p0, l0, g)
    ensures SameView(mem, mem', p, level, g)
    decreases level
  {
    var i := Index(g, level);
    if p == p0 && i == i0 {
    } else {
      var e := Load(mem, p, i);
      assert Load(mem', p, i) == e;
      if Present(e) && !IsLeaf(e, level) {
        ChildServes(mem, tables, p, level, g);
        ViewFrame(mem, mem', tables, Addr(e), level - 1, g, p0, i0);
      }
    }
  }

  /** A change at level `l0` or below leaves the way down to level `l0` as it was. */
  lemma {:induction false} PathFrame(mem: Mem, mem': Mem, tables: map<nat, Label>, p: nat, level: int, target: int,
                                     g: nat, p0: nat, i0: nat)
    requires WellFormed(mem, tables) && 1 <= level <= 4 && Serves(tables, p, level, g)
    requires DifferAt(mem, mem', tables, p0, i0)
    requires p0 in tables && tables[p0].level <= target
    ensures TableAt(mem, p, level, target, g) == TableAt(mem', p, level, target, g)
    ensures PathPerm(mem, p, level, target, g) == PathPerm(mem', p, level, target, g)
    decreases level
  {
    if level > target {
      var e := Load(mem, p, Index(g, level));
      assert Load(mem', p, Index(g, level)) == e;
      if Present(e) && !IsLeaf(e, level) {
        ChildServes(mem, tables, p, level, g);
        PathFrame(mem, mem', tables, Addr(e), level - 1, target, g, p0, i0);
      }
    }
  }

  /** Every address of a region reaches its entry through the same tables. */
  lemma {:induction false} WalkVia(mem: Mem, p: nat, level: int, target: int, g: nat, a: nat)
    requires 1 <= target <= level <= 4
    requires TableAt(mem, p, level, target, g).Some?
    requires Region(a, target) == Region(g, target)
    ensures var pt := TableAt(mem, p, level, target, g).value;
            Walk(mem, p, level, a) == Restrict(Walk(mem, pt, target, a), PathPerm(mem, p, level, target, g))
    decreases level
  {
    if level > target {
      SameRegionAbove(a, g, target, level);
      var e := Load(mem, p, Index(g, level));
      assert Index(a, level) == Index(g, level);
      WalkVia(mem, Addr(e), level - 1, target, g, a);
    }
  }

  lemma {:induction false} TableAtExtend(mem: Mem, p: nat, level: int, target: int, g: nat)
    requires 2 <= target <= level <= 4 && TableAt(mem, p, level, target, g).Some?
    requires var e := Load(mem, TableAt(mem, p, level, target, g).value, Index(g, target));
             Present(e) && !IsLeaf(e, target)
    ensures TableAt(mem, p, level, target - 1, g) ==
            Some(Addr(Load(mem, TableAt(mem, p, level, target, g).value, Index(g, target))))
    decreases level
  {
    if level > target {
      TableAtExtend(mem, Addr(Load(mem, p, Index(g, level))), level - 1, target, g);
    }
  }

  // ----- adding one table -----

  /** Memory after page `page` was filled and entry `i` of table `p` was set. */
  function WithTable(mem: Mem, p: nat, i: nat, entry: nat, page: nat, content: seq<nat>): Mem
    requires p in mem && i < |mem[p]|
  {
    Store(mem[page := content], p, i, entry)
  }

  /** The content of a table that has no table below it. */
  ghost predicate NoChildren(content: seq<nat>, level: int)
    requires 1 <= level <= 4
  {
    && |content| == EPT_PGDIR_ENTRIES
    && forall i :: 0 <= i < |content| ==>
         !Present(content[i]) || (IsLeaf(content[i], level) && Aligned(content[i], level))
  }

  /** `mem'` has one more table, `page`, on the way of `g`, and translates as `mem` does. */
  ghost predicate Grown(mem: Mem, tables: map<nat, Label>, root: nat, mem': Mem, level: int, g: nat, page: nat)
    requires 2 <= level <= 4
  {
    var tables' := tables[page := Label(level - 1, Region(g, level))];
    && WellFormed(mem', tables')
    && TableAt(mem', root, 4, level - 1, g) == Some(page)
    && Serves(tables', page, level - 1, g)
    && SameViews(mem, mem', root)
  }

  /** Hanging a fresh table below an entry keeps the tree, and keeps every
      translation if it keeps those that go through the entry. */
  lemma AddTable(mem: Mem, tables: map<nat, Label>, root: nat, pt: nat, level: int, g: nat,
                 entry: nat, page: nat, content: seq<nat>)
    requires WellFormed(mem, tables) && 2 <= level <= 4
    requires Serves(tables, root, 4, g) && tables[root].region == 0
    requires TableAt(mem, root, 4, level, g) == Some(pt) && Serves(tables, pt, level, g)
    requires page !in tables && Addr(page) == page
    requires Present(entry) && !Large(entry) && Addr(entry) == page
    requires NoChildren(content, level - 1)
    requires forall a: nat :: Region(a, level) == Region(g, level) ==>
               SameView(mem, WithTable(mem, pt, Index(g, level), entry, page, content), pt, level, a)
    ensures Grown(mem, tables, root, WithTable(mem, pt, Index(g, level), entry, page, content), level, g, page)
  {
    hide Region, Size, Addr, PermOf, Present, Large, LeafAddr;
    var i0 := Index(g, level);
    var mem' := WithTable(mem, pt, i0, entry, page, content);
    var tables' := tables[page := Label(level - 1, Region(g, level))];
    assert DifferAt(mem, mem', tables, pt, i0);
    RegionStep(g, level);
    forall p <- tables', i: nat | i < EPT_PGDIR_ENTRIES
      ensures IsTable(mem', p) && EntryOk(tables', tables'[p], i, Load(mem', p, i))
    {
      if p == page {
        assert Load(mem', p, i) == content[i];
      } else if p == pt && i == i0 {
        assert Load(mem', p, i) == entry;
      } else {
        assert EntryOk(tables, tables[p], i, Load(mem, p, i));
      }
    }
    PathFrame(mem, mem', tables, root, 4, level, g, pt, i0);
    assert Load(mem', pt, i0) == entry;
    TableAtExtend(mem', root, 4, level, g);
    forall a: nat | a < GPA_LIMIT
      ensures SameView(mem, mem', root, 4, a)
    {
      if Serves(tables, pt, level, a) && Index(a, level) == i0 {
        RegionStep(a, level);
      }
      RootRegion(a);
      ViewFrame(mem, mem', tables, root, 4, a, pt, i0);
    }
  }

  const ZERO_PAGE: seq<nat> := seq(EPT_PGDIR_ENTRIES, _ => 0)

  /** An empty table below a missing entry: nothing is mapped before or after. */
  lemma EmptyTableView(mem: Mem, pt: nat, level: int, g: nat, page: nat, a: nat)
    requires 2 <= level <= 4 && IsTable(mem, pt) && page != pt && Addr(page) == page
    requires !Present(Load(mem, pt, Index(g, level)))
    requires Region(a, level) == Region(g, level)
    ensures SameView(mem, WithTable(mem, pt, Index(g, level), TableEntry(page), page, ZERO_PAGE), pt, level, a)
  {
    var entry := TableEntry(page);
    var mem' := WithTable(mem, pt, Index(g, level), entry, page, ZERO_PAGE);
    TableEntryOk(page);
    assert Load(mem', pt, Index(a, level)) == entry;
    assert Load(mem', page, Index(a, level - 1)) == 0;
  }

  // ----- writing an entry -----

  lemma PutEntry(mem: Mem, tables: map<nat, Label>, root: nat, pt: nat, level: int, g: nat, pte: nat)
    requires WellFormed(mem, tables) && 1 <= level <= 4
    requires Serves(tables, root, 4, g) && tables[root].region == 0
    requires TableAt(mem, root, 4, level, g) == Some(pt) && Serves(tables, pt, level, g)
    requires EntryOk(tables, tables[pt], Index(g, level), pte)
    ensures WellFormed(Store(mem, pt, Index(g, level), pte), tables)
    ensures Installed(mem, Store(mem, pt, Index(g, level), pte), root, level, g, pte)
  {
    hide Region, Size, Addr, PermOf, Present, Large, LeafAddr;
    var i0 := Index(g, level);
    var mem' := Store(mem, pt, i0, pte);
    assert DifferAt(mem, mem', tables, pt, i0);
    forall p <- tables, i: nat | i < EPT_PGDIR_ENTRIES
      ensures IsTable(mem', p) && EntryOk(tables, tables[p], i, Load(mem', p, i))
    {
      assert EntryOk(tables, tables[p], i, Load(mem, p, i));
    }
    PathFrame(mem, mem', tables, root, 4, level, g, pt, i0);
    assert Load(mem', pt, i0) == pte;
    forall a: nat | Region(a, level) == Region(g, level)
      ensures Walk(mem', root, 4, a) == Restrict(Walk(mem', pt, level, a), PathPerm(mem, root, 4, level, g))
      ensures Index(a, level) == i0
    {
      WalkVia(mem', root, 4, level, g, a);
    }
    forall a: nat | a < GPA_LIMIT && Region(a, level) != Region(g, level)
      ensures SameView(mem, mem', root, 4, a)
    {
      RegionStep(a, level);
      RegionStep(g, level);
      RootRegion(a);
      ViewFrame(mem, mem', tables, root, 4, a, pt, i0);
    }
  }

  /** Addresses of one region have the same path. */
  lemma {:induction false} PathPermSameRegion(mem: Mem, p: nat, level: int, target: int, g: nat, a: nat)
    requires 1 <= target <= 4 && 1 <= level <= 4 && Region(a, target) == Region(g, target)
    ensures PathPerm(mem, p, level, target, a) == PathPerm(mem, p, level, target, g)
    decreases level
  {
    if level > target {
      SameRegionAbove(a, g, target, level);
      var e := Load(mem, p, Index(g, level));
      assert Index(a, level) == Index(g, level);
      if level > 1 {
        PathPermSameRegion(mem, Addr(e), level - 1, target, g, a);
      }
    }
  }

  // ----- tables added below an entry -----

  /** The table `content` that replaces large entry `e`. */
  ghost predicate IsSplitOf(content: seq<nat>, e: nat, level: int)
    requires 2 <= level <= 3
  {
    && |content| == EPT_PGDIR_ENTRIES
    && forall i: nat :: i < |content| ==> content[i] == SplitChild(e, level, i)
  }

  lemma SplitMaps(content: seq<nat>, e: nat, level: int)
    requires 2 <= level <= 3 && Present(e) && Large(e) && Aligned(e, level) && IsSplitOf(content, e, level)
    ensures forall i: nat :: i < EPT_PGDIR_ENTRIES ==> MapsPart(content[i], e, level, i)
  {
    hide Addr, Flags, Present, Large, Aligned, SplitChild;
    forall i: nat | i < EPT_PGDIR_ENTRIES
      ensures MapsPart(content[i], e, level, i)
    {
      SplitChildOk(e, level, i);
    }
  }

  lemma SplitNoChildren(content: seq<nat>, e: nat, level: int)
    requires 2 <= level <= 3 && Present(e) && Large(e) && Aligned(e, level) && IsSplitOf(content, e, level)
    ensures NoChildren(content, level - 1)
  {
    forall i: nat | i < |content|
      ensures IsLeaf(content[i], level - 1) && Aligned(content[i], level - 1)
    {
      SplitChildOk(e, level, i);
    }
  }

  /** Splitting a large entry keeps what every address below it translates to. */
  lemma SplitView(mem: Mem, pt: nat, level: int, g: nat, page: nat, content: seq<nat>, a: nat)
    requires 2 <= level <= 3 && IsTable(mem, pt) && page != pt && Addr(page) == page
    requires var e := Load(mem, pt, Index(g, level));
             Present(e) && Large(e) && Aligned(e, level) && IsSplitOf(content, e, level)
    requires Region(a, level) == Region(g, level)
    ensures SameView(mem,
              WithTable(mem, pt, Index(g, level), SplitPointer(Load(mem, pt, Index(g, level)), page), page, content),
              pt, level, a)
  {
    var e := Load(mem, pt, Index(g, level));
    var mem' := WithTable(mem, pt, Index(g, level), SplitPointer(e, page), page, content);
    var i := Index(a, level - 1);
    SplitPointerOk(e, page);
    SplitChildOk(e, level, i);
    assert Load(mem', pt, Index(a, level)) == SplitPointer(e, page);
    assert Load(mem', page, i) == SplitChild(e, level, i);
    SplitLeafAddr(e, SplitChild(e, level, i), level, a);
    forall t | 1 <= t <= 4
      ensures PathPerm(mem, pt, level, t, a) == PathPerm(mem', pt, level, t, a)
    {
    }
  }

  /** Splitting a large entry adds a table and keeps every translation. */
  lemma SplitTable(mem: Mem, tables: map<nat, Label>, root: nat, pt: nat, level: int, g: nat, page: nat,
                   content: seq<nat>)
    requires WellFormed(mem, tables) && 2 <= level <= 3
    requires Serves(tables, root, 4, g) && tables[root].region == 0
    requires TableAt(mem, root, 4, level, g) == Some(pt) && Serves(tables, pt, level, g)
    requires page !in tables && Addr(page) == page
    requires var e := Load(mem, pt, Index(g, level)); Present(e) && Large(e) && IsSplitOf(content, e, level)
    ensures Grown(mem, tables, root,
              WithTable(mem, pt, Index(g, level), SplitPointer(Load(mem, pt, Index(g, level)), page), page, content),
              level, g, page)
  {
    var e := Load(mem, pt, Index(g, level));
    assert EntryOk(tables, tables[pt], Index(g, level), e);
    SplitPointerOk(e, page);
    SplitNoChildren(content, e, level);
    forall a: nat | Region(a, level) == Region(g, level)
      ensures SameView(mem, WithTable(mem, pt, Index(g, level), SplitPointer(e, page), page, content), pt, level, a)
    {
      SplitView(mem, pt, level, g, page, content, a);
    }
    AddTable(mem, tables, root, pt, level, g, SplitPointer(e, page), page, content);
  }

  /** A new empty table below a missing entry keeps every translation. */
  lemma NewTable(mem: Mem, tables: map<nat, Label>, root: nat, pt: nat, level: int, g: nat, page: nat)
    requires WellFormed(mem, tables) && 2 <= level <= 4
    requires Serves(tables, root, 4, g) && tables[root].region == 0
    requires TableAt(mem, root, 4, level, g) == Some(pt) && Serves(tables, pt, level, g)
    requires page !in tables && Addr(page) == page
    requires !Present(Load(mem, pt, Index(g, level)))
    ensures Grown(mem, tables, root,
                  WithTable(mem, pt, Index(g, level), TableEntry(page), page, ZERO_PAGE), level, g, page)
  {
    hide Region, Size, Addr, PermOf, Large, LeafAddr;
    TableEntryOk(page);
    forall a: nat | Region(a, level) == Region(g, level)
      ensures SameView(mem, WithTable(mem, pt, Index(g, level), TableEntry(page), page, ZERO_PAGE), pt, level, a)
    {
      EmptyTableView(mem, pt, level, g, page, a);
    }
    AddTable(mem, tables, root, pt, level, g, TableEntry(page), page, ZERO_PAGE);
  }

  // ----- how far the way down goes after one step -----

  /** The gap that is left at level `level` and below, once the part of `gap` above it is closed. */
  function Left(gap: Gap, level: int, target: int): Gap {
    if gap.NoGap? || level >= gap.level then gap else if level == target then NoGap else gap.(level := level)
  }

  lemma GapBelowEmpty(mem: Mem, pt: nat, level: int, target: int, g: nat)
    requires 1 <= target <= level <= 4 && pt in mem && mem[pt] == ZERO_PAGE
    ensures FirstGap(mem, pt, level, target, g) == if level == target then NoGap else Missing(level)
  {
    assert Load(mem, pt, Index(g, level)) == 0;
  }

  lemma GapBelowSplit(mem: Mem, pt: nat, e: nat, level: int, target: int, g: nat)
    requires 2 <= level <= 3 && 1 <= target < level && Present(e) && Large(e) && Aligned(e, level)
    requires pt in mem && IsSplitOf(mem[pt], e, level)
    ensures FirstGap(mem, pt, level - 1, target, g) == if level - 1 == target then NoGap else LargeAt(level - 1)
  {
    hide Size, Addr, PermOf, Present, Large, ClearAddr, ClearLarge, Aligned, SplitChild;
    if level - 1 != target {
      SplitChildOk(e, level, Index(g, level - 1));
      assert Load(mem, pt, Index(g, level - 1)) == SplitChild(e, level, Index(g, level - 1));
    }
  }
}
