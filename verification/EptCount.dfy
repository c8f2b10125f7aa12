/**
 How many pages it takes to map a range: which tables are there, which are lacking, and that editing loses none
 (x86/vmx.c).
 */
module EptCount {
  import opened Arith
  import opened EptWords
  import opened EptTables

  // ----- tables that stay -----

  /** There is a table of `level` on the way of `g`. */
  ghost predicate HasTable(mem: Mem, root: nat, level: int, g: nat) {
    TableAt(mem, root, 4, level, g).Some?
  }

  /** No table is lost, on the way of any address. */
  ghost predicate NoneLost(mem: Mem, mem': Mem, root: nat) {
    forall a: nat, l: int :: a < GPA_LIMIT && HasTable(mem, root, l, a) ==> HasTable(mem', root, l, a)
  }

  /** No table is lost but those below `level` in the region of `g`. */
  ghost predicate NoneLostBut(mem: Mem, mem': Mem, root: nat, level: int, g: nat)
    requires 1 <= level <= 4
  {
    forall a: nat, l: int ::
      a < GPA_LIMIT && (l >= level || Region(a, level) != Region(g, level)) && HasTable(mem, root, l, a) ==>
        HasTable(mem', root, l, a)
  }

  /** No table is lost but those below `level` for addresses in [from, to). */
  ghost predicate NoneLostOutside(mem: Mem, mem': Mem, root: nat, from: nat, to: nat, level: int) {
    forall a: nat, l: int :: a < GPA_LIMIT && (l >= level || !(from <= a < to)) && HasTable(mem, root, l, a) ==>
      HasTable(mem', root, l, a)
  }

  lemma NoneLostTrans(m0: Mem, m1: Mem, m2: Mem, root: nat)
    requires NoneLost(m0, m1, root) && NoneLost(m1, m2, root)
    ensures NoneLost(m0, m2, root)
  {
    hide HasTable;
  }

  lemma NoneLostThen(m0: Mem, m1: Mem, m2: Mem, root: nat, level: int, g: nat)
    requires 1 <= level <= 4 && NoneLost(m0, m1, root) && NoneLostBut(m1, m2, root, level, g)
    ensures NoneLostBut(m0, m2, root, level, g)
  {
    hide HasTable, Region;
  }

  lemma NoneLostStep(m0: Mem, m1: Mem, m2: Mem, root: nat, from: nat, g: nat, level: int)
    requires 1 <= level <= 3 && from <= g && g % Size(level) == 0
    requires NoneLostOutside(m0, m1, root, from, g, level) && NoneLostBut(m1, m2, root, level, g)
    ensures NoneLostOutside(m0, m2, root, from, g + Size(level), level)
  {
    hide HasTable, Region;
    forall a: nat, l: int | a < GPA_LIMIT && (l >= level || !(from <= a < g + Size(level))) && HasTable(m0, root, l, a)
      ensures HasTable(m2, root, l, a)
    {
      RegionIs(a, g, level);
      assert HasTable(m1, root, l, a);
    }
  }

  lemma NoneLostSame(mem: Mem, root: nat)
    ensures NoneLost(mem, mem, root)
  {}

  /** A table on the way stays on it when one entry changes that the way does not use, or that had nothing below it. */
  lemma {:induction false} TableFrame(mem: Mem, mem': Mem, tables: map<nat, Label>, p: nat, level: int, target: int,
                                      g: nat, p0: nat, i0: nat)
    requires WellFormed(mem, tables) && 1 <= level <= 4 && Serves(tables, p, level, g)
    requires DifferAt(mem, mem', tables, p0, i0) && p0 in tables
    requires var l0, e0 := tables[p0].level, Load(mem, p0, i0);
             Serves(tables, p0, l0, g) && Index(g, l0) == i0 && target < l0 ==> !Present(e0) || IsLeaf(e0, l0)
    requires TableAt(mem, p, level, target, g).Some?
    ensures TableAt(mem', p, level, target, g) == TableAt(mem, p, level, target, g)
    decreases level
  {
    if level > target {
      var e := Load(mem, p, Index(g, level));
      ChildServes(mem, tables, p, level, g);
      assert Load(mem', p, Index(g, level)) == e;
      TableFrame(mem, mem', tables, Addr(e), level - 1, target, g, p0, i0);
    }
  }

  /** Hanging a table below an entry that has nothing below it loses no table. */
  lemma AddingLosesNone(mem: Mem, tables: map<nat, Label>, root: nat, pt: nat, level: int, g: nat,
                        entry: nat, page: nat, content: seq<nat>)
    requires WellFormed(mem, tables) && 2 <= level <= 4 && Serves(tables, root, 4, g) && tables[root].region == 0
    requires Serves(tables, pt, level, g) && page !in tables
    requires var e := Load(mem, pt, Index(g, level)); !Present(e) || IsLeaf(e, level)
    ensures NoneLost(mem, WithTable(mem, pt, Index(g, level), entry, page, content), root)
  {
    hide Region, Size, Addr, PermOf, Present, Large, LeafAddr;
    var i0 := Index(g, level);
    var mem' := WithTable(mem, pt, i0, entry, page, content);
    assert DifferAt(mem, mem', tables, pt, i0);
    forall a: nat, l: int | a < GPA_LIMIT && HasTable(mem, root, l, a)
      ensures HasTable(mem', root, l, a)
    {
      RootRegion(a);
      TableFrame(mem, mem', tables, root, 4, l, a, pt, i0);
    }
  }

  /** Writing an entry loses no table but below it. */
  lemma StoringLosesNone(mem: Mem, tables: map<nat, Label>, root: nat, pt: nat, level: int, g: nat, pte: nat)
    requires WellFormed(mem, tables) && 1 <= level <= 4 && Serves(tables, root, 4, g) && tables[root].region == 0
    requires Serves(tables, pt, level, g)
    ensures NoneLostBut(mem, Store(mem, pt, Index(g, level), pte), root, level, g)
  {
    hide Region, Size, Addr, PermOf, Present, Large, LeafAddr;
    var i0 := Index(g, level);
    var mem' := Store(mem, pt, i0, pte);
    assert DifferAt(mem, mem', tables, pt, i0);
    forall a: nat, l: int |
      a < GPA_LIMIT && (l >= level || Region(a, level) != Region(g, level)) && HasTable(mem, root, l, a)
      ensures HasTable(mem', root, l, a)
    {
      RootRegion(a);
      RegionStep(a, level);
      RegionStep(g, level);
      TableFrame(mem, mem', tables, root, 4, l, a, pt, i0);
    }
  }

  // ----- entries that stay -----

  /** The entry of level `l` that maps `a` is on another way than that of `g`, and not below its level. */
  predicate Aside(a: nat, l: int, g: nat, level: int)
    requires 1 <= l <= 4 && 1 <= level <= 4
  {
    Region(a, if l < level then level else l) != Region(g, if l < level then level else l)
  }

  /** The entries aside of an entry of `level` for `g` stay what they are. */
  ghost predicate EntriesKept(mem: Mem, mem': Mem, root: nat, g: nat, level: int)
    requires 1 <= level <= 4
  {
    forall a: nat, l: int :: a < GPA_LIMIT && 1 <= l <= 4 && Aside(a, l, g, level) && HasTable(mem, root, l, a) ==>
      EptPte(mem', root, l, a) == EptPte(mem, root, l, a)
  }

  lemma EntriesKeptSame(mem: Mem, root: nat, g: nat, level: int)
    requires 1 <= level <= 4
    ensures EntriesKept(mem, mem, root, g, level)
  {}

  lemma HasEntryIff(mem: Mem, root: nat, l: int, a: nat)
    requires 1 <= l <= 4
    ensures EptPte(mem, root, l, a).Some? <==> HasTable(mem, root, l, a)
  {}

  lemma EntriesKeptThen(m0: Mem, m1: Mem, m2: Mem, root: nat, g: nat, level: int)
    requires 1 <= level <= 4 && EntriesKept(m0, m1, root, g, 1) && EntriesKept(m1, m2, root, g, level)
    ensures EntriesKept(m0, m2, root, g, level)
  {
    hide HasTable, EptPte, Region;
    forall a: nat, l: int | a < GPA_LIMIT && 1 <= l <= 4 && Aside(a, l, g, level) && HasTable(m0, root, l, a)
      ensures EptPte(m2, root, l, a) == EptPte(m0, root, l, a)
    {
      if l < level && Region(a, l) == Region(g, l) {
        SameRegionAbove(a, g, l, level);
      }
      HasEntryIff(m0, root, l, a);
      HasEntryIff(m1, root, l, a);
    }
  }

  lemma {:induction false} TableServes(mem: Mem, tables: map<nat, Label>, p: nat, level: int, target: int, g: nat)
    requires WellFormed(mem, tables) && 1 <= target <= level <= 4 && Serves(tables, p, level, g)
    requires TableAt(mem, p, level, target, g).Some?
    ensures Serves(tables, TableAt(mem, p, level, target, g).value, target, g)
    decreases level
  {
    if level > target {
      ChildServes(mem, tables, p, level, g);
      TableServes(mem, tables, Addr(Load(mem, p, Index(g, level))), level - 1, target, g);
    }
  }

  lemma EntriesKeptAbove(mem: Mem, mem': Mem, root: nat, g: nat, level: int)
    requires 1 <= level <= 4 && EntriesKept(mem, mem', root, g, 1)
    ensures EntriesKept(mem, mem', root, g, level)
  {
    hide EptPte;
    EntriesKeptSame(mem', root, g, level);
    EntriesKeptThen(mem, mem', mem', root, g, level);
  }

  /** The entry that is read through a table that stays, if it is not the one that changes. */
  lemma EntryFrame(mem: Mem, mem': Mem, tables: map<nat, Label>, root: nat, l: int, a: nat, p0: nat, i0: nat)
    requires WellFormed(mem, tables) && 1 <= l <= 4 && Serves(tables, root, 4, a)
    requires DifferAt(mem, mem', tables, p0, i0) && p0 in tables && HasTable(mem, root, l, a)
    requires TableAt(mem', root, 4, l, a) == TableAt(mem, root, 4, l, a)
    requires tables[p0].level == l ==> !(Serves(tables, p0, l, a) && Index(a, l) == i0)
    ensures EptPte(mem', root, l, a) == EptPte(mem, root, l, a)
  {
    hide WellFormed, TableAt;
    TableServes(mem, tables, root, 4, l, a);
  }

  /** Hanging a table below an entry that has nothing below it keeps the other entries. */
  lemma AddingKeepsEntries(mem: Mem, tables: map<nat, Label>, root: nat, pt: nat, level: int, g: nat,
                           entry: nat, page: nat, content: seq<nat>)
    requires WellFormed(mem, tables) && 2 <= level <= 4 && Serves(tables, root, 4, g) && tables[root].region == 0
    requires Serves(tables, pt, level, g) && page !in tables
    requires var e := Load(mem, pt, Index(g, level)); !Present(e) || IsLeaf(e, level)
    ensures EntriesKept(mem, WithTable(mem, pt, Index(g, level), entry, page, content), root, g, 1)
  {
    hide Region, Size, Addr, PermOf, Present, Large, LeafAddr;
    var i0 := Index(g, level);
    var mem' := WithTable(mem, pt, i0, entry, page, content);
    assert DifferAt(mem, mem', tables, pt, i0);
    hide WellFormed, EptPte, WithTable, DifferAt;
    forall a: nat, l: int | a < GPA_LIMIT && 1 <= l <= 4 && Aside(a, l, g, 1) && HasTable(mem, root, l, a)
      ensures EptPte(mem', root, l, a) == EptPte(mem, root, l, a)
    {
      RootRegion(a);
      RegionStep(a, l);
      RegionStep(g, l);
      TableFrame(mem, mem', tables, root, 4, l, a, pt, i0);
      EntryFrame(mem, mem', tables, root, l, a, pt, i0);
    }
  }

  /** Writing an entry keeps the entries aside of it. */
  lemma StoringKeepsEntries(mem: Mem, tables: map<nat, Label>, root: nat, pt: nat, level: int, g: nat, pte: nat)
    requires WellFormed(mem, tables) && 1 <= level <= 4 && Serves(tables, root, 4, g) && tables[root].region == 0
    requires Serves(tables, pt, level, g)
    ensures EntriesKept(mem, Store(mem, pt, Index(g, level), pte), root, g, level)
  {
    hide Region, Size, Addr, PermOf, Present, Large, LeafAddr;
    var i0 := Index(g, level);
    var mem' := Store(mem, pt, i0, pte);
    assert DifferAt(mem, mem', tables, pt, i0);
    hide WellFormed, EptPte, Store, DifferAt;
    forall a: nat, l: int | a < GPA_LIMIT && 1 <= l <= 4 && Aside(a, l, g, level) && HasTable(mem, root, l, a)
      ensures EptPte(mem', root, l, a) == EptPte(mem, root, l, a)
    {
      RootRegion(a);
      RegionStep(a, level);
      RegionStep(g, level);
      TableFrame(mem, mem', tables, root, 4, l, a, pt, i0);
      EntryFrame(mem, mem', tables, root, l, a, pt, i0);
    }
  }

  /** The region of `a` at level `l` ends at or before `from`. */
  predicate Behind(a: nat, l: int, from: nat)
    requires 1 <= l <= 4
  {
    (Region(a, l) + 1) * Size(l) <= from
  }

  /** The entries of `level` or above whose region is behind stay what they are. */
  ghost predicate EntriesBehindKept(mem: Mem, mem': Mem, root: nat, from: nat, level: int)
    requires 1 <= level <= 4
  {
    forall a: nat, l: int :: a < GPA_LIMIT && level <= l <= 4 && Behind(a, l, from) && HasTable(mem, root, l, a) ==>
      EptPte(mem', root, l, a) == EptPte(mem, root, l, a)
  }

  /** A page ends at or before every multiple of its size above it. */
  lemma PageBehind(a: nat, level: int, to: nat)
    requires 1 <= level <= 4 && a < to && to % Size(level) == 0
    ensures Behind(a, level, to)
  {
    hide Size;
    var q, n := Region(a, level), to / Size(level);
    assert a == q * Size(level) + a % Size(level) && to == n * Size(level);
    if n <= q {
      MulMono(n, q, Size(level));
    }
    MulMono(q + 1, n, Size(level));
  }

  lemma RegionStart(g: nat, level: int)
    requires 1 <= level <= 4 && g % Size(level) == 0
    ensures Region(g, level) * Size(level) == g
  {
    hide Size;
  }

  lemma BehindIsAside(a: nat, l: int, from: nat, g: nat, level: int)
    requires 1 <= level <= l <= 4 && Behind(a, l, from) && from <= g
    ensures Aside(a, l, g, level)
  {
    hide Size;
    var q := Region(g, l);
    assert g == q * Size(l) + g % Size(l);
    if q <= Region(a, l) {
      MulMono(q + 1, Region(a, l) + 1, Size(l));
    }
  }

  lemma EntriesBehindSame(mem: Mem, root: nat, from: nat, level: int)
    requires 1 <= level <= 4
    ensures EntriesBehindKept(mem, mem, root, from, level)
  {}

  lemma EntriesBehindThen(m0: Mem, m1: Mem, m2: Mem, root: nat, from: nat, g: nat, level: int)
    requires 1 <= level <= 4 && from <= g
    requires EntriesBehindKept(m0, m1, root, from, level) && EntriesKept(m1, m2, root, g, level)
    ensures EntriesBehindKept(m0, m2, root, from, level)
  {
    hide HasTable, EptPte, Region, Behind, Aside;
    forall a: nat, l: int | a < GPA_LIMIT && level <= l <= 4 && Behind(a, l, from) && HasTable(m0, root, l, a)
      ensures EptPte(m2, root, l, a) == EptPte(m0, root, l, a)
    {
      BehindIsAside(a, l, from, g, level);
      HasEntryIff(m0, root, l, a);
      HasEntryIff(m1, root, l, a);
    }
  }

  /** Addresses of one region have the same tables above it. */
  lemma {:induction false} SameTables(mem: Mem, p: nat, level: int, target: int, g: nat, a: nat)
    requires 1 <= target <= 4 && 1 <= level <= 4 && Region(a, target + 1) == Region(g, target + 1)
    ensures TableAt(mem, p, level, target, a) == TableAt(mem, p, level, target, g)
    decreases level
  {
    if level > target {
      SameRegionAbove(a, g, target + 1, level);
      assert Index(a, level) == Index(g, level);
      if level > 1 {
        SameTables(mem, Addr(Load(mem, p, Index(g, level))), level - 1, target, g, a);
      }
    }
  }

  /** Entries of one region are the same entry. */
  lemma SameEntry(mem: Mem, root: nat, l: int, g: nat, a: nat)
    requires 1 <= l <= 4 && Region(a, l) == Region(g, l)
    ensures EptPte(mem, root, l, a) == EptPte(mem, root, l, g)
  {
    hide TableAt, Size;
    SameRegionAbove(a, g, l, l + 1);
    SameTables(mem, root, 4, l, g, a);
  }

  // ----- tables that are lacking -----

  /** The pages that the way down to level `target` takes. */
  function GapSize(gap: Gap, target: int): int {
    if gap.NoGap? then 0 else gap.level - target
  }

  lemma {:induction false} GapInside(mem: Mem, p: nat, level: int, target: int, g: nat)
    requires 1 <= target <= level <= 4
    ensures var gap := FirstGap(mem, p, level, target, g); gap.NoGap? || target < gap.level <= level
    decreases level
  {
    var e := Load(mem, p, Index(g, level));
    if level > target && Present(e) && !Large(e) {
      GapInside(mem, Addr(e), level - 1, target, g);
    }
  }

  /** The tables that the way lacks are those below the gap. */
  lemma {:induction false} LackIsGap(mem: Mem, tables: map<nat, Label>, p: nat, level: int, target: int, g: nat, l: int)
    requires WellFormed(mem, tables) && 1 <= target <= l <= level <= 4 && Serves(tables, p, level, g)
    ensures var gap := FirstGap(mem, p, level, target, g);
            TableAt(mem, p, level, l, g).None? <==> !gap.NoGap? && l < gap.level
    decreases level
  {
    hide Region, Size;
    if level > target {
      var e := Load(mem, p, Index(g, level));
      assert EntryOk(tables, tables[p], Index(g, level), e);
      if Present(e) && !Large(e) && l < level {
        ChildServes(mem, tables, p, level, g);
        LackIsGap(mem, tables, Addr(e), level - 1, target, g, l);
      } else if Present(e) && !Large(e) {
        GapInside(mem, p, level, target, g);
      }
    }
  }

  /** The tables that addresses in [from, to) lack for pages of `level`: a level and a region for each. */
  ghost function Lacking(mem: Mem, root: nat, from: nat, to: nat, level: int): set<(int, nat)>
    requires 1 <= level <= 3
  {
    set l: int, a: nat | level <= l <= 3 && from <= a < to && !HasTable(mem, root, l, a) :: (l, Region(a, l + 1))
  }

  /** The tables of `g` from level `lo` up to below level `hi`. */
  ghost function Rungs(g: nat, lo: int, hi: int): (s: set<(int, nat)>)
    requires 1 <= lo && hi <= 4
    ensures forall x :: x in s <==> lo <= x.0 < hi && x.1 == Region(g, x.0 + 1)
    ensures lo <= hi ==> |s| == hi - lo
    decreases hi - lo
  {
    if lo >= hi then {} else {(lo, Region(g, lo + 1))} + Rungs(g, lo + 1, hi)
  }

  lemma {:induction false} Smaller(a: set<(int, nat)>, b: set<(int, nat)>)
    requires a <= b
    ensures |a| <= |b|
  {
    if a != {} {
      var x :| x in a;
      Smaller(a - {x}, b - {x});
    }
  }

  lemma Parts(all: set<(int, nat)>, a: set<(int, nat)>, b: set<(int, nat)>)
    requires a <= all && b <= all && a !! b
    ensures |a| + |b| <= |all|
  {
    assert |a + b| == |a| + |b|;
    Smaller(a + b, all);
  }

  lemma Lacks(mem: Mem, root: nat, from: nat, to: nat, level: int, l: int, a: nat)
    requires 1 <= level <= l <= 3 && from <= a < to && !HasTable(mem, root, l, a)
    ensures (l, Region(a, l + 1)) in Lacking(mem, root, from, to, level)
  {
    hide HasTable, Region;
  }

  lemma LackedBy(mem: Mem, root: nat, from: nat, to: nat, level: int, x: (int, nat)) returns (a: nat)
    requires 1 <= level <= 3 && x in Lacking(mem, root, from, to, level)
    ensures level <= x.0 <= 3 && from <= a < to && !HasTable(mem, root, x.0, a) && x.1 == Region(a, x.0 + 1)
  {
    hide HasTable, Region;
    a :| from <= a < to && !HasTable(mem, root, x.0, a) && x == (x.0, Region(a, x.0 + 1));
  }

  /** What a page takes is lacking before it is installed. */
  lemma GapIsLacking(mem: Mem, tables: map<nat, Label>, root: nat, g: nat, to: nat, level: int)
    requires WellFormed(mem, tables) && 1 <= level <= 3 && Serves(tables, root, 4, g) && g < to
    ensures var gap := FirstGap(mem, root, 4, level, g);
            && 0 <= GapSize(gap, level) <= 4 - level && GapSize(gap, level) <= |Lacking(mem, root, g, to, level)|
            && Rungs(g, level, level + GapSize(gap, level)) <= Lacking(mem, root, g, to, level)
  {
    hide WellFormed, TableAt, FirstGap, Region, Lacking;
    GapInside(mem, root, 4, level, g);
    var n := GapSize(FirstGap(mem, root, 4, level, g), level);
    var s := Rungs(g, level, level + n);
    hide Rungs;
    forall x | x in s
      ensures x in Lacking(mem, root, g, to, level)
    {
      LackIsGap(mem, tables, root, 4, level, g, x.0);
      Lacks(mem, root, g, to, level, x.0, g);
      assert x == (x.0, Region(g, x.0 + 1));
    }
    Smaller(s, Lacking(mem, root, g, to, level));
  }

  lemma {:induction false} TableUp(mem: Mem, p: nat, level: int, target: int, l: int, g: nat)
    requires 1 <= target <= l <= 4 && 1 <= level <= 4 && TableAt(mem, p, level, target, g).Some?
    ensures TableAt(mem, p, level, l, g).Some?
    decreases level
  {
    if level > l {
      TableUp(mem, Addr(Load(mem, p, Index(g, level))), level - 1, target, l, g);
    }
  }

  /** A table of one level comes with those of the levels above it, for the whole region. */
  lemma TablesAbove(mem: Mem, root: nat, level: int, l: int, g: nat, a: nat)
    requires 1 <= level <= l <= 3 && HasTable(mem, root, level, g) && Region(a, l + 1) == Region(g, l + 1)
    ensures HasTable(mem, root, l, a)
  {
    hide Region;
    TableUp(mem, root, 4, level, l, g);
    SameTables(mem, root, 4, l, g, a);
  }

  /** Installing a page: what it takes is no longer lacking, and nothing else is lacking that was not. */
  lemma LackingStep(mem: Mem, mem': Mem, tables: map<nat, Label>, root: nat, g: nat, to: nat, level: int, step: nat)
    requires WellFormed(mem, tables) && 1 <= level <= 3 && Serves(tables, root, 4, g) && g < to <= GPA_LIMIT
    requires NoneLostBut(mem, mem', root, level, g) && HasTable(mem', root, level, g)
    ensures |Lacking(mem', root, g + step, to, level)| + GapSize(FirstGap(mem, root, 4, level, g), level) <=
              |Lacking(mem, root, g, to, level)|
  {
    hide WellFormed, TableAt, FirstGap, Region, GapSize, HasTable, Lacking, Rungs;
    GapIsLacking(mem, tables, root, g, to, level);
    var n := GapSize(FirstGap(mem, root, 4, level, g), level);
    var all, left := Lacking(mem, root, g, to, level), Lacking(mem', root, g + step, to, level);
    var s := Rungs(g, level, level + n);
    forall x | x in left
      ensures x in all && x !in s
    {
      var a := LackedBy(mem', root, g + step, to, level, x);
      Lacks(mem, root, g, to, level, x.0, a);
      assert x == (x.0, Region(a, x.0 + 1));
      if x in s {
        TablesAbove(mem', root, level, x.0, g, a);
      }
    }
    Parts(all, left, s);
  }

  /** Fewer tables are lacking where none was lost. */
  lemma LackingLess(mem: Mem, mem': Mem, root: nat, from: nat, to: nat, level: int)
    requires 1 <= level <= 3 && to <= GPA_LIMIT
    requires forall a: nat, l: int :: from <= a < to && HasTable(mem, root, l, a) ==> HasTable(mem', root, l, a)
    ensures |Lacking(mem', root, from, to, level)| <= |Lacking(mem, root, from, to, level)|
  {
    hide HasTable, Region, Lacking;
    var all, left := Lacking(mem, root, from, to, level), Lacking(mem', root, from, to, level);
    forall x | x in left
      ensures x in all
    {
      var a := LackedBy(mem', root, from, to, level, x);
      Lacks(mem, root, from, to, level, x.0, a);
      assert x == (x.0, Region(a, x.0 + 1));
    }
    Smaller(left, all);
  }

  // ----- a bound without the tables -----

  /** Regions `lo` up to `hi` of one level. */
  ghost function Column(l: int, lo: nat, hi: nat): (s: set<(int, nat)>)
    ensures forall x :: x in s <==> x.0 == l && lo <= x.1 < hi
    ensures lo <= hi ==> |s| == hi - lo
    decreases hi - lo
  {
    if lo >= hi then {} else {(l, lo)} + Column(l, lo + 1, hi)
  }

  lemma RegionMono(a: nat, b: nat, level: int)
    requires 1 <= level <= 5 && a <= b
    ensures Region(a, level) <= Region(b, level)
  {}

  /** The regions of the levels above `level` that [from, to) touches: one page for each is enough. */
  function Touched(from: nat, to: nat, level: int): nat
    requires 1 <= level <= 4 && from < to
    decreases 4 - level
  {
    RegionMono(from, to - 1, level + 1);
    if level == 4 then 0 else Region(to - 1, level + 1) + 1 - Region(from, level + 1) + Touched(from, to, level + 1)
  }

  ghost function LackingFrom(mem: Mem, root: nat, from: nat, to: nat, level: int, l: int): set<(int, nat)>
    requires 1 <= level <= 3
  {
    set x | x in Lacking(mem, root, from, to, level) && x.0 >= l
  }

  lemma {:induction false} TouchedFrom(mem: Mem, root: nat, from: nat, to: nat, level: int, l: int)
    requires 1 <= level <= 3 && level <= l <= 4 && from < to
    ensures |LackingFrom(mem, root, from, to, level, l)| <= Touched(from, to, l)
    decreases 4 - l
  {
    hide HasTable, Lacking, Region;
    var s := LackingFrom(mem, root, from, to, level, l);
    if l == 4 {
      forall x | x in s
        ensures false
      {
        var a := LackedBy(mem, root, from, to, level, x);
      }
      assert s == {};
    } else {
      TouchedFrom(mem, root, from, to, level, l + 1);
      RegionMono(from, to - 1, l + 1);
      var rest := LackingFrom(mem, root, from, to, level, l + 1);
      var column := Column(l, Region(from, l + 1), Region(to - 1, l + 1) + 1);
      forall x | x in s
        ensures x in rest + column
      {
        var a := LackedBy(mem, root, from, to, level, x);
        RegionMono(from, a, x.0 + 1);
        RegionMono(a, to - 1, x.0 + 1);
      }
      Smaller(s, rest + column);
      assert |rest + column| <= |rest| + |column|;
    }
  }

  /** A range lacks no more tables than it touches regions. */
  lemma LackingBound(mem: Mem, root: nat, from: nat, to: nat, level: int)
    requires 1 <= level <= 3 && from < to
    ensures |Lacking(mem, root, from, to, level)| <= Touched(from, to, level)
  {
    hide HasTable, Lacking, Touched;
    TouchedFrom(mem, root, from, to, level, level);
    assert LackingFrom(mem, root, from, to, level, level) == Lacking(mem, root, from, to, level) by {
      forall x | x in Lacking(mem, root, from, to, level)
        ensures x.0 >= level
      {
        var a := LackedBy(mem, root, from, to, level, x);
      }
    }
  }
}
