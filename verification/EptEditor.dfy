/**
 The functions of x86/vmx.c that edit and read the tables in place.
 */
module EptEditor {
  import opened Wrappers
  import opened Arith
  import opened EptWords
  import opened EptTables
  import opened EptCount
  import opened EptRange

  /**
   How the way down ends: at its level, at the assertion of split_large_ept_entry that there is a page, or
   with the null pointer linked as a table although page 0 already serves as one, from where on tables share it.
   */
  datatype Outcome = Done | Stopped | NullReused

  /** The pages that can become tables below missing entries; without any other, install_ept_entry takes page 0. */
  function Supply(spare: Option<nat>, pool: seq<nat>, nullUnused: bool): nat {
    |pool| + (if spare.Some? then 1 else 0) + (if nullUnused then 1 else 0)
  }

  /** How the way down to level `target` ends: each level of a gap takes one page. */
  function OutcomeOf(gap: Gap, target: int, spare: Option<nat>, pool: seq<nat>, nullUnused: bool): Outcome {
    match gap
    case NoGap => Done
    case Missing(level) => if Supply(spare, pool, nullUnused) >= level - target then Done else NullReused
    case LargeAt(level) => if |pool| >= level - target then Done else Stopped
  }

  /** What one level of the way down takes. */
  predicate Taken(gap: Gap, spare: Option<nat>, pool: seq<nat>, unused: bool, spare': Option<nat>, pool': seq<nat>,
                  unused': bool) {
    match gap
    case NoGap => spare' == spare && pool' == pool && unused' == unused
    case Missing(_) => Supply(spare', pool', unused') == Supply(spare, pool, unused) - 1
    case LargeAt(_) => spare' == spare && |pool'| == |pool| - 1 && unused' == unused
  }

  /** From table `pt` of `mem` to table `pt'` of `mem'`, one level of the gap is closed. */
  ghost predicate GapClosed(mem: Mem, mem': Mem, pt: nat, pt': nat, level: int, g: nat)
    requires 2 <= level <= 4
  {
    forall target :: 1 <= target < level ==>
      FirstGap(mem', pt', level - 1, target, g) == Left(FirstGap(mem, pt, level, target, g), level - 1, target)
  }

  lemma GapIsClosed(mem: Mem, mem': Mem, pt: nat, pt': nat, level: int, g: nat)
    requires 2 <= level <= 4
    requires var e := Load(mem, pt, Index(g, level));
             if !Present(e) then pt' in mem' && mem'[pt'] == ZERO_PAGE
             else if Large(e) then level < 4 && Aligned(e, level) && pt' in mem' && IsSplitOf(mem'[pt'], e, level)
             else mem' == mem && pt' == Addr(e)
    ensures GapClosed(mem, mem', pt, pt', level, g)
  {
    hide Addr, Present, Large, Aligned, IsSplitOf;
    var e := Load(mem, pt, Index(g, level));
    forall target | 1 <= target < level
      ensures FirstGap(mem', pt', level - 1, target, g) == Left(FirstGap(mem, pt, level, target, g), level - 1, target)
    {
      if !Present(e) {
        GapBelowEmpty(mem', pt', level - 1, target, g);
      } else if Large(e) {
        GapBelowSplit(mem', pt', e, level, target, g);
      } else {
        GapInside(mem, Addr(e), level - 1, target, g);
      }
    }
  }

  lemma EntryThere(mem: Mem, tables: map<nat, Label>, pt: nat, level: int, g: nat)
    requires WellFormed(mem, tables) && 1 <= level <= 4 && Serves(tables, pt, level, g)
    ensures pt in mem && Index(g, level) < |mem[pt]| && Load(mem, pt, Index(g, level)) == mem[pt][Index(g, level)]
  {}

  /** What splitting a large entry writes: a pointer with its flags, and 512 parts of its page. */
  predicate SplitWords(mem: Mem, mem': Mem, pt: nat, offset: nat, level: int)
    requires 2 <= level <= 3
  {
    var e, p := Load(mem, pt, offset), Load(mem', pt, offset);
    && Flags(p) == Flags(e) && !Large(p) && IsTable(mem', Addr(p))
    && forall i: nat :: i < EPT_PGDIR_ENTRIES ==> MapsPart(mem'[Addr(p)][i], e, level, i)
  }

  lemma SplitIntoWords(mem: Mem, mem': Mem, tables: map<nat, Label>, pt: nat, level: int, g: nat, page: nat)
    requires WellFormed(mem, tables) && 2 <= level <= 3 && Serves(tables, pt, level, g)
    requires var e := Load(mem, pt, Index(g, level));
             && Present(e) && Large(e) && Addr(page) == page && page in mem' && IsSplitOf(mem'[page], e, level)
             && Load(mem', pt, Index(g, level)) == SplitPointer(e, page)
    requires IsTable(mem', page)
    ensures SplitWords(mem, mem', pt, Index(g, level), level)
  {
    hide Region, Addr, Present, Large, Aligned, Flags, SplitPointer, IsSplitOf, MapsPart;
    var e := Load(mem, pt, Index(g, level));
    assert EntryOk(tables, tables[pt], Index(g, level), e);
    hide WellFormed, EntryOk;
    SplitPointerOk(e, page);
    SplitMaps(mem'[page], e, level);
  }

  lemma GapHere(mem: Mem, tables: map<nat, Label>, pt: nat, level: int, g: nat)
    requires WellFormed(mem, tables) && 2 <= level <= 4 && Serves(tables, pt, level, g)
    ensures var e := Load(mem, pt, Index(g, level));
            && pt in mem && Index(g, level) < |mem[pt]| && e == mem[pt][Index(g, level)]
            && (Present(e) && Large(e) ==> level < 4 && Aligned(e, level))
            && FirstGap(mem, pt, level, level - 1, g) ==
                 if !Present(e) then Missing(level) else if Large(e) then LargeAt(level) else NoGap
  {
    hide Region, Addr, Present, Large, Aligned;
    assert EntryOk(tables, tables[pt], Index(g, level), Load(mem, pt, Index(g, level)));
  }

  /** What is left of the way from table `pt` will end as `out`. */
  predicate WillEnd(mem: Mem, pt: nat, level: int, target: int, g: nat, spare: Option<nat>, pool: seq<nat>,
                    unused: bool, out: Outcome)
    requires 1 <= target <= level <= 4
  {
    OutcomeOf(FirstGap(mem, pt, level, target, g), target, spare, pool, unused) == out
  }

  /** The gap below an entry, and the one at it. */
  lemma GapFromHere(mem: Mem, pt: nat, level: int, target: int, g: nat)
    requires 1 <= target < level <= 4
    ensures var here, gap := FirstGap(mem, pt, level, level - 1, g), FirstGap(mem, pt, level, target, g);
            if here.NoGap? then gap.NoGap? || gap.level < level else gap == here && here.level == level
  {
    hide Addr, Present, Large;
    var e := Load(mem, pt, Index(g, level));
    if Present(e) && !Large(e) {
      GapInside(mem, Addr(e), level - 1, target, g);
    }
  }

  lemma ClosedFor(mem: Mem, mem': Mem, pt: nat, pt': nat, level: int, g: nat, target: int)
    requires 1 <= target < level <= 4 && GapClosed(mem, mem', pt, pt', level, g)
    ensures FirstGap(mem', pt', level - 1, target, g) == Left(FirstGap(mem, pt, level, target, g), level - 1, target)
  {}

  /** How the way ends is how it ends after one step of it. */
  lemma OneStep(mem: Mem, mem': Mem, pt: nat, pt': nat, level: int, target: int, g: nat, spare: Option<nat>,
                pool: seq<nat>, unused: bool, spare': Option<nat>, pool': seq<nat>, unused': bool, out: Outcome)
    requires 1 <= target < level <= 4 && WillEnd(mem, pt, level, target, g, spare, pool, unused, out)
    ensures var here := FirstGap(mem, pt, level, level - 1, g);
            var done := OutcomeOf(here, level - 1, spare, pool, unused);
            && (!done.Done? ==> done == out)
            && (done.Done? && Taken(here, spare, pool, unused, spare', pool', unused')
                 && GapClosed(mem, mem', pt, pt', level, g) ==>
                  WillEnd(mem', pt', level - 1, target, g, spare', pool', unused', out))
  {
    GapInside(mem, pt, level, target, g);
    GapFromHere(mem, pt, level, target, g);
    hide FirstGap, GapClosed;
    if GapClosed(mem, mem', pt, pt', level, g) {
      ClosedFor(mem, mem', pt, pt', level, g, target);
    }
  }

  /** One level of the way takes one page at most, and none where nothing is lacking. */
  lemma OnePage(mem: Mem, mem': Mem, pt: nat, pt': nat, level: int, target: int, g: nat, spare: Option<nat>,
                pool: seq<nat>, unused: bool, spare': Option<nat>, pool': seq<nat>, unused': bool)
    requires 1 <= target < level <= 4 && (pool' == pool || (pool != [] && pool' == pool[1..]))
    ensures var here := FirstGap(mem, pt, level, level - 1, g);
            && (!OutcomeOf(here, level - 1, spare, pool, unused).Done? ==>
                  pool == [] && 0 <= GapSize(FirstGap(mem, pt, level, target, g), target))
            && (OutcomeOf(here, level - 1, spare, pool, unused).Done?
                && Taken(here, spare, pool, unused, spare', pool', unused')
                && GapClosed(mem, mem', pt, pt', level, g) ==>
                  |pool| - |pool'| + GapSize(FirstGap(mem', pt', level - 1, target, g), target) <=
                    GapSize(FirstGap(mem, pt, level, target, g), target))
  {
    GapInside(mem, pt, level, target, g);
    GapFromHere(mem, pt, level, target, g);
    hide FirstGap, GapClosed;
    if GapClosed(mem, mem', pt, pt', level, g) {
      ClosedFor(mem, mem', pt, pt', level, g, target);
    }
  }

  lemma InstalledHas(mem: Mem, mem': Mem, root: nat, level: int, g: nat, pte: nat)
    requires 1 <= level <= 4 && Installed(mem, mem', root, level, g, pte)
    ensures HasTable(mem', root, level, g)
  {
    hide TableAt;
  }

  lemma NoGapLeft(mem: Mem, pt: nat, level: int, g: nat)
    requires 1 <= level <= 4
    ensures GapSize(FirstGap(mem, pt, level, level, g), level) == 0
  {}

  lemma Begins(mem: Mem, pt: nat, target: int, g: nat, spare: Option<nat>, pool: seq<nat>, unused: bool)
    requires 1 <= target <= 4
    ensures WillEnd(mem, pt, 4, target, g, spare, pool, unused,
              OutcomeOf(FirstGap(mem, pt, 4, target, g), target, spare, pool, unused))
  {}

  lemma Arrives(mem: Mem, pt: nat, target: int, g: nat, spare: Option<nat>, pool: seq<nat>, unused: bool, out: Outcome)
    requires 1 <= target <= 4 && WillEnd(mem, pt, target, target, g, spare, pool, unused, out)
    ensures out == Done
  {}

  /** A step fails only when there is no page left. */
  lemma Short(mem: Mem, pt: nat, level: int, g: nat, spare: Option<nat>, pool: seq<nat>, unused: bool)
    requires 2 <= level <= 4
    ensures !OutcomeOf(FirstGap(mem, pt, level, level - 1, g), level - 1, spare, pool, unused).Done? ==> pool == []
  {}

  /** A way down ends at its level if there are as many pages as it takes. */
  lemma EnoughPages(gap: Gap, target: int, pool: seq<nat>, unused: bool)
    ensures |pool| >= GapSize(gap, target) ==> OutcomeOf(gap, target, None, pool, unused).Done?
  {}

  lemma Ahead(from: nat, phys: nat, max: nat, level: int)
    requires 1 <= level <= 3 && from <= phys && phys + Size(level) <= max
    requires from % Size(level) == 0 && phys % Size(level) == 0
    ensures phys + Size(level) <= RunEnd(from, max, level) <= max && (phys + Size(level)) % Size(level) == 0
    ensures phys < phys + Size(level)
  {
    AddMul(phys, 1, Size(level));
    AtRunEnd(from, phys + Size(level), max, level);
  }

  class Ept {
    const pml4: nat
    var mem: Mem
    /** The pages alloc_page() will hand out. */
    var pool: seq<nat>
    /** Page 0 exists and is not yet a table. */
    var nullUnused: bool
    ghost var tables: map<nat, Label>

    ghost predicate Unused(page: nat)
      reads this
    {
      page !in tables && page !in pool && IsTable(mem, page)
    }

    /** A page that a caller can give; the null pointer stands for none. */
    ghost predicate FreshPage(page: nat)
      reads this
    {
      page != 0 && Unused(page)
    }

    ghost predicate Valid()
      reads this
    {
      && WellFormed(mem, tables)
      && pml4 in tables && tables[pml4] == Label(4, 0)
      && (forall i, j :: 0 <= i < j < |pool| ==> pool[i] != pool[j])
      && (forall page <- pool :: page != 0 && page !in tables && IsTable(mem, page))
      && (nullUnused ==> Unused(0))
    }

    ghost function Translate(g: nat): Option<Translation>
      reads this
    {
      Walk(mem, pml4, 4, g)
    }

    /** An empty tree: the state after memset(pml4, 0, PAGE_SIZE). */
    constructor (pml4: nat, mem: Mem, pool: seq<nat>)
      requires IsTable(mem, pml4) && mem[pml4] == ZERO_PAGE && pml4 != 0 && IsTable(mem, 0)
      requires forall i, j :: 0 <= i < j < |pool| ==> pool[i] != pool[j]
      requires forall page <- pool :: page != 0 && page != pml4 && IsTable(mem, page)
      ensures Valid() && this.pml4 == pml4 && this.mem == mem && this.pool == pool && nullUnused
      ensures forall g: nat :: Translate(g) == None
    {
      this.pml4, this.mem, this.pool, nullUnused := pml4, mem, pool, true;
      tables := map[pml4 := Label(4, 0)];
    }

    /** alloc_page: the next free page.  Its content is overwritten by every caller here. */
    method AllocPage() returns (page: Option<nat>)
      modifies this`pool
      ensures old(pool) == [] ==> page == None && pool == []
      ensures old(pool) != [] ==> page == Some(old(pool)[0]) && pool == old(pool)[1..]
    {
      if pool == [] {
        return None;
      }
      page := Some(pool[0]);
      pool := pool[1..];
    }

    /** Writes the 512 entries that replace the large entry `pte`. */
    method FillSplitTable(page: nat, pte: nat, level: int)
      requires level == 2 || level == 3
      requires page in mem && |mem[page]| == EPT_PGDIR_ENTRIES
      modifies this`mem
      ensures page in mem && IsSplitOf(mem[page], pte, level)
      ensures mem == old(mem)[page := mem[page]]
    {
      var prototype: nat := ClearAddr(pte);
      if level == 2 {
        prototype := ClearLarge(prototype);
      }
      var gpa: nat := Addr(pte);
      for i := 0 to EPT_PGDIR_ENTRIES
        invariant gpa == Addr(pte) + i * Size(level - 1)
        invariant page in mem && |mem[page]| == EPT_PGDIR_ENTRIES
        invariant mem == old(mem)[page := mem[page]]
        invariant forall j: nat :: j < i ==> mem[page][j] == SplitChild(pte, level, j)
      {
        mem := Store(mem, page, i, prototype + gpa);
        gpa := gpa + Size(level - 1);
      }
    }

    /** split_large_ept_entry; false where the source stops because alloc_page() has no page. */
    method SplitLargeEptEntry(pt: nat, offset: nat, level: int, ghost g: nat) returns (ok: bool)
      requires Valid() && (level == 2 || level == 3)
      requires TableAt(mem, pml4, 4, level, g) == Some(pt) && Serves(tables, pt, level, g) && offset == Index(g, level)
      requires g < GPA_LIMIT
      requires var e := Load(mem, pt, offset); Present(e) && Large(e)
      modifies this
      ensures Valid()
      ensures SameViews(old(mem), mem, pml4)
      ensures forall p :: IsTable(old(mem), p) ==> IsTable(mem, p)
      ensures NoneLost(old(mem), mem, pml4) && EntriesKept(old(mem), mem, pml4, g, 1)
      ensures ok <==> old(pool) != []
      ensures !ok ==> pool == old(pool) && mem == old(mem) && tables == old(tables)
      ensures nullUnused == old(nullUnused)
      ensures ok ==>
          var page := Addr(Load(mem, pt, offset));
          page in mem && IsSplitOf(mem[page], Load(old(mem), pt, offset), level)
      ensures ok ==> SplitWords(old(mem), mem, pt, offset, level)
      ensures ok ==> TableAt(mem, pml4, 4, level - 1, g) == Some(Addr(Load(mem, pt, offset)))
      ensures ok ==> Serves(tables, Addr(Load(mem, pt, offset)), level - 1, g)
      ensures ok ==> pool == old(pool)[1..] && tables == old(tables)[old(pool)[0] := Label(level - 1, Region(g, level))]
    {
      hide Region, Size, Addr, PermOf, Present, Large, LeafAddr, SameViews, TableAt, Installed, WellFormed, IsSplitOf;
      hide NoneLost, EntriesKept, SplitWords, Flags;
      RootRegion(g);
      AtRoot(mem, pml4, g);
      EntryThere(mem, tables, pt, level, g);
      NoneLostSame(mem, pml4);
      EntriesKeptSame(mem, pml4, g, 1);
      var pte: nat := mem[pt][offset];
      ghost var e := pte;
      ghost var m0 := mem;
      var newPt := AllocPage();
      if newPt.None? {
        return false;
      }
      var page := newPt.value;
      assert page in old(pool);
      FillSplitTable(page, pte, level);
      ghost var content := mem[page];

      pte := ClearLarge(pte);
      pte := ClearAddr(pte);
      pte := pte + page;
      mem := Store(mem, pt, offset, pte);

      assert mem == WithTable(m0, pt, offset, SplitPointer(e, page), page, content);
      SplitTable(m0, tables, pml4, pt, level, g, page, content);
      AddingLosesNone(m0, tables, pml4, pt, level, g, SplitPointer(e, page), page, content);
      AddingKeepsEntries(m0, tables, pml4, pt, level, g, SplitPointer(e, page), page, content);
      SplitPointerOk(e, page);
      SplitIntoWords(m0, mem, tables, pt, level, g, page);
      assert Load(mem, pt, offset) == pte;
      assert forall p <- pool :: p in old(pool);
      tables := tables[page := Label(level - 1, Region(g, level))];
      ok := true;
    }

    /** Clears page `page` and points the missing entry for `g` to it. */
    method LinkEmptyTable(pt: nat, offset: nat, level: int, g: nat, page: nat)
      requires Valid() && 2 <= level <= 4 && g < GPA_LIMIT && Unused(page) && (page == 0 ==> !nullUnused)
      requires TableAt(mem, pml4, 4, level, g) == Some(pt) && Serves(tables, pt, level, g) && offset == Index(g, level)
      requires !Present(Load(mem, pt, offset))
      modifies this`mem, this`tables
      ensures Valid() && tables == old(tables)[page := Label(level - 1, Region(g, level))]
      ensures SameViews(old(mem), mem, pml4)
      ensures TableAt(mem, pml4, 4, level - 1, g) == Some(page) && Serves(tables, page, level - 1, g)
      ensures NoneLost(old(mem), mem, pml4) && EntriesKept(old(mem), mem, pml4, g, 1)
      ensures var e := Load(mem, pt, offset); Addr(e) == page && Flags(e) == (0, 7) && !Large(e)
      ensures page in mem && mem[page] == ZERO_PAGE
      ensures forall p :: IsTable(old(mem), p) ==> IsTable(mem, p)
    {
      hide Region, Size, Addr, PermOf, Present, Large, LeafAddr, SameViews, TableAt, Installed, NoneLost, Flags;
      hide EntriesKept;
      RootRegion(g);
      ghost var m := mem;
      mem := mem[page := ZERO_PAGE];
      mem := Store(mem, pt, offset, TableEntry(page));
      assert mem == WithTable(m, pt, offset, TableEntry(page), page, ZERO_PAGE);
      NewTable(m, tables, pml4, pt, level, g, page);
      AddingLosesNone(m, tables, pml4, pt, level, g, TableEntry(page), page, ZERO_PAGE);
      AddingKeepsEntries(m, tables, pml4, pt, level, g, TableEntry(page), page, ZERO_PAGE);
      TableEntryOk(page);
      tables := tables[page := Label(level - 1, Region(g, level))];
    }

    /** The page for a missing table: `spare`, a page of the allocator, or else page 0, which stands for null. */
    method TakePage(spare: Option<nat>) returns (page: Option<nat>)
      requires Valid() && (spare.Some? ==> FreshPage(spare.value))
      modifies this`pool, this`nullUnused
      ensures Valid() && (pool == old(pool) || (old(pool) != [] && pool == old(pool)[1..]))
      ensures page == if spare.Some? then spare else if old(pool) != [] then Some(old(pool)[0])
                      else if old(nullUnused) then Some(0) else None
      ensures spare.Some? ==> pool == old(pool) && nullUnused == old(nullUnused)
      ensures page.Some? <==> Supply(spare, old(pool), old(nullUnused)) > 0
      ensures page.Some? ==> Unused(page.value) && (page.value == 0 ==> !nullUnused)
                             && Supply(None, pool, nullUnused) == Supply(spare, old(pool), old(nullUnused)) - 1
    {
      if spare.Some? {
        return spare;
      }
      page := AllocPage();
      if page.Some? {
        assert page.value in old(pool) && forall p <- pool :: p in old(pool);
      } else if nullUnused {
        nullUnused := false;
        page := Some(0);
      }
    }

    /** One step of install_ept_entry's way down: makes sure that there is a table below the entry for `g`. */
    method Descend(pt: nat, level: int, g: nat, spare: Option<nat>)
      returns (out: Outcome, spare': Option<nat>, pt': nat)
      requires Valid() && 2 <= level <= 4 && g < GPA_LIMIT
      requires spare.Some? ==> FreshPage(spare.value)
      requires TableAt(mem, pml4, 4, level, g) == Some(pt) && Serves(tables, pt, level, g)
      modifies this
      ensures Valid() && SameViews(old(mem), mem, pml4) && NoneLost(old(mem), mem, pml4)
      ensures EntriesKept(old(mem), mem, pml4, g, 1)
      ensures pool == old(pool) || (old(pool) != [] && pool == old(pool)[1..])
      ensures forall p <- old(tables) :: p in tables && tables[p] == old(tables)[p]
      ensures out ==
                OutcomeOf(FirstGap(old(mem), pt, level, level - 1, g), level - 1, spare, old(pool), old(nullUnused))
      ensures out.Done? ==> TableAt(mem, pml4, 4, level - 1, g) == Some(pt') && Serves(tables, pt', level - 1, g)
      ensures out.Done? ==> GapClosed(old(mem), mem, pt, pt', level, g)
                            && Taken(FirstGap(old(mem), pt, level, level - 1, g), spare, old(pool), old(nullUnused),
                                 spare', pool, nullUnused)
      ensures spare'.Some? ==> FreshPage(spare'.value)
    {
      hide Region, Size, Addr, PermOf, Present, Large, LeafAddr, SameViews, TableAt, Installed, IsSplitOf, FirstGap;
      hide GapClosed, WellFormed, NoneLost, EntriesKept, SplitWords, Flags;
      var offset := Index(g, level);
      pt', spare' := pt, spare;
      RootRegion(g);
      AtRoot(mem, pml4, g);
      NoneLostSame(mem, pml4);
      EntriesKeptSame(mem, pml4, g, 1);
      GapHere(mem, tables, pt, level, g);
      if !Present(mem[pt][offset]) {
        var newPt := TakePage(spare);
        spare' := None;
        if newPt.None? {
          return NullReused, None, pt;
        }
        LinkEmptyTable(pt, offset, level, g, newPt.value);
      } else if Large(mem[pt][offset]) {
        var done := SplitLargeEptEntry(pt, offset, level, g);
        if !done {
          return Stopped, spare', pt;
        }
      } else {
        ChildServes(mem, tables, pt, level, g);
        TableAtExtend(mem, pml4, 4, level, g);
      }
      EntryThere(mem, tables, pt, level, g);
      pt' := Addr(mem[pt][offset]);
      GapIsClosed(old(mem), mem, pt, pt', level, g);
      out := Done;
    }

    /**
     install_ept_entry: puts `pte` at level `pteLevel` on the way of `g`. How it ends is known from where the
     way breaks off and how many pages there are.
     */
    method InstallEptEntry(pteLevel: int, g: nat, pte: nat, ptPage: Option<nat>) returns (out: Outcome)
      requires Valid() && 1 <= pteLevel <= 4 && g < GPA_LIMIT
      requires ptPage.Some? ==> FreshPage(ptPage.value)
      requires EntryOk(tables, Label(pteLevel, Region(g, pteLevel + 1)), Index(g, pteLevel), pte)
      modifies this
      ensures Valid() && |pool| <= |old(pool)| && pool == old(pool)[|old(pool)| - |pool|..]
      ensures out == OutcomeOf(FirstGap(old(mem), pml4, 4, pteLevel, g), pteLevel, ptPage, old(pool), old(nullUnused))
      ensures EntriesKept(old(mem), mem, pml4, g, if out.Done? then pteLevel else 1)
      ensures !out.Done? ==> pool == [] && SameViews(old(mem), mem, pml4)
      ensures out.Done? ==> Installed(old(mem), mem, pml4, pteLevel, g, pte)
      ensures |old(pool)| - |pool| <= GapSize(FirstGap(old(mem), pml4, 4, pteLevel, g), pteLevel)
      ensures out.Done? ==> NoneLostBut(old(mem), mem, pml4, pteLevel, g) && HasTable(mem, pml4, pteLevel, g)
    {
      hide Region, Size, Addr, PermOf, Present, Large, LeafAddr, SameViews, TableAt, Installed;
      hide FirstGap, GapClosed, WillEnd, OutcomeOf, Taken, WellFormed, NoneLost, NoneLostBut, GapSize, EntriesKept;
      var level := EPT_PAGE_LEVEL;
      var pt := pml4;
      var spare := ptPage;
      ghost var end := OutcomeOf(FirstGap(mem, pml4, 4, pteLevel, g), pteLevel, ptPage, pool, nullUnused);
      Begins(mem, pml4, pteLevel, g, ptPage, pool, nullUnused);
      out := Done;
      RootRegion(g);
      AtRoot(mem, pml4, g);
      NoneLostSame(mem, pml4);
      EntriesKeptSame(mem, pml4, g, 1);
      GapInside(mem, pml4, 4, pteLevel, g);
      while level > pteLevel
        invariant pteLevel <= level <= 4
        invariant Valid() && |pool| <= |old(pool)| && pool == old(pool)[|old(pool)| - |pool|..]
        invariant forall p <- old(tables) :: p in tables && tables[p] == old(tables)[p]
        invariant spare.Some? ==> FreshPage(spare.value)
        invariant TableAt(mem, pml4, 4, level, g) == Some(pt) && Serves(tables, pt, level, g)
        invariant SameViews(old(mem), mem, pml4) && NoneLost(old(mem), mem, pml4)
        invariant EntriesKept(old(mem), mem, pml4, g, 1)
        invariant |old(pool)| - |pool| + GapSize(FirstGap(mem, pt, level, pteLevel, g), pteLevel) <=
                    GapSize(FirstGap(old(mem), pml4, 4, pteLevel, g), pteLevel)
        invariant WillEnd(mem, pt, level, pteLevel, g, spare, pool, nullUnused, end) && out.Done?
      {
        ghost var m, pt0, spare0, pool0, null0 := mem, pt, spare, pool, nullUnused;
        out, spare, pt := Descend(pt, level, g, spare);
        SameViewsTrans(old(mem), m, mem, pml4);
        NoneLostTrans(old(mem), m, mem, pml4);
        EntriesKeptThen(old(mem), m, mem, pml4, g, 1);
        OnePage(m, mem, pt0, pt, level, pteLevel, g, spare0, pool0, null0, spare, pool, nullUnused);
        OneStep(m, mem, pt0, pt, level, pteLevel, g, spare0, pool0, null0, spare, pool, nullUnused, end);
        if !out.Done? {
          Short(m, pt0, level, g, spare0, pool0, null0);
          return;
        }
        level := level - 1;
      }
      Arrives(mem, pt, pteLevel, g, spare, pool, nullUnused, end);
      ghost var m := mem;
      mem := Store(mem, pt, Index(g, level), pte);
      PutEntry(m, tables, pml4, pt, level, g, pte);
      InstalledAfter(old(mem), m, mem, pml4, level, g, pte);
      StoringLosesNone(m, tables, pml4, pt, level, g, pte);
      StoringKeepsEntries(m, tables, pml4, pt, level, g, pte);
      EntriesKeptThen(old(mem), m, mem, pml4, g, level);
      NoneLostThen(old(mem), m, mem, pml4, level, g);
      InstalledHas(old(mem), mem, pml4, level, g, pte);
      NoGapLeft(m, pt, level, g);
    }

    /** get_ept_pte: the entry for `g` at `level`, or none when the way down is missing or large. */
    method GetEptPte(g: nat, level: int) returns (pte: Option<nat>)
      requires Valid() && 1 <= level <= 4 && g < GPA_LIMIT
      ensures pte == EptPte(mem, pml4, level, g)
    {
      var l := EPT_PAGE_LEVEL;
      var pt := pml4;
      RootRegion(g);
      while true
        invariant level <= l <= 4 && Serves(tables, pt, l, g)
        invariant TableAt(mem, pml4, 4, level, g) == TableAt(mem, pt, l, level, g)
        decreases l
      {
        hide Region, Size, Addr, PermOf, Present, Large;
        var offset := Index(g, l);
        var iterPte := mem[pt][offset];
        if l == level {
          return Some(iterPte);
        }
        if l < 4 && Large(iterPte) {
          return None;
        }
        if !Present(iterPte) {
          return None;
        }
        ChildServes(mem, tables, pt, l, g);
        pt := Addr(iterPte);
        l := l - 1;
      }
    }

    /** set_ept_pte: overwrites the entry for `g` at `level`, whose way down must exist. */
    method SetEptPte(g: nat, level: int, pte: nat)
      requires Valid() && 1 <= level <= 4 && g < GPA_LIMIT
      requires EptPte(mem, pml4, level, g).Some?
      requires EntryOk(tables, Label(level, Region(g, level + 1)), Index(g, level), pte)
      modifies this`mem
      ensures Valid() && Installed(old(mem), mem, pml4, level, g, pte)
      ensures EntriesKept(old(mem), mem, pml4, g, level)
    {
      var l := EPT_PAGE_LEVEL;
      var pt := pml4;
      RootRegion(g);
      while l != level
        invariant level <= l <= 4 && Serves(tables, pt, l, g)
        invariant TableAt(mem, pml4, 4, level, g) == TableAt(mem, pt, l, level, g)
        invariant mem == old(mem)
        decreases l
      {
        hide Region, Size, Addr, PermOf, Present, Large;
        ChildServes(mem, tables, pt, l, g);
        pt := Addr(mem[pt][Index(g, l)]);
        l := l - 1;
      }
      hide Region, Size, Addr, PermOf, Present, Large, Installed, EntriesKept;
      StoringKeepsEntries(mem, tables, pml4, pt, level, g, pte);
      PutEntry(mem, tables, pml4, pt, level, g, pte);
      mem := Store(mem, pt, Index(g, level), pte);
    }

    /** install_ept, install_2m_ept and install_1g_ept, for pages of level 1, 2 and 3. */
    method InstallPage(level: int, phys: nat, g: nat, perm: nat) returns (out: Outcome)
      requires Valid() && 1 <= level <= 3 && g < GPA_LIMIT
      requires phys < GPA_LIMIT && phys % Size(level) == 0 && Addr(perm) == 0
      modifies this
      ensures Valid() && |pool| <= |old(pool)| && pool == old(pool)[|old(pool)| - |pool|..]
      ensures out == OutcomeOf(FirstGap(old(mem), pml4, 4, level, g), level, None, old(pool), old(nullUnused))
      ensures !out.Done? ==> pool == [] && SameViews(old(mem), mem, pml4)
      ensures out.Done? ==> Installed(old(mem), mem, pml4, level, g, LeafFor(phys, level, perm))
      ensures out.Done? ==>
          var e := EptPte(mem, pml4, level, g); e.Some? && MapsPage(e.value, level, phys, perm)
      ensures EntriesKept(old(mem), mem, pml4, g, if out.Done? then level else 1)
      ensures |old(pool)| - |pool| <= GapSize(FirstGap(old(mem), pml4, 4, level, g), level)
      ensures out.Done? ==> NoneLostBut(old(mem), mem, pml4, level, g) && HasTable(mem, pml4, level, g)
    {
      hide Region, Size, Addr, PermOf, Present, Large, LeafAddr, LeafFor, SameViews, NoneLostBut, HasTable, EntriesKept;
      hide Flags, WellFormed, OutcomeOf, FirstGap, GapSize, Walk, SameView;
      LeafForOk(phys, level, perm);
      out := InstallEptEntry(level, g, LeafFor(phys, level, perm), None);
    }

    /**
     One of setup_ept_range's loops: maps whole pages of `level` from `from` on. Without enough pages, which are no
     more than the tables lacking, it gets as far as the page at `phys`.
     */
    method MapRun(level: int, from: nat, max: nat, perm: nat) returns (out: Outcome, phys: nat)
      requires Valid() && 1 <= level <= 3 && from <= max <= GPA_LIMIT
      requires from % Size(level) == 0 && Addr(perm) == 0
      modifies this
      ensures Valid() && (!out.Done? ==> pool == [])
      ensures from <= phys <= RunEnd(from, max, level) <= max && (out.Done? <==> phys == RunEnd(from, max, level))
      ensures MappedRun(old(mem), mem, pml4, from, phys, level, perm)
      ensures |old(pool)| >= |Lacking(old(mem), pml4, from, RunEnd(from, max, level), level)| ==> out.Done?
      ensures |old(pool)| - |pool| <= |Lacking(old(mem), pml4, from, RunEnd(from, max, level), level)|
      ensures out.Done? ==> NoneLostOutside(old(mem), mem, pml4, from, phys, level)
      ensures EntriesBehindKept(old(mem), mem, pml4, from, level)
    {
      hide Region, Size, Addr, PermOf, Present, Large, LeafAddr, LeafFor, Installed, SameViews, MappedRun, RunEnd;
      hide NoneLostBut, NoneLostOutside, HasTable, Lacking, WellFormed, FirstGap, GapSize, OutcomeOf, RunAt;
      hide EntriesKept, EntriesBehindKept, EptPte, MapsPage, IsTable;
      ghost var end := RunEnd(from, max, level);
      phys := from;
      RunBegins(mem, pml4, from, end, level, perm);
      AtRunEnd(from, phys, max, level);
      while phys + Size(level) <= max
        invariant Valid() && from <= phys <= max && phys % Size(level) == 0
        invariant from <= phys <= RunEnd(from, max, level) <= max
        invariant RunAt(old(mem), mem, pml4, from, phys, end, level, perm, |old(pool)| - |pool|)
      {
        ghost var m, tables0, pool0, null0 := mem, tables, pool, nullUnused;
        RootRegion(phys);
        Ahead(from, phys, max, level);
        out := InstallPage(level, phys, phys, perm);
        if !out.Done? {
          EnoughPages(FirstGap(m, pml4, 4, level, phys), level, pool0, null0);
          RunStops(old(mem), m, mem, tables0, pml4, from, phys, end, level, perm, |old(pool)| - |pool0|);
          return;
        }
        RunStep(old(mem), m, mem, tables0, pml4, from, phys, end, level, perm, |old(pool)| - |pool0|,
                |pool0| - |pool|);
        phys := phys + Size(level);
      }
      AtRunEnd(from, phys, max, level);
      RunEnds(old(mem), mem, pml4, from, phys, end, level, perm, |old(pool)| - |pool|);
      out := Done;
    }

    /** setup_ept_range, which comes to its end if there are as many pages as tables lacking. */
    method SetupEptRange(r: Range, perm: nat) returns (out: Outcome)
      requires Valid() && r.Ok() && Addr(perm) == 0
      modifies this
      ensures Valid() && (!out.Done? ==> pool == [])
      ensures End1g(r) <= r.start + r.len && (|old(pool)| >= RangeLack(old(mem), pml4, r) ==> out.Done?)
      ensures out.Done? ==> MappedRange(old(mem), mem, pml4, r, r.start + r.len, perm)
      ensures !out.Done? ==>
          exists to :: r.start <= to < r.start + r.len && MappedRange(old(mem), mem, pml4, r, to, perm)
    {
      hide Region, Size, Addr, PermOf, Present, Large, MappedRun, MappedRange, RunEnd, r.LevelOf, Lacking;
      hide NoneLostOutside, HasTable, EntriesBehindKept, PagesBehind, WellFormed, IsTable;
      Ends(r);
      EndsAligned(r);
      EndsWithin(r);
      Levels(r);
      AllBehind(r);
      MappedRangeEmpty(mem, pml4, r, perm);
      var phys: nat := r.start;
      var max := r.start + r.len;
      ghost var m;
      ghost var from;
      if r.map1g {
        m, from := mem, phys;
        out, phys := MapRun(3, phys, max, perm);
        MappedRangeExtend(old(mem), m, mem, pml4, r, from, phys, 3, perm);
        if !out.Done? {
          return;
        }
        LaterLack(m, mem, pml4, from, phys, 3, phys, End2m(r), 2);
        LaterLack(m, mem, pml4, from, phys, 3, End2m(r), max, 1);
      }
      if r.map2m {
        m, from := mem, phys;
        out, phys := MapRun(2, phys, max, perm);
        MappedRangeExtend(old(mem), m, mem, pml4, r, from, phys, 2, perm);
        if !out.Done? {
          return;
        }
        LaterLack(m, mem, pml4, from, phys, 2, phys, max, 1);
      }
      m, from := mem, phys;
      out, phys := MapRun(1, phys, max, perm);
      MappedRangeExtend(old(mem), m, mem, pml4, r, from, phys, 1, perm);
    }
  }
}
