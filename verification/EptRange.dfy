/**
 Mapping a range of guest addresses one to one with the largest pages allowed
 (setup_ept_range in x86/vmx.c).
 */
module EptRange {
  import opened Words
  import opened Wrappers
  import opened Arith
  import opened EptWords
  import opened EptTables
  import opened EptCount

  // ----- mapping a range one to one -----

  /** What a guest address of a mapped range translates to: itself, with `perm` as far as the
      entries above level `level` in `mem` grant it. */
  function Identity(mem: Mem, root: nat, level: int, perm: nat, a: nat): Option<Translation>
    requires 1 <= level <= 4
  {
    if Present(perm) then Some(Translation(a, PermOf(perm).Meet(PathPerm(mem, root, 4, level, a)))) else None
  }

  /** The entry for `a` at `level` maps the page of `a` to itself. */
  predicate HasEntry(mem: Mem, root: nat, level: int, perm: nat, a: nat)
    requires 1 <= level <= 3
  {
    var e := EptPte(mem, root, level, a);
    e.Some? && MapsPage(e.value, level, Region(a, level) * Size(level), perm)
  }

  /** Memory `mem'` maps [from, to) one to one with pages of `level`, and is otherwise `mem`. */
  ghost predicate MappedRun(mem: Mem, mem': Mem, root: nat, from: nat, to: nat, level: int, perm: nat)
    requires 1 <= level <= 3
  {
    && (forall a: nat :: from <= a < to ==> Walk(mem', root, 4, a) == Identity(mem, root, level, perm, a))
    && (forall a: nat :: from <= a < to ==> HasEntry(mem', root, level, perm, a))
    && (forall a: nat :: a < GPA_LIMIT && !(from <= a < to) ==> SameView(mem, mem', root, 4, a))
  }

  /** What maps the pages before `to` stays when only entries aside of the one for `to` do. */
  lemma EntriesStay(mem: Mem, mem': Mem, root: nat, from: nat, to: nat, level: int, perm: nat)
    requires 1 <= level <= 3 && to <= GPA_LIMIT && to % Size(level) == 0 && EntriesKept(mem, mem', root, to, level)
    requires forall a: nat :: from <= a < to ==> HasEntry(mem, root, level, perm, a)
    ensures forall a: nat :: from <= a < to ==> HasEntry(mem', root, level, perm, a)
  {
    hide Region, Size, EptPte, MapsPage, HasTable, Behind, Aside;
    forall a: nat | from <= a < to
      ensures HasEntry(mem', root, level, perm, a)
    {
      assert HasEntry(mem, root, level, perm, a);
      PageBehind(a, level, to);
      BehindIsAside(a, level, to, to, level);
      HasEntryIff(mem, root, level, a);
    }
  }

  /** The page that has just been installed at `to`. */
  lemma EntryNew(mem: Mem, root: nat, to: nat, level: int, perm: nat, a: nat)
    requires 1 <= level <= 3 && to % Size(level) == 0 && to <= a < to + Size(level)
    requires var e := EptPte(mem, root, level, to); e.Some? && MapsPage(e.value, level, to, perm)
    ensures HasEntry(mem, root, level, perm, a)
  {
    RegionIs(a, to, level);
    hide Region, Size, EptPte, MapsPage;
    SameEntry(mem, root, level, to, a);
    RegionStart(to, level);
  }

  lemma MappedRunStep(mem: Mem, mem1: Mem, mem2: Mem, root: nat, from: nat, to: nat, level: int, perm: nat)
    requires 1 <= level <= 3 && from <= to && to % Size(level) == 0 && to + Size(level) <= GPA_LIMIT && Addr(perm) == 0
    requires MappedRun(mem, mem1, root, from, to, level, perm)
    requires Installed(mem1, mem2, root, level, to, LeafFor(to, level, perm))
    requires EntriesKept(mem1, mem2, root, to, level)
    requires var e := EptPte(mem2, root, level, to); e.Some? && MapsPage(e.value, level, to, perm)
    ensures MappedRun(mem, mem2, root, from, to + Size(level), level, perm)
  {
    hide Region, Size, Addr, PermOf, Present, Large, LeafAddr, LeafFor, HasEntry, MapsPage, EntriesKept;
    EntriesStay(mem1, mem2, root, from, to, level, perm);
    forall a: nat | from <= a < to + Size(level)
      ensures HasEntry(mem2, root, level, perm, a)
    {
      if a >= to {
        EntryNew(mem2, root, to, level, perm, a);
      }
    }
    var leaf := LeafFor(to, level, perm);
    LeafForOk(to, level, perm);
    forall a: nat | from <= a < to + Size(level)
      ensures Walk(mem2, root, 4, a) == Identity(mem, root, level, perm, a)
    {
      RegionIs(a, to, level);
      if a < to {
        assert SameView(mem1, mem2, root, 4, a);
      } else {
        assert SameView(mem, mem1, root, 4, a);
        PathPermSameRegion(mem1, root, 4, level, to, a);
        LeafForAddr(to, level, leaf, a);
      }
    }
    forall a: nat | a < GPA_LIMIT && !(from <= a < to + Size(level))
      ensures SameView(mem, mem2, root, 4, a)
    {
      RegionIs(a, to, level);
      assert SameView(mem, mem1, root, 4, a) && SameView(mem1, mem2, root, 4, a);
    }
  }

  lemma MappedRunKept(mem: Mem, mem1: Mem, mem2: Mem, root: nat, from: nat, to: nat, level: int, perm: nat)
    requires 1 <= level <= 3 && to <= GPA_LIMIT && to % Size(level) == 0
    requires MappedRun(mem, mem1, root, from, to, level, perm) && SameViews(mem1, mem2, root)
    requires EntriesKept(mem1, mem2, root, to, level)
    ensures MappedRun(mem, mem2, root, from, to, level, perm)
  {
    hide Region, Size, Addr, PermOf, Present, Large, LeafAddr, LeafFor, HasEntry, MapsPage, EntriesKept;
    EntriesStay(mem1, mem2, root, from, to, level, perm);
    forall a: nat | a < GPA_LIMIT
      ensures SameView(mem1, mem2, root, 4, a)
      ensures !(from <= a < to) ==> SameView(mem, mem2, root, 4, a)
    {
      assert !(from <= a < to) ==> SameView(mem, mem1, root, 4, a);
    }
    forall a: nat | from <= a < to
      ensures Walk(mem2, root, 4, a) == Identity(mem, root, level, perm, a)
    {
      assert SameView(mem1, mem2, root, 4, a);
    }
  }

  lemma MappedRunEmpty(mem: Mem, root: nat, from: nat, level: int, perm: nat)
    requires 1 <= level <= 3
    ensures MappedRun(mem, mem, root, from, from, level, perm)
  {}

  /** How far whole pages of `level` reach from `from` towards `max`. */
  function RunEnd(from: nat, max: nat, level: int): nat
    requires 1 <= level <= 3 && from <= max
  {
    from + (max - from) / Size(level) * Size(level)
  }

  lemma AtRunEnd(from: nat, phys: nat, max: nat, level: int)
    requires 1 <= level <= 3 && from <= phys <= max
    requires from % Size(level) == 0 && phys % Size(level) == 0
    ensures phys <= RunEnd(from, max, level) <= max
    ensures max < phys + Size(level) ==> phys == RunEnd(from, max, level)
  {
    hide Size;
    var s := Size(level);
    var p, f := phys / s, from / s;
    assert phys == p * s && from == f * s;
    assert phys - from == (p - f) * s;
    FloorReaches(max - from, p - f, s);
  }

  // One loop of setup_ept_range.

  /** The pages from `from` to `at` are mapped, nothing else is lost, and `taken` pages paid for tables that lacked. */
  ghost predicate RunAt(mem: Mem, mem': Mem, root: nat, from: nat, at: nat, end: nat, level: int, perm: nat, taken: int)
    requires 1 <= level <= 3
  {
    && MappedRun(mem, mem', root, from, at, level, perm)
    && NoneLostOutside(mem, mem', root, from, at, level)
    && EntriesBehindKept(mem, mem', root, from, level)
    && taken + |Lacking(mem', root, at, end, level)| <= |Lacking(mem, root, from, end, level)|
  }

  lemma RunBegins(mem: Mem, root: nat, from: nat, end: nat, level: int, perm: nat)
    requires 1 <= level <= 3
    ensures RunAt(mem, mem, root, from, from, end, level, perm, 0)
  {
    hide HasTable, EptPte, Lacking, Behind;
    MappedRunEmpty(mem, root, from, level, perm);
    EntriesBehindSame(mem, root, from, level);
  }

  /** One page more. */
  lemma RunStep(mem: Mem, mem1: Mem, mem2: Mem, tables: map<nat, Label>, root: nat, from: nat, at: nat, end: nat,
                level: int, perm: nat, taken: int, n: int)
    requires 1 <= level <= 3 && from <= at && at % Size(level) == 0 && Addr(perm) == 0
    requires at + Size(level) <= end <= GPA_LIMIT && WellFormed(mem1, tables) && Serves(tables, root, 4, at)
    requires RunAt(mem, mem1, root, from, at, end, level, perm, taken)
    requires Installed(mem1, mem2, root, level, at, LeafFor(at, level, perm))
    requires EntriesKept(mem1, mem2, root, at, level)
    requires var e := EptPte(mem2, root, level, at); e.Some? && MapsPage(e.value, level, at, perm)
    requires NoneLostBut(mem1, mem2, root, level, at) && HasTable(mem2, root, level, at)
    requires n <= GapSize(FirstGap(mem1, root, 4, level, at), level)
    ensures RunAt(mem, mem2, root, from, at + Size(level), end, level, perm, taken + n)
  {
    hide Size, Addr, MappedRun, NoneLostOutside, EntriesBehindKept, Lacking, WellFormed, Installed, LeafFor, MapsPage;
    hide EntriesKept, NoneLostBut, HasTable, FirstGap, GapSize, EptPte, Region;
    MappedRunStep(mem, mem1, mem2, root, from, at, level, perm);
    LackingStep(mem1, mem2, tables, root, at, end, level, Size(level));
    NoneLostStep(mem, mem1, mem2, root, from, at, level);
    EntriesBehindThen(mem, mem1, mem2, root, from, at, level);
  }

  lemma RunEnds(mem: Mem, mem': Mem, root: nat, from: nat, at: nat, end: nat, level: int, perm: nat, taken: int)
    requires 1 <= level <= 3 && RunAt(mem, mem', root, from, at, end, level, perm, taken)
    ensures MappedRun(mem, mem', root, from, at, level, perm) && NoneLostOutside(mem, mem', root, from, at, level)
    ensures EntriesBehindKept(mem, mem', root, from, level) && taken <= |Lacking(mem, root, from, end, level)|
  {}

  /** A page that could not be installed. */
  lemma RunStops(mem: Mem, mem1: Mem, mem2: Mem, tables: map<nat, Label>, root: nat, from: nat, at: nat, end: nat,
                 level: int, perm: nat, taken: int)
    requires 1 <= level <= 3 && from <= at && at % Size(level) == 0
    requires at < end <= GPA_LIMIT && WellFormed(mem1, tables) && Serves(tables, root, 4, at)
    requires RunAt(mem, mem1, root, from, at, end, level, perm, taken)
    requires SameViews(mem1, mem2, root) && EntriesKept(mem1, mem2, root, at, 1)
    ensures MappedRun(mem, mem2, root, from, at, level, perm) && EntriesBehindKept(mem, mem2, root, from, level)
    ensures taken + GapSize(FirstGap(mem1, root, 4, level, at), level) <= |Lacking(mem, root, from, end, level)|
  {
    hide Size, MappedRun, NoneLostOutside, EntriesBehindKept, Lacking, WellFormed, EntriesKept, FirstGap, GapSize;
    hide SameViews;
    EntriesKeptAbove(mem1, mem2, root, at, level);
    MappedRunKept(mem, mem1, mem2, root, from, at, level, perm);
    EntriesBehindThen(mem, mem1, mem2, root, from, at, level);
    GapIsLacking(mem1, tables, root, at, end, level);
  }

  // The whole of setup_ept_range.

  datatype Range = Range(start: nat, len: nat, map1g: bool, map2m: bool) {
    ghost predicate Ok() {
      && start + len <= GPA_LIMIT && len % PAGE_SIZE == 0
      && start % (if map1g then PAGE_SIZE_1G else if map2m then PAGE_SIZE_2M else PAGE_SIZE) == 0
    }

    /** The level of the page that maps `a`: the largest enabled one that still fits. */
    function LevelOf(a: nat): (level: int)
      ensures 1 <= level <= 3
    {
      if map1g && a < start + len / PAGE_SIZE_1G * PAGE_SIZE_1G then 3
      else if map2m && a < start + len / PAGE_SIZE_2M * PAGE_SIZE_2M then 2
      else 1
    }
  }

  /** Every address of the range, up to `to`, has an entry of its page's level with all of `perm`, and translates to
      itself, with `perm` as far as the entries above granted it before; every other address as before. */
  ghost predicate MappedRange(mem: Mem, mem': Mem, root: nat, r: Range, to: nat, perm: nat) {
    && (forall a: nat :: r.start <= a < to ==> Walk(mem', root, 4, a) == Identity(mem, root, r.LevelOf(a), perm, a))
    && (forall a: nat :: r.start <= a < to ==> HasEntry(mem', root, r.LevelOf(a), perm, a))
    && (forall a: nat :: a < GPA_LIMIT && !(r.start <= a < to) ==> SameView(mem, mem', root, 4, a))
  }

  /** The pages of the range before `from` end there, and none is of a lower level than the next. */
  ghost predicate PagesBehind(r: Range, from: nat, level: int) {
    forall a: nat :: r.start <= a < from ==> level <= r.LevelOf(a) && Behind(a, r.LevelOf(a), from)
  }

  lemma RangeEntriesStay(mem: Mem, mem': Mem, root: nat, r: Range, from: nat, level: int, perm: nat)
    requires 1 <= level <= 3 && from <= GPA_LIMIT && PagesBehind(r, from, level)
    requires EntriesBehindKept(mem, mem', root, from, level)
    requires forall a: nat :: r.start <= a < from ==> HasEntry(mem, root, r.LevelOf(a), perm, a)
    ensures forall a: nat :: r.start <= a < from ==> HasEntry(mem', root, r.LevelOf(a), perm, a)
  {
    hide Region, Size, EptPte, MapsPage, HasTable, Behind, r.LevelOf;
    forall a: nat | r.start <= a < from
      ensures HasEntry(mem', root, r.LevelOf(a), perm, a)
    {
      assert HasEntry(mem, root, r.LevelOf(a), perm, a);
      HasEntryIff(mem, root, r.LevelOf(a), a);
    }
  }

  lemma MappedRangeExtend(mem: Mem, mem1: Mem, mem2: Mem, root: nat, r: Range, from: nat, to: nat, level: int,
                          perm: nat)
    requires 1 <= level <= 3 && r.start <= from <= to <= GPA_LIMIT
    requires MappedRange(mem, mem1, root, r, from, perm)
    requires MappedRun(mem1, mem2, root, from, to, level, perm)
    requires PagesBehind(r, from, level) && EntriesBehindKept(mem1, mem2, root, from, level)
    requires forall a: nat :: from <= a < to ==> r.LevelOf(a) == level
    ensures MappedRange(mem, mem2, root, r, to, perm)
  {
    hide Region, Size, Addr, PermOf, Present, Large, LeafAddr, LeafFor, r.LevelOf, HasEntry, EntriesBehindKept;
    RangeEntriesStay(mem1, mem2, root, r, from, level, perm);
    forall a: nat | r.start <= a < to
      ensures Walk(mem2, root, 4, a) == Identity(mem, root, r.LevelOf(a), perm, a)
    {
      if a < from {
        assert SameView(mem1, mem2, root, 4, a);
      } else {
        assert SameView(mem, mem1, root, 4, a);
      }
    }
    forall a: nat | a < GPA_LIMIT && !(r.start <= a < to)
      ensures SameView(mem, mem2, root, 4, a)
    {
      assert SameView(mem, mem1, root, 4, a) && SameView(mem1, mem2, root, 4, a);
    }
  }

  /** When the range gets exactly `perm`: if and only if no entry above the page withheld any of it. */
  lemma ExactPermission(mem: Mem, mem': Mem, root: nat, r: Range, perm: nat, a: nat)
    requires MappedRange(mem, mem', root, r, r.start + r.len, perm)
    requires r.start <= a < r.start + r.len && Present(perm)
    ensures Walk(mem', root, 4, a) == Some(Translation(a, PermOf(perm))) <==>
            PathPerm(mem, root, 4, r.LevelOf(a), a).Includes(PermOf(perm))
  {
    hide Region, Size, Addr, Present, Large, LeafAddr, LeafFor, PathPerm, r.LevelOf;
    assert Walk(mem', root, 4, a) == Identity(mem, root, r.LevelOf(a), perm, a);
  }

  lemma MappedRangeEmpty(mem: Mem, root: nat, r: Range, perm: nat)
    ensures MappedRange(mem, mem, root, r, r.start, perm)
  {}

  /** Where the first two loops of setup_ept_range end. */
  function End1g(r: Range): nat { if r.map1g then RunEnd(r.start, r.start + r.len, 3) else r.start }

  function End2m(r: Range): nat
    requires End1g(r) <= r.start + r.len
  {
    if r.map2m then RunEnd(End1g(r), r.start + r.len, 2) else End1g(r)
  }

  lemma Floor1G(n: nat)
    ensures n / PAGE_SIZE_1G * PAGE_SIZE_1G <= n
    ensures (n - n / PAGE_SIZE_1G * PAGE_SIZE_1G) / PAGE_SIZE_2M * PAGE_SIZE_2M
            == n / PAGE_SIZE_2M * PAGE_SIZE_2M - n / PAGE_SIZE_1G * PAGE_SIZE_1G
  {
    var q, d := n / PAGE_SIZE_1G, n / PAGE_SIZE_2M;
    DivIs(n - q * PAGE_SIZE_1G, d - 512 * q, PAGE_SIZE_2M);
  }

  lemma Ends(r: Range)
    requires r.Ok()
    ensures r.start <= End1g(r) <= r.start + r.len
    ensures End1g(r) <= End2m(r) <= r.start + r.len
    ensures r.map1g ==> End1g(r) == r.start + r.len / PAGE_SIZE_1G * PAGE_SIZE_1G
    ensures r.map2m ==> End2m(r) == r.start + r.len / PAGE_SIZE_2M * PAGE_SIZE_2M
  {
    Floor1G(r.len);
  }

  lemma Coarser(n: nat)
    ensures n % PAGE_SIZE_1G == 0 ==> n % PAGE_SIZE_2M == 0
    ensures n % PAGE_SIZE_2M == 0 ==> n % PAGE_SIZE == 0
  {
    DivMul(n, PAGE_SIZE_2M, 512, PAGE_SIZE_1G);
    DivMul(n, PAGE_SIZE, 512, PAGE_SIZE_2M);
  }

  lemma EndsAligned(r: Range)
    requires r.Ok() && End1g(r) <= r.start + r.len
    ensures r.map1g ==> r.start % Size(3) == 0
    ensures r.map2m ==> End1g(r) % Size(2) == 0
    ensures End2m(r) % Size(1) == 0
  {
    Coarser(r.start);
    if r.map1g {
      AddMul(r.start, r.len / PAGE_SIZE_1G, PAGE_SIZE_1G);
    }
    Coarser(End1g(r));
    if r.map2m {
      AddMul(End1g(r), (r.start + r.len - End1g(r)) / PAGE_SIZE_2M, PAGE_SIZE_2M);
    }
    Coarser(End2m(r));
  }

  lemma EndAligned1g(r: Range)
    requires r.Ok() && r.start < End1g(r)
    ensures End1g(r) % Size(3) == 0
  {
    AddMul(r.start, r.len / PAGE_SIZE_1G, PAGE_SIZE_1G);
  }

  lemma EndAligned2m(r: Range)
    requires r.Ok() && End1g(r) <= r.start + r.len && End1g(r) < End2m(r)
    ensures End2m(r) % Size(2) == 0
  {
    EndsAligned(r);
    AddMul(End1g(r), (r.start + r.len - End1g(r)) / PAGE_SIZE_2M, PAGE_SIZE_2M);
  }

  lemma BothMultiples(a: nat, b: nat, s: nat)
    requires s > 0 && a % s == 0 && b % s == 0
    ensures (a + b) % s == 0
  {
    Quotient(b, s);
    AddMul(a, b / s, s);
  }

  lemma EndsWithin(r: Range)
    requires r.Ok() && End1g(r) <= r.start + r.len && End2m(r) <= r.start + r.len
    ensures RunEnd(End2m(r), r.start + r.len, 1) == r.start + r.len
  {
    Coarser(r.start);
    BothMultiples(r.start, r.len, PAGE_SIZE);
    assert Size(1) == PAGE_SIZE;
    hide Size, Range.Ok, End1g, End2m, RunEnd;
    EndsAligned(r);
    var max := r.start + r.len;
    AtRunEnd(End2m(r), max, max, 1);
  }

  lemma Levels(r: Range)
    requires r.Ok() && End1g(r) <= r.start + r.len
    ensures forall a: nat :: r.start <= a < End1g(r) ==> r.LevelOf(a) == 3
    ensures forall a: nat :: End1g(r) <= a < End2m(r) ==> r.LevelOf(a) == 2
    ensures forall a: nat :: End2m(r) <= a < r.start + r.len ==> r.LevelOf(a) == 1
  {
    Ends(r);
  }

  /** The page of `level` that holds `a`, and whether setup_ept_range may map it: enabled, and inside the range. */
  predicate Usable(r: Range, a: nat, level: int)
    requires 1 <= level <= 3
  {
    && (level == 3 ==> r.map1g) && (level == 2 ==> r.map2m)
    && r.start <= Region(a, level) * Size(level) && (Region(a, level) + 1) * Size(level) <= r.start + r.len
  }

  lemma FitsFrom(q: nat, f: nat, n: nat, x: nat, y: nat, s: nat)
    requires x < s && y < s && f * s <= q * s + x
    ensures f <= q && f * s <= q * s && ((q + 1) * s <= f * s + (n * s + y) <==> q * s + x < f * s + n * s)
  {
    if q < f {
      MulMono(q + 1, f, s);
    }
    MulMono(f, q, s);
    assert (f + n) * s == f * s + n * s;
    if q < f + n {
      MulMono(q + 1, f + n, s);
    } else {
      MulMono(f + n, q, s);
    }
  }

  lemma FitsBefore(a: nat, start: nat, len: nat, level: int)
    requires 1 <= level <= 3 && start % Size(level) == 0 && start <= a
    ensures start <= Region(a, level) * Size(level)
    ensures (Region(a, level) + 1) * Size(level) <= start + len <==> a < start + len / Size(level) * Size(level)
  {
    hide Size;
    var s := Size(level);
    RegionStart(start, level);
    Quotient(a, s);
    Quotient(len, s);
    FitsFrom(a / s, start / s, len / s, a % s, len % s, s);
  }

  /** Every address of the range is mapped by the largest page that is enabled and lies in the range. */
  lemma LargestPage(r: Range, a: nat)
    requires r.Ok() && r.start <= a < r.start + r.len
    ensures Usable(r, a, r.LevelOf(a)) && forall l :: r.LevelOf(a) < l <= 3 ==> !Usable(r, a, l)
  {
    Coarser(r.start);
    assert r.map1g ==> r.start % Size(3) == 0;
    assert r.map2m ==> r.start % Size(2) == 0;
    assert r.start % Size(1) == 0 && r.len / Size(1) * Size(1) == r.len;
    FitsBefore(a, r.start, r.len, 1);
    if r.map1g {
      FitsBefore(a, r.start, r.len, 3);
    }
    if r.map2m {
      FitsBefore(a, r.start, r.len, 2);
    }
    hide Region;
  }

  lemma BehindLater(a: nat, level: int, from: nat, from': nat)
    requires 1 <= level <= 4 && Behind(a, level, from) && from <= from'
    ensures Behind(a, level, from')
  {}

  /** Where each loop of setup_ept_range starts, the pages before it end. */
  lemma AllBehind(r: Range)
    requires r.Ok() && End1g(r) <= r.start + r.len
    ensures PagesBehind(r, r.start, 3) && PagesBehind(r, End1g(r), 2) && PagesBehind(r, End2m(r), 1)
  {
    Ends(r);
    Levels(r);
    hide Behind, Size, r.LevelOf, End1g, End2m, Range.Ok;
    forall a: nat | r.start <= a < End1g(r)
      ensures Behind(a, 3, End1g(r)) && Behind(a, 3, End2m(r))
    {
      EndAligned1g(r);
      PageBehind(a, 3, End1g(r));
      BehindLater(a, 3, End1g(r), End2m(r));
    }
    forall a: nat | End1g(r) <= a < End2m(r)
      ensures Behind(a, 2, End2m(r))
    {
      EndAligned2m(r);
      PageBehind(a, 2, End2m(r));
    }
  }

  // ----- pages that setup_ept_range takes -----

  /** The tables that the three loops of setup_ept_range lack, which are as many pages as they take at most. */
  ghost function RangeLack(mem: Mem, root: nat, r: Range): nat
    requires End1g(r) <= r.start + r.len
  {
    |Lacking(mem, root, r.start, End1g(r), 3)| + |Lacking(mem, root, End1g(r), End2m(r), 2)|
    + |Lacking(mem, root, End2m(r), r.start + r.len, 1)|
  }

  /** A loop of setup_ept_range loses no table that a later loop needs. */
  lemma LaterLack(mem: Mem, mem': Mem, root: nat, from: nat, to: nat, level: int, next: nat, end: nat, below: int)
    requires 1 <= below <= 3 && to <= next && end <= GPA_LIMIT && NoneLostOutside(mem, mem', root, from, to, level)
    ensures |Lacking(mem', root, next, end, below)| <= |Lacking(mem, root, next, end, below)|
  {
    hide HasTable, Lacking;
    LackingLess(mem, mem', root, next, end, below);
  }

  // ----- permissions that setup_ept_range does not give -----

  /** A root table whose first entry leads, with all permissions, to a table whose
      first entry is a read-only 1G page at address zero. */
  const READ_ONLY_1G: Mem := map[0x1000 := ZERO_PAGE[0 := 0x2007], 0x2000 := ZERO_PAGE[0 := 0x81]]

  lemma ReadOnlyPath()
    ensures Load(READ_ONLY_1G, 0x1000, 0) == 0x2007 && Load(READ_ONLY_1G, 0x2000, 0) == 0x81
    ensures PathPerm(READ_ONLY_1G, 0x1000, 4, 1, 0) == Perm(true, false, false)
  {
    assert Load(READ_ONLY_1G, 0x1000, Index(0, 4)) == 0x2007;
    assert Load(READ_ONLY_1G, 0x2000, Index(0, 3)) == 0x81;
  }

  lemma ReadOnlyIdentity()
    ensures PermOf(7) == RWX
    ensures Identity(READ_ONLY_1G, 0x1000, 1, 7, 0) == Some(Translation(0, Perm(true, false, false)))
  {
    ReadOnlyPath();
    hide PathPerm;
  }

  lemma ReadOnlyEntries(tables: map<nat, Label>)
    requires 0x2000 in tables && tables[0x2000] == Label(3, 0)
    ensures IsTable(READ_ONLY_1G, 0x1000) && IsTable(READ_ONLY_1G, 0x2000)
    ensures forall i: nat :: i < EPT_PGDIR_ENTRIES ==> EntryOk(tables, Label(4, 0), i, Load(READ_ONLY_1G, 0x1000, i))
    ensures forall i: nat :: i < EPT_PGDIR_ENTRIES ==> EntryOk(tables, Label(3, 0), i, Load(READ_ONLY_1G, 0x2000, i))
  {
    ReadOnlyPath();
    assert forall i: nat :: 0 < i < EPT_PGDIR_ENTRIES ==>
      Load(READ_ONLY_1G, 0x1000, i) == Load(READ_ONLY_1G, 0x2000, i) == 0;
  }

  lemma ReadOnlyTree()
    ensures WellFormed(READ_ONLY_1G, map[0x1000 := Label(4, 0), 0x2000 := Label(3, 0)])
  {
    var tables := map[0x1000 := Label(4, 0), 0x2000 := Label(3, 0)];
    ReadOnlyEntries(tables);
    hide EntryOk, Load;
    assert forall p <- tables :: p == 0x1000 || p == 0x2000;
  }

  /**
   Asked for all permissions, setup_ept_range leaves a page below a read-only 1G page read-only: the tables
   are well formed, and however the range of one page is mapped, its address translates without write.
   */
  lemma PermissionLost(m: Mem)
    requires MappedRange(READ_ONLY_1G, m, 0x1000, Range(0, 0x1000, false, false), 0x1000, 7)
    ensures WellFormed(READ_ONLY_1G, map[0x1000 := Label(4, 0), 0x2000 := Label(3, 0)])
    ensures PermOf(7) == RWX && Walk(m, 0x1000, 4, 0) == Some(Translation(0, Perm(true, false, false)))
  {
    ReadOnlyIdentity();
    ReadOnlyTree();
    hide WellFormed, Walk, PathPerm, SameView, Identity, PermOf;
    assert Range(0, 0x1000, false, false).LevelOf(0) == 1;
  }
}
