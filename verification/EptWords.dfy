/**
 The words of the extended page tables: how an entry is laid out, how guest
 addresses are cut into table indices, and what becomes of an entry that is
 split (x86/vmx.h, x86/vmx.c).

 An entry is a 64-bit word.  Its fields are read with divisions and remainders by
 powers of two; setting or clearing bits whose value is known is an addition or a
 subtraction.
 */
module EptWords {
  import opened Words
  import opened Arith

  const EPT_PAGE_LEVEL: int := 4
  const EPT_PGDIR_ENTRIES: nat := 512
  const EPT_RA: nat := 1
  const EPT_WA: nat := 2
  const EPT_EA: nat := 4
  const EPT_LARGE_PAGE: nat := 0x80
  const PAGE_SIZE_2M: nat := 0x20_0000
  const PAGE_SIZE_1G: nat := 0x4000_0000

  /** One more than the largest address of an entry: bits 12 to 51 hold it. */
  const ADDR_LIMIT: nat := 0x10_0000_0000_0000

  /** Guest addresses have 48 bits. */
  const GPA_LIMIT: nat := 0x1_0000_0000_0000

  // ----- guest addresses -----

  /** The bytes covered by one entry of a table at `level`: 1 << EPT_LEVEL_SHIFT(level). */
  function Size(level: int): (s: nat)
    requires 1 <= level <= 5
    ensures s > 0
    ensures level > 1 ==> s == EPT_PGDIR_ENTRIES * Size(level - 1)
  {
    if level == 1 then PAGE_SIZE else if level == 2 then PAGE_SIZE_2M else if level == 3 then PAGE_SIZE_1G
    else if level == 4 then 0x80_0000_0000 else GPA_LIMIT
  }

  /** The number of the level-`level` region that holds guest address `g`. */
  function Region(g: nat, level: int): nat
    requires 1 <= level <= 5
  {
    g / Size(level)
  }

  /** The table index used for `g` at `level`. */
  function Index(g: nat, level: int): (i: nat)
    requires 1 <= level <= 4
    ensures i < EPT_PGDIR_ENTRIES
  {
    Region(g, level) % EPT_PGDIR_ENTRIES
  }

  lemma RegionStep(g: nat, level: int)
    requires 1 <= level <= 4
    ensures Region(g, level) == Region(g, level + 1) * EPT_PGDIR_ENTRIES + Index(g, level)
  {
    hide Size;
    DivMul(g, Size(level), EPT_PGDIR_ENTRIES, Size(level + 1));
  }

  lemma SameRegionAbove(a: nat, g: nat, level: int, above: int)
    requires 1 <= level <= above <= 5
    requires Region(a, level) == Region(g, level)
    ensures Region(a, above) == Region(g, above)
    decreases above - level
  {
    if level < above {
      RegionStep(a, level);
      RegionStep(g, level);
      SameRegionAbove(a, g, level + 1, above);
    }
  }

  /** The root table serves every guest address. */
  lemma RootRegion(g: nat)
    requires g < GPA_LIMIT
    ensures Region(g, 5) == 0
  {}

  lemma RegionIs(a: nat, start: nat, level: int)
    requires 1 <= level <= 4 && start % Size(level) == 0
    ensures Region(a, level) == Region(start, level) <==> start <= a < start + Size(level)
  {
    hide Size;
    var s, q := Size(level), Region(start, level);
    assert start == q * s;
    assert a == a / s * s + a % s;
    if start <= a < start + s {
      DivIs(a, q, s);
    }
  }

  // ----- entries -----

  /** Read, write and execute permission. */
  datatype Perm = Perm(read: bool, write: bool, exec: bool) {
    function Meet(other: Perm): Perm {
      Perm(read && other.read, write && other.write, exec && other.exec)
    }
    predicate Includes(other: Perm) {
      (other.read ==> read) && (other.write ==> write) && (other.exec ==> exec)
    }
  }

  const RWX := Perm(true, true, true)

  function PermOf(e: nat): Perm { Perm(e % 2 >= EPT_RA, e % 4 >= EPT_WA, e % 8 >= EPT_EA) }

  predicate Present(e: nat) { e % 8 != 0 }

  predicate Large(e: nat) { e % 0x100 >= EPT_LARGE_PAGE }

  function Addr(e: nat): nat { e / PAGE_SIZE % 0x100_0000_0000 * PAGE_SIZE }

  predicate IsLeaf(e: nat, level: int) { level == 1 || (level < 4 && Large(e)) }

  predicate Aligned(e: nat, level: int)
    requires 1 <= level <= 4
  {
    Addr(e) % Size(level) == 0
  }

  /** The physical address of `g` in the page that leaf `e` maps. */
  function LeafAddr(e: nat, level: int, g: nat): nat
    requires 1 <= level <= 4
  {
    Addr(e) / Size(level) * Size(level) + g % Size(level)
  }

  /** An entry is its bits above the address, the address and its low twelve bits. */
  function Word(high: nat, addr: nat, low: nat): nat { high * ADDR_LIMIT + addr + low }

  lemma Fields(e: nat)
    ensures e == Word(e / ADDR_LIMIT, Addr(e), e % PAGE_SIZE)
    ensures Addr(e) < ADDR_LIMIT && Addr(e) % PAGE_SIZE == 0
  {
    DivMul(e, PAGE_SIZE, ADDR_LIMIT / PAGE_SIZE, ADDR_LIMIT);
    MulMod(e / PAGE_SIZE % (ADDR_LIMIT / PAGE_SIZE), PAGE_SIZE);
  }

  lemma FieldsOf(high: nat, addr: nat, low: nat)
    requires addr < ADDR_LIMIT && addr % PAGE_SIZE == 0 && low < PAGE_SIZE
    ensures Addr(Word(high, addr, low)) == addr && Word(high, addr, low) % PAGE_SIZE == low
    ensures Word(high, addr, low) / ADDR_LIMIT == high
  {
    var w := Word(high, addr, low);
    DivIs(addr, addr / PAGE_SIZE, PAGE_SIZE);
    AddMul(low, addr / PAGE_SIZE, PAGE_SIZE);
    DivIs(low, 0, PAGE_SIZE);
    MulMono(addr / PAGE_SIZE + 1, ADDR_LIMIT / PAGE_SIZE, PAGE_SIZE);
    DivIs(w, high, ADDR_LIMIT);
    DivMul(w, PAGE_SIZE, ADDR_LIMIT / PAGE_SIZE, ADDR_LIMIT);
  }

  /** The permission and page-size bits are among the low twelve. */
  lemma LowBits(e: nat)
    ensures PermOf(e) == PermOf(e % PAGE_SIZE) && Large(e) == Large(e % PAGE_SIZE)
    ensures Present(e) == Present(e % PAGE_SIZE)
  {
    DivMul(e, 2, PAGE_SIZE / 2, PAGE_SIZE);
    DivMul(e, 4, PAGE_SIZE / 4, PAGE_SIZE);
    DivMul(e, 8, PAGE_SIZE / 8, PAGE_SIZE);
    DivMul(e, 0x100, PAGE_SIZE / 0x100, PAGE_SIZE);
  }

  /** Bit 7 is independent of the permission bits. */
  lemma LargeBit(low: nat)
    requires low < PAGE_SIZE && !Large(low)
    ensures low + EPT_LARGE_PAGE < PAGE_SIZE && Large(low + EPT_LARGE_PAGE)
    ensures PermOf(low + EPT_LARGE_PAGE) == PermOf(low) && Present(low + EPT_LARGE_PAGE) == Present(low)
  {
    var q := low / 0x100;
    DivIs(low + EPT_LARGE_PAGE, q, 0x100);
    AddMul(low, 0x40, 2);
    AddMul(low, 0x20, 4);
    AddMul(low, 0x10, 8);
  }

  /** The bits of an entry outside its address and bit 7. */
  function Flags(e: nat): (nat, int) {
    (e / ADDR_LIMIT, e % PAGE_SIZE - if Large(e) then EPT_LARGE_PAGE else 0)
  }

  lemma FlagsOf(high: nat, addr: nat, low: nat)
    requires addr < ADDR_LIMIT && addr % PAGE_SIZE == 0 && low < PAGE_SIZE
    ensures Flags(Word(high, addr, low)) == (high, low - if Large(low) then EPT_LARGE_PAGE else 0)
  {
    FieldsOf(high, addr, low);
    LowBits(Word(high, addr, low));
    hide Large;
  }

  function ClearAddr(e: nat): nat { e - Addr(e) }

  function ClearLarge(e: nat): nat { if Large(e) then e - EPT_LARGE_PAGE else e }

  function SetLarge(e: nat): nat { if Large(e) then e else e + EPT_LARGE_PAGE }

  lemma ClearedFields(e: nat)
    ensures ClearAddr(e) == Word(e / ADDR_LIMIT, 0, e % PAGE_SIZE)
    ensures Large(ClearAddr(e)) == Large(e)
    ensures Large(e) ==> Large(e % PAGE_SIZE) && e % PAGE_SIZE >= EPT_LARGE_PAGE
    ensures Large(e) ==> ClearAddr(ClearLarge(e)) == ClearLarge(ClearAddr(e))
                                                  == Word(e / ADDR_LIMIT, 0, e % PAGE_SIZE - EPT_LARGE_PAGE)
    ensures !Large(e) ==> ClearAddr(ClearLarge(e)) == ClearLarge(ClearAddr(e)) == ClearAddr(e)
  {
    var high, low := e / ADDR_LIMIT, e % PAGE_SIZE;
    Fields(e);
    LowBits(e);
    FieldsOf(high, 0, low);
    LowBits(Word(high, 0, low));
    if Large(e) {
      FieldsOf(high, Addr(e), low - EPT_LARGE_PAGE);
    }
  }

  lemma WordBits(high: nat, addr: nat, low: nat)
    requires addr < ADDR_LIMIT && addr % PAGE_SIZE == 0 && low < PAGE_SIZE
    ensures var w := Word(high, addr, low);
            Addr(w) == addr && PermOf(w) == PermOf(low) && Present(w) == Present(low) && Large(w) == Large(low)
  {
    FieldsOf(high, addr, low);
    LowBits(Word(high, addr, low));
  }

  lemma ClearedBit(low: nat)
    requires low < PAGE_SIZE && Large(low)
    ensures !Large(low - EPT_LARGE_PAGE)
    ensures PermOf(low - EPT_LARGE_PAGE) == PermOf(low) && Present(low - EPT_LARGE_PAGE) == Present(low)
  {
    DivIs(low - EPT_LARGE_PAGE, low / 0x100, 0x100);
    LargeBit(low - EPT_LARGE_PAGE);
  }

  /** Replacing the address leaves the other bits; clearing bit 7 leaves the permissions. */
  lemma Rebuilt(e: nat, addr: nat)
    requires addr < ADDR_LIMIT && addr % PAGE_SIZE == 0
    ensures var w := ClearAddr(e) + addr;
            && Addr(w) == addr && PermOf(w) == PermOf(e) && Present(w) == Present(e) && Large(w) == Large(e)
            && Flags(w) == Flags(e)
    ensures var w := ClearAddr(ClearLarge(e)) + addr;
            && Addr(w) == addr && PermOf(w) == PermOf(e) && Present(w) == Present(e) && !Large(w)
            && Flags(w) == Flags(e)
    ensures ClearAddr(ClearLarge(e)) == ClearLarge(ClearAddr(e))
  {
    hide Addr, Large, PermOf, Present, ClearAddr, ClearLarge;
    var high, low := e / ADDR_LIMIT, e % PAGE_SIZE;
    LowBits(e);
    ClearedFields(e);
    WordBits(high, addr, low);
    FlagsOf(high, addr, low);
    if Large(e) {
      ClearedBit(low);
      WordBits(high, addr, low - EPT_LARGE_PAGE);
      FlagsOf(high, addr, low - EPT_LARGE_PAGE);
    }
  }

  /** The entry install_ept_entry makes for a new table. */
  function TableEntry(page: nat): nat { page + EPT_RA + EPT_WA + EPT_EA }

  lemma TableEntryOk(page: nat)
    requires Addr(page) == page
    ensures var e := TableEntry(page); Present(e) && !Large(e) && Addr(e) == page && PermOf(e) == RWX
    ensures Flags(TableEntry(page)) == (0, 7)
  {
    FieldsOf(0, page, 7);
    FlagsOf(0, page, 7);
    LowBits(Word(0, page, 7));
  }

  // ----- splitting a large entry -----

  /** Entry `i` of the table that replaces large entry `e` of level `level`. */
  function SplitChild(e: nat, level: int, i: nat): nat
    requires 2 <= level <= 3
  {
    (if level == 2 then ClearLarge(ClearAddr(e)) else ClearAddr(e)) + (Addr(e) + i * Size(level - 1))
  }

  /** The entry that points to the table `page` which replaces large entry `e`. */
  function SplitPointer(e: nat, page: nat): nat { ClearAddr(ClearLarge(e)) + page }

  lemma SplitPointerOk(e: nat, page: nat)
    requires Addr(page) == page
    ensures var p := SplitPointer(e, page);
            && Addr(p) == page && PermOf(p) == PermOf(e) && Present(p) == Present(e) && !Large(p)
            && Flags(p) == Flags(e)
  {
    Rebuilt(e, page);
  }

  /** The addresses of the 512 parts of an aligned large page. */
  lemma PartAddr(addr: nat, level: int, i: nat)
    requires 2 <= level <= 3 && addr % Size(level) == 0 && addr < ADDR_LIMIT && i < EPT_PGDIR_ENTRIES
    ensures var part := addr + i * Size(level - 1);
            part < ADDR_LIMIT && part % Size(level - 1) == 0 && part % PAGE_SIZE == 0
  {
    var s, t := Size(level - 1), Size(level);
    DivMul(addr, s, EPT_PGDIR_ENTRIES, t);
    AddMul(addr, i, s);
    MulMono(i + 1, EPT_PGDIR_ENTRIES, s);
    MulMono(addr / t + 1, ADDR_LIMIT / t, t);
    if level == 3 {
      DivMul(addr + i * s, PAGE_SIZE, EPT_PGDIR_ENTRIES, s);
    }
  }

  /** Each part is a leaf one level down with the permissions of the whole. */
  lemma SplitChildOk(e: nat, level: int, i: nat)
    requires 2 <= level <= 3 && Present(e) && Large(e) && Aligned(e, level) && i < EPT_PGDIR_ENTRIES
    ensures var c := SplitChild(e, level, i);
            && PermOf(c) == PermOf(e) && Present(c) && IsLeaf(c, level - 1) && Aligned(c, level - 1)
            && Addr(c) == Addr(e) + i * Size(level - 1) && Flags(c) == Flags(e) && (Large(c) <==> level == 3)
  {
    hide Size, Addr, PermOf, Present, Large, ClearAddr, ClearLarge, Flags;
    Fields(e);
    PartAddr(Addr(e), level, i);
    Rebuilt(e, Addr(e) + i * Size(level - 1));
  }

  /** An address finds in its part the physical address it had in the whole. */
  lemma SplitLeafAddr(e: nat, c: nat, level: int, a: nat)
    requires 2 <= level <= 3 && Aligned(e, level) && Aligned(c, level - 1)
    requires Addr(c) == Addr(e) + Index(a, level - 1) * Size(level - 1)
    ensures LeafAddr(c, level - 1, a) == LeafAddr(e, level, a)
  {
    hide Addr, Size;
    DivMul(a, Size(level - 1), EPT_PGDIR_ENTRIES, Size(level));
  }

  // ----- leaf entries -----

  /** The entry install_ept, install_2m_ept and install_1g_ept build for `phys`. */
  function LeafFor(phys: nat, level: int, perm: nat): nat {
    phys - phys % PAGE_SIZE + (if level == 1 then perm else SetLarge(perm))
  }

  lemma SizeIsPages(phys: nat, level: int)
    requires 1 <= level <= 3 && phys % Size(level) == 0
    ensures phys % PAGE_SIZE == 0
  {
    DivMul(phys, PAGE_SIZE, Size(level) / PAGE_SIZE, Size(level));
  }

  lemma LeafForOk(phys: nat, level: int, perm: nat)
    requires 1 <= level <= 3 && phys < GPA_LIMIT && phys % Size(level) == 0 && Addr(perm) == 0
    ensures var e := LeafFor(phys, level, perm);
            && Addr(e) == phys && IsLeaf(e, level) && Aligned(e, level)
            && PermOf(e) == PermOf(perm) && (Present(e) <==> Present(perm))
            && Flags(e) == Flags(perm) && (Large(e) <==> level > 1 || Large(perm))
  {
    SizeIsPages(phys, level);
    Fields(perm);
    LowBits(perm);
    var high, low := perm / ADDR_LIMIT, perm % PAGE_SIZE;
    if level > 1 && !Large(perm) {
      LargeBit(low);
      low := low + EPT_LARGE_PAGE;
    }
    hide Size;
    FieldsOf(high, phys, low);
    FlagsOf(high, phys, low);
    LowBits(Word(high, phys, low));
  }

  lemma LeafForAddr(phys: nat, level: int, e: nat, a: nat)
    requires 1 <= level <= 3 && phys % Size(level) == 0 && Addr(e) == phys && Region(a, level) == Region(phys, level)
    ensures LeafAddr(e, level, a) == a
  {
    hide Size, Addr;
  }

  /** Word `e` maps the page at `phys`: its other bits are those of `perm`, but bit 7 is set above level 1. */
  predicate MapsPage(e: nat, level: int, phys: nat, perm: nat) {
    Addr(e) == phys && Flags(e) == Flags(perm) && (Large(e) <==> level > 1 || Large(perm))
  }

  /** Word `c` is part `i` of the page that `e` maps: its other bits are those of `e`, but level 1 has no bit 7. */
  predicate MapsPart(c: nat, e: nat, level: int, i: nat)
    requires 2 <= level <= 3
  {
    Addr(c) == Addr(e) + i * Size(level - 1) && Flags(c) == Flags(e) && (Large(c) <==> level == 3)
  }

  // ----- single bits -----

  /** Bit `k` of a word. */
  predicate Bit(e: nat, k: nat) { e / Pow2(k) % 2 == 1 }

  lemma Pow2Known()
    ensures Pow2(7) == EPT_LARGE_PAGE && Pow2(8) == 0x100 && Pow2(12) == PAGE_SIZE && Pow2(52) == ADDR_LIMIT
  {
    assert Pow2(4) == 16;
    assert Pow2(8) == 16 * Pow2(4);
    assert Pow2(12) == 16 * Pow2(8);
    assert Pow2(16) == 16 * Pow2(12);
    assert Pow2(20) == 16 * Pow2(16);
    Pow2Add(20, 20);
    Pow2Add(40, 12);
  }

  lemma EvenMultiple(e: nat, half: nat, s: nat)
    requires s > 0
    ensures (e + 2 * half * s) / s % 2 == e / s % 2
  {
    AddMul(e, 2 * half, s);
    AddMul(e / s, half, 2);
  }

  lemma Doubled(m: nat, t: nat, s: nat)
    ensures m * (2 * (t * s)) == 2 * (m * t) * s
  {
    assert m * (t * s) == m * t * s;
  }

  /** A multiple of a higher power of two does not change a bit. */
  lemma BitBelow(e: nat, m: nat, n: nat, k: nat)
    requires k < n
    ensures Bit(e + m * Pow2(n), k) == Bit(e, k)
  {
    assert Pow2(n) == 2 * Pow2(n - 1);
    hide Pow2;
    Pow2Add(n - 1 - k, k);
    Doubled(m, Pow2(n - 1 - k), Pow2(k));
    EvenMultiple(e, m * Pow2(n - 1 - k), Pow2(k));
  }

  /** A higher bit is a bit of the quotient. */
  lemma BitAbove(e: nat, n: nat, k: nat)
    requires n <= k
    ensures e / Pow2(n) >= 0 && Bit(e, k) == Bit(e / Pow2(n), k - n)
  {
    hide Pow2;
    Quotient(e, Pow2(n));
    Pow2Add(k - n, n);
    DivMul(e, Pow2(n), Pow2(k - n), Pow2(k));
  }

  lemma LargeLow(low: nat)
    requires low < PAGE_SIZE && Large(low)
    ensures low >= EPT_LARGE_PAGE && (low - EPT_LARGE_PAGE) / 0x100 == low / 0x100
  {
    DivIs(low - EPT_LARGE_PAGE, low / 0x100, 0x100);
  }

  /** A low bit is a bit of the low flags. */
  lemma LowBit(e: nat, k: nat)
    requires k < 12 && k != 7
    ensures Flags(e).1 >= 0 && Bit(e, k) == Bit(Flags(e).1, k)
  {
    Pow2Known();
    LowBits(e);
    hide Pow2, Bit, Large;
    var low := e % PAGE_SIZE;
    BitBelow(low, e / PAGE_SIZE, 12, k);
    if Large(e) {
      LargeLow(low);
      var rest: nat := low - EPT_LARGE_PAGE;
      if k < 7 {
        BitBelow(rest, 1, 7, k);
      } else {
        BitAbove(low, 8, k);
        BitAbove(rest, 8, k);
      }
    }
  }

  /** Each bit outside the address and bit 7 is a bit of the flags. */
  lemma FlagBits(e: nat, f: nat, k: nat)
    requires Flags(e) == Flags(f) && ((k < 12 && k != 7) || k >= 52)
    ensures Bit(e, k) == Bit(f, k)
  {
    if k >= 52 {
      Pow2Known();
      hide Pow2, Bit;
      BitAbove(e, 52, k);
      BitAbove(f, 52, k);
    } else {
      LowBit(e, k);
      LowBit(f, k);
    }
  }

  lemma BitOne(k: nat)
    requires k < 3 || k == 7
    ensures Pow2(k) == if k == 0 then 1 else if k == 1 then 2 else if k == 2 then 4 else 128
  {
    assert Pow2(3) == 8;
    assert Pow2(7) == 16 * Pow2(3);
  }

  lemma UpperHalf(e: nat, s: nat)
    requires s > 0
    ensures e / s % 2 == 1 <==> e % (2 * s) >= s
  {
    DivMul(e, s, 2, 2 * s);
  }

  lemma SomeBit(e: nat)
    ensures Present(e) <==> PermOf(e) != Perm(false, false, false)
  {
    DivMul(e, 4, 2, 8);
    DivMul(e, 2, 2, 4);
  }

  /** Bits 0, 1 and 2 permit reading, writing and execution, an entry is present if one of them is set, and bit 7 marks
      a large page. */
  lemma PermBits(e: nat)
    ensures PermOf(e) == Perm(Bit(e, 0), Bit(e, 1), Bit(e, 2)) && (Large(e) <==> Bit(e, 7))
    ensures Present(e) <==> PermOf(e) != Perm(false, false, false)
  {
    BitOne(0);
    BitOne(1);
    BitOne(2);
    BitOne(7);
    UpperHalf(e, 1);
    UpperHalf(e, 2);
    UpperHalf(e, 4);
    UpperHalf(e, 128);
    hide Pow2;
    SomeBit(e);
  }
}
