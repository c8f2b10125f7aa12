/**
 The virtual-memory backend of malloc (lib/vmalloc.c): pages from the free list, in any order, behind
 consecutive virtual addresses.
 */
module Vmalloc {
  import opened Words
  import opened Arith
  import opened PageList
  import opened PageAlloc
  import opened MallocSpec
  import opened Malloc

  /** The holder of the pages that the page tables take. */
  const TABLES: nat := 0

  /** How many pages are taken before data page `i`, if installing page `j` takes `need[j]` pages for tables. */
  function Before(need: seq<nat>, i: nat): (k: nat)
    requires i <= |need|
    ensures k >= i
  {
    if i == 0 then 0 else Before(need, i - 1) + 1 + need[i - 1]
  }

  lemma {:induction false} BeforeMono(need: seq<nat>, i: nat, j: nat)
    requires i < j <= |need|
    ensures Before(need, i) + 1 <= Before(need, j)
    decreases j
  {
    if i < j - 1 {
      BeforeMono(need, i, j - 1);
    }
  }

  /** The data pages that vm_memalign takes from a free list. */
  function DataPages(free: seq<nat>, need: seq<nat>, i: nat): (data: seq<nat>)
    requires i <= |need| && Before(need, i) <= |free|
    ensures |data| == i
  {
    if i == 0 then [] else
      BeforeMono(need, i - 1, i);
      DataPages(free, need, i - 1) + [free[Before(need, i - 1)]]
  }

  lemma {:induction false} DataPagesIn(free: seq<nat>, need: seq<nat>, i: nat)
    requires i <= |need| && Before(need, i) <= |free| && NoDup(free)
    ensures NoDup(DataPages(free, need, i))
    ensures forall p :: p in DataPages(free, need, i) ==> p in free[..Before(need, i)]
  {
    if i > 0 {
      BeforeMono(need, i - 1, i);
      DataPagesIn(free, need, i - 1);
      var k, p := Before(need, i - 1), free[Before(need, i - 1)];
      assert p !in free[..k];
      NoDupJoin(DataPages(free, need, i - 1), [p]);
    }
  }

  /** What has an owner keeps it, and its contents. */
  ghost predicate Kept(mem: Ram, owner: map<nat, nat>, mem': Ram, owner': map<nat, nat>) {
    forall p :: p in owner && p in mem ==> p in mem' && p in owner' && mem'[p] == mem[p] && owner'[p] == owner[p]
  }

  lemma KeptTrans(mem: Ram, owner: map<nat, nat>, mem1: Ram, owner1: map<nat, nat>, mem2: Ram, owner2: map<nat, nat>)
    requires Kept(mem, owner, mem1, owner1) && Kept(mem1, owner1, mem2, owner2)
    ensures Kept(mem, owner, mem2, owner2)
  {}

  lemma KeptByTake(mem: Ram, head: nat, free: seq<nat>, owner: map<nat, nat>, mem': Ram, who: nat)
    requires Sound(mem, head, free, owner) && free != [] && SameOutside(mem, mem', [free[0]])
    ensures Kept(mem, owner, mem', Give(owner, [free[0]], who))
  {
    assert Linked(mem, free, 0);
    assert free[0] in free;
  }

  /** Consecutive virtual pages translate to the pages of the list. */
  ghost predicate Translates(table: map<nat, nat>, va: nat, data: seq<nat>) {
    forall i: nat :: i < |data| ==> Block(va, |data|)[i] in table && table[Block(va, |data|)[i]] == data[i]
  }

  ghost predicate OwnedBy(owner: map<nat, nat>, data: seq<nat>, who: nat) {
    forall p :: p in data ==> p in owner && owner[p] == who
  }

  /**
   Consecutive virtual pages from `va` translate to the data pages, which belong to `who`, and all
   other virtual pages translate as before.
   */
  ghost predicate Backed(table: map<nat, nat>, table': map<nat, nat>, owner: map<nat, nat>, va: nat, data: seq<nat>,
                         who: nat) {
    && Translates(table', va, data)
    && OwnedBy(owner, data, who)
    && (forall v :: v in table && v !in Block(va, |data|) ==> v in table' && table'[v] == table[v])
    && (forall v :: v in table' ==> v in table || v in Block(va, |data|))
  }

  /** Virtual pages below `top` have never been mapped. */
  ghost predicate Above(table: map<nat, nat>, top: nat) {
    forall v :: v in table ==> v >= top
  }

  /** Mapping new pages below all others keeps every translation. */
  lemma NewPagesBelow(table: map<nat, nat>, table': map<nat, nat>, owner: map<nat, nat>, va: nat, data: seq<nat>,
                      who: nat)
    requires Backed(table, table', owner, va, data, who) && Above(table, va + |data| * PAGE_SIZE)
    ensures Above(table', va) && forall v :: v in table ==> v in table' && table'[v] == table[v]
  {
    var b := Block(va, |data|);
    forall v | v in b
      ensures va <= v < va + |data| * PAGE_SIZE
    {
      var i :| 0 <= i < |b| && b[i] == v;
    }
  }

  lemma BackedNone(table: map<nat, nat>, owner: map<nat, nat>, va: nat, free: seq<nat>, need: seq<nat>, who: nat)
    ensures Before(need, 0) == 0 && Backed(table, table, owner, va, DataPages(free, need, 0), who) && free[0..] == free
  {}

  lemma BackedStep(table: map<nat, nat>, table1: map<nat, nat>, mem1: Ram, owner1: map<nat, nat>, mem2: Ram,
                   owner2: map<nat, nat>,
                   va: nat, data: seq<nat>, pa: nat, who: nat)
    requires Backed(table, table1, owner1, va, data, who) && Kept(mem1, owner1, mem2, owner2)
    requires pa in owner2 && owner2[pa] == who && forall p :: p in owner1 ==> p in mem1
    ensures Backed(table, table1[va + |data| * PAGE_SIZE := pa], owner2, va, data + [pa], who)
  {
    var n := |data|;
    var b, b' := Block(va, n), Block(va, n + 1);
    assert b' == b + [va + n * PAGE_SIZE];
    forall i: nat | i < n
      ensures b'[i] == b[i] != va + n * PAGE_SIZE && (data + [pa])[i] == data[i]
    {
    }
  }

  /** The number of pages that vm_memalign takes, which is a 32-bit word. */
  function PagesOf(size: nat): nat { Align(size, PAGE_SIZE) / PAGE_SIZE % TWO32 }

  /** The pages hold as many bytes as asked for if and only if their number does not wrap around. */
  lemma PagesExact(size: nat)
    ensures size <= PAGE_SIZE * PagesOf(size) <==> Align(size, PAGE_SIZE) / PAGE_SIZE < TWO32
    ensures Align(size, PAGE_SIZE) / PAGE_SIZE < TWO32 ==> PAGE_SIZE * PagesOf(size) == Align(size, PAGE_SIZE)
  {}

  lemma InPages(b: nat)
    requires b % PAGE_SIZE == 0
    ensures b == PAGE_SIZE * (b / PAGE_SIZE) && Align(b, PAGE_SIZE) == b
  {}

  /** 2^44 bytes get no page. */
  lemma PagesWrap()
    ensures PagesOf(PAGE_SIZE * TWO32) == 0
  {}

  lemma BeforeStep(free: seq<nat>, need: seq<nat>, i: nat)
    requires i < |need| && Before(need, |need|) <= |free|
    ensures Before(need, i + 1) == Before(need, i) + 1 + need[i] <= |free|
    ensures DataPages(free, need, i + 1) == DataPages(free, need, i) + [free[Before(need, i)]]
  {
    if i + 1 < |need| {
      BeforeMono(need, i + 1, |need|);
    }
  }

  lemma OwnersInMem(mem: Ram, head: nat, free: seq<nat>, owner: map<nat, nat>)
    requires Sound(mem, head, free, owner)
    ensures forall p :: p in owner ==> p in mem
  {}

  // ----- words behind virtual addresses -----

  function Phys(table: map<nat, nat>, a: nat): nat
    requires PageOf(a) in table
  {
    table[PageOf(a)] + a % PAGE_SIZE
  }

  ghost predicate VHasWord(mem: Ram, table: map<nat, nat>, a: nat) {
    PageOf(a) in table && HasWord(mem, Phys(table, a))
  }

  /** The metadata in front of `ptr`, read through the page tables. */
  ghost predicate VTagged(mem: Ram, table: map<nat, nat>, ptr: nat, base: nat, size: nat) {
    && METADATA_EXTRA <= ptr && base <= ptr && VHasWord(mem, table, ptr - 16) && VHasWord(mem, table, ptr - 8)
    && Word(mem, Phys(table, ptr - 16)) == ptr - base && Word(mem, Phys(table, ptr - 8)) == size
  }

  lemma BackedIs(table: map<nat, nat>, table': map<nat, nat>, owner: map<nat, nat>, va: nat, data: seq<nat>, who: nat)
    requires Backed(table, table', owner, va, data, who)
    ensures Translates(table', va, data) && OwnedBy(owner, data, who)
  {}

  lemma OwnedAll(owner: map<nat, nat>, data: seq<nat>, who: nat)
    requires OwnedBy(owner, data, who)
    ensures forall p :: p in data ==> p in owner
  {}

  lemma PageOffset(d: nat, a: nat)
    requires d % PAGE_SIZE == 0 && a % 8 == 0
    ensures PageOf(d + a % PAGE_SIZE) == d && (d + a % PAGE_SIZE) % 8 == 0
  {
    var q, m := d / PAGE_SIZE, a / 8;
    DivIs(d + a % PAGE_SIZE, q, PAGE_SIZE);
    DivIs(a, m / 512, PAGE_SIZE);
    DivIs(d + a % PAGE_SIZE, q * 512 + m % 512, 8);
  }

  lemma PageIndex(va: nat, n: nat, a: nat)
    requires va % PAGE_SIZE == 0 && va <= a < va + n * PAGE_SIZE
    ensures (a - va) / PAGE_SIZE < n && PageOf(a) == va + (a - va) / PAGE_SIZE * PAGE_SIZE
  {}

  lemma TranslatesAt(table: map<nat, nat>, va: nat, data: seq<nat>, i: nat)
    requires Translates(table, va, data) && i < |data|
    ensures va + i * PAGE_SIZE in table && table[va + i * PAGE_SIZE] == data[i]
  {
    assert Block(va, |data|)[i] == va + i * PAGE_SIZE;
  }

  /** Behind an address of a block there is a word of one of its data pages. */
  lemma DataWord(mem: Ram, head: nat, free: seq<nat>, owner: map<nat, nat>, table: map<nat, nat>, va: nat,
                 data: seq<nat>,
                 who: nat, a: nat)
    requires Sound(mem, head, free, owner) && Translates(table, va, data) && OwnedBy(owner, data, who)
    requires va % PAGE_SIZE == 0 && va <= a < va + |data| * PAGE_SIZE && a % 8 == 0
    ensures (a - va) / PAGE_SIZE < |data|
    ensures var d := data[(a - va) / PAGE_SIZE];
            VHasWord(mem, table, a) && PageOf(Phys(table, a)) == d && d in data && Phys(table, a) == d + a % PAGE_SIZE
  {
    hide Chain, NoDup, PageOf;
    PageIndex(va, |data|, a);
    var i := (a - va) / PAGE_SIZE;
    TranslatesAt(table, va, data, i);
    assert data[i] in data && IsPage(data[i]);
    PageOffset(data[i], a);
  }

  lemma PhysApart(table: map<nat, nat>, va: nat, data: seq<nat>, a: nat, b: nat)
    requires va % PAGE_SIZE == 0 && va <= a < b < va + |data| * PAGE_SIZE && NoDup(data) && PageOf(a) in table
    requires PageOf(b) in table
    requires PageOf(Phys(table, a)) == data[(a - va) / PAGE_SIZE]
    requires Phys(table, a) == data[(a - va) / PAGE_SIZE] + a % PAGE_SIZE
    requires PageOf(Phys(table, b)) == data[(b - va) / PAGE_SIZE]
    requires Phys(table, b) == data[(b - va) / PAGE_SIZE] + b % PAGE_SIZE
    ensures Phys(table, a) != Phys(table, b)
  {
    hide Phys, PageOf;
    if (a - va) / PAGE_SIZE != (b - va) / PAGE_SIZE {
      Apart(data, (a - va) / PAGE_SIZE, (b - va) / PAGE_SIZE);
    }
  }

  /** The metadata of memalign in a block of data pages. */
  lemma TagData(mem: Ram, head: nat, free: seq<nat>, owner: map<nat, nat>, table: map<nat, nat>, va: nat,
                data: seq<nat>,
                who: nat, alignment: nat, size: nat)
    requires Sound(mem, head, free, owner) && Translates(table, va, data) && OwnedBy(owner, data, who) && NoDup(data)
    requires va % PAGE_SIZE == 0 && alignment >= 8 && PowerOfTwo(alignment)
    requires BlockSize(alignment, size, PAGE_SIZE) == |data| * PAGE_SIZE
    ensures var ptr, bs := Place(va, alignment), BlockSize(alignment, size, PAGE_SIZE);
            && ptr % alignment == 0 && va + METADATA_EXTRA <= ptr && ptr + size <= va + bs
            && VHasWord(mem, table, ptr - 16) && VHasWord(mem, table, ptr - 8)
            && var mem' := PutTwo(mem, Phys(table, ptr - 16), ptr - va, Phys(table, ptr - 8), bs);
            && Sound(mem', head, free, owner) && SameOutside(mem, mem', data) && VTagged(mem', table, ptr, va, bs)
  {
    hide Sound, SameOutside, NoDup, BlockSize, Place, PowerOfTwo, Phys, HasWord, PutTwo, Word, PageOf, Translates;
    hide OwnedBy;
    var ptr, bs := Place(va, alignment), BlockSize(alignment, size, PAGE_SIZE);
    Placement(va, alignment, size, PAGE_SIZE);
    MultipleOf8(alignment, ptr);
    DataWord(mem, head, free, owner, table, va, data, who, ptr - 16);
    DataWord(mem, head, free, owner, table, va, data, who, ptr - 8);
    OwnedAll(owner, data, who);
    PhysApart(table, va, data, ptr - 16, ptr - 8);
    TwoSound(mem, head, free, owner, Phys(table, ptr - 16), ptr - va, Phys(table, ptr - 8), bs, data);
    TwoRead(mem, Phys(table, ptr - 16), ptr - va, Phys(table, ptr - 8), bs);
  }

  lemma KeptData(mem: Ram, owner: map<nat, nat>, mem1: Ram, owner1: map<nat, nat>, mem2: Ram, data: seq<nat>)
    requires Kept(mem, owner, mem1, owner1) && SameOutside(mem1, mem2, data) && forall p :: p in data ==> p !in owner
    ensures Kept(mem, owner, mem2, owner1)
  {}

  /** The data pages are different pages of the free list. */
  lemma DataOfList(mem: Ram, head: nat, free: seq<nat>, owner: map<nat, nat>, need: seq<nat>)
    requires Sound(mem, head, free, owner) && Before(need, |need|) <= |free|
    ensures NoDup(DataPages(free, need, |need|)) && forall p :: p in DataPages(free, need, |need|) ==> p !in owner
  {
    hide NoDup, Before, DataPages, Chain;
    DataPagesIn(free, need, |need|);
    ListInMem(mem, head, free);
  }

  function Elements(s: seq<nat>): set<nat> {
    set p | p in s
  }

  function Reversed(s: seq<nat>): seq<nat> {
    if s == [] then [] else [s[|s| - 1]] + Reversed(s[..|s| - 1])
  }

  lemma FreedNone(mem: Ram, free: seq<nat>, owner: map<nat, nat>, none: seq<nat>)
    requires none == []
    ensures Reversed(none) + free == free && SameOutside(mem, mem, none) && owner == owner - Elements(none)
  {}

  lemma FreedStep(mem: Ram, mem1: Ram, free: seq<nat>, owner: map<nat, nat>, data: seq<nat>, i: nat)
    requires NoDup(data) && i < |data| && SameOutside(mem, mem1, data[..i])
    ensures data[i] !in data[..i] && data[i] in data
    ensures [data[i]] + (Reversed(data[..i]) + free) == Reversed(data[..i + 1]) + free
    ensures owner - Elements(data[..i]) - {data[i]} == owner - Elements(data[..i + 1])
    ensures forall mem2: Ram :: SameOutside(mem1, mem2, [data[i]]) ==> SameOutside(mem, mem2, data[..i + 1])
  {
    var a, b := data[..i], data[..i + 1];
    assert b == a + [data[i]] && b[..i] == a;
    assert Elements(b) == Elements(a) + {data[i]};
  }

  lemma KeptSame(mem: Ram, owner: map<nat, nat>)
    ensures Kept(mem, owner, mem, owner)
  {}

  // ----- the allocator -----

  class VmAllocator {
    const pages: PageAllocator
    var vfreeTop: nat
    var table: map<nat, nat>

    constructor (pages: PageAllocator, top: nat)
      ensures this.pages == pages && vfreeTop == top && table == map[]
    {
      this.pages, vfreeTop, table := pages, top, map[];
    }

    /** alloc_vpages: `nr` pages that were never mapped, right below the last ones that were taken. */
    method AllocVpages(nr: nat) returns (r: nat)
      requires PAGE_SIZE * nr <= vfreeTop && Above(table, vfreeTop)
      modifies this`vfreeTop
      ensures r == vfreeTop && r + PAGE_SIZE * nr == old(vfreeTop) && Above(table, vfreeTop)
      ensures forall v :: v in table ==> v !in Block(r, nr)
    {
      vfreeTop := vfreeTop - PAGE_SIZE * nr;
      assert forall i: nat :: i < nr ==> Block(vfreeTop, nr)[i] < old(vfreeTop);
      return vfreeTop;
    }

    /** install_page, which takes `need` pages for the tables on the way. */
    method InstallPage(pa: nat, va: nat, need: nat)
      requires pages.Valid() && |pages.free| >= need
      modifies this`table, pages
      ensures pages.Valid() && table == old(table)[va := pa] && pages.free == old(pages.free)[need..]
      ensures Kept(old(pages.mem), old(pages.owner), pages.mem, pages.owner)
    {
      hide Sound, SameOutside, Kept, Give;
      var i := 0;
      KeptSame(pages.mem, pages.owner);
      while i < need
        invariant i <= need && pages.Valid() && pages.free == old(pages.free)[i..] && table == old(table)
        invariant Kept(old(pages.mem), old(pages.owner), pages.mem, pages.owner)
      {
        ghost var mem1, owner1, free1, head1 := pages.mem, pages.owner, pages.free, pages.freelist;
        var t := pages.AllocPage(TABLES);
        KeptByTake(mem1, head1, free1, owner1, pages.mem, TABLES);
        KeptTrans(old(pages.mem), old(pages.owner), mem1, owner1, pages.mem, pages.owner);
        i := i + 1;
      }
      table := table[va := pa];
    }

    /** One page of vm_memalign: a page from the list, installed at `va`. */
    method AllocAndInstall(va: nat, need: nat, ghost who: nat) returns (pa: nat)
      requires pages.Valid() && |pages.free| >= 1 + need
      modifies this`table, pages
      ensures pages.Valid() && pa == old(pages.free)[0] && table == old(table)[va := pa]
      ensures pages.free == old(pages.free)[1 + need..]
      ensures Kept(old(pages.mem), old(pages.owner), pages.mem, pages.owner) && pa in pages.owner
      ensures pages.owner[pa] == who
    {
      hide Sound, SameOutside;
      pa := pages.AllocPage(who);
      KeptByTake(old(pages.mem), old(pages.freelist), old(pages.free), old(pages.owner), pages.mem, who);
      ghost var mem1, owner1 := pages.mem, pages.owner;
      OwnersInMem(pages.mem, pages.freelist, pages.free, pages.owner);
      assert pa in owner1 && owner1[pa] == who;
      InstallPage(pa, va, need);
      KeptTrans(old(pages.mem), old(pages.owner), mem1, owner1, pages.mem, pages.owner);
      assert old(pages.free)[1..][need..] == old(pages.free)[1 + need..];
    }

    /**
     vm_memalign: new virtual addresses, `size` bytes of them unless the number of pages wraps around (PagesExact),
     each page behind its own page of the free list. Whatever was mapped stays mapped as it was, and what belongs
     to others stays.
     */
    method VmMemalign(size: nat, need: seq<nat>, ghost who: nat) returns (mem: nat)
      requires pages.Valid() && Above(table, vfreeTop) && PAGE_SIZE * PagesOf(size) <= vfreeTop
      requires |need| == PagesOf(size) && Before(need, |need|) <= |pages.free|
      modifies this`vfreeTop, this`table, pages
      ensures pages.Valid() && mem == vfreeTop == old(vfreeTop) - PAGE_SIZE * PagesOf(size)
      ensures Above(table, vfreeTop) && forall v :: v in old(table) ==> v in table && table[v] == old(table)[v]
      ensures pages.free == old(pages.free)[Before(need, |need|)..]
      ensures Backed(old(table), table, pages.owner, mem, DataPages(old(pages.free), need, |need|), who)
      ensures Kept(old(pages.mem), old(pages.owner), pages.mem, pages.owner)
    {
      hide Sound, Kept, Backed, DataPages, Before, PagesOf, Above;
      var n := PagesOf(size);
      mem := AllocVpages(n);
      var p := mem;
      var i := 0;
      KeptSame(pages.mem, pages.owner);
      BackedNone(table, pages.owner, mem, pages.free, need, who);
      while i < n
        invariant i <= n && p == mem + i * PAGE_SIZE && pages.Valid() && vfreeTop == mem
        invariant Before(need, i) <= |old(pages.free)| && pages.free == old(pages.free)[Before(need, i)..]
        invariant Backed(old(table), table, pages.owner, mem, DataPages(old(pages.free), need, i), who)
        invariant Kept(old(pages.mem), old(pages.owner), pages.mem, pages.owner)
      {
        BeforeStep(old(pages.free), need, i);
        ghost var k, data := Before(need, i), DataPages(old(pages.free), need, i);
        ghost var table1, mem1, owner1 := table, pages.mem, pages.owner;
        OwnersInMem(pages.mem, pages.freelist, pages.free, pages.owner);
        assert old(pages.free)[k..][1 + need[i]..] == old(pages.free)[k + 1 + need[i]..];
        var pa := AllocAndInstall(p, need[i], who);
        BackedStep(old(table), table1, mem1, owner1, pages.mem, pages.owner, mem, data, pa, who);
        KeptTrans(old(pages.mem), old(pages.owner), mem1, owner1, pages.mem, pages.owner);
        p := p + PAGE_SIZE;
        i := i + 1;
      }
      NewPagesBelow(old(table), table, pages.owner, mem, DataPages(old(pages.free), need, n), who);
    }

    /** vm_free: exactly the pages behind the virtual addresses go back to the list; the translation stays. */
    method VmFree(mem: nat, size: nat, ghost data: seq<nat>, ghost who: nat)
      requires pages.Valid() && NoDup(data) && size == |data| * PAGE_SIZE && Translates(table, mem, data)
      requires OwnedBy(pages.owner, data, who)
      modifies pages
      ensures pages.Valid() && pages.free == Reversed(data) + old(pages.free)
      ensures pages.owner == old(pages.owner) - Elements(data)
      ensures SameOutside(old(pages.mem), pages.mem, data)
    {
      hide Sound, SameOutside, NoDup, Reversed;
      var va: nat, left: nat := mem, size;
      ghost var i: nat := 0;
      FreedNone(pages.mem, pages.free, pages.owner, data[..0]);
      while left != 0
        invariant i <= |data| && left == (|data| - i) * PAGE_SIZE && va == mem + i * PAGE_SIZE && pages.Valid()
        invariant pages.free == Reversed(data[..i]) + old(pages.free)
        invariant pages.owner == old(pages.owner) - Elements(data[..i])
        invariant SameOutside(old(pages.mem), pages.mem, data[..i])
        decreases left
      {
        TranslatesAt(table, mem, data, i);
        FreedStep(old(pages.mem), pages.mem, old(pages.free), old(pages.owner), data, i);
        pages.FreePage(table[va], who);
        va := va + PAGE_SIZE;
        left := left - PAGE_SIZE;
        i := i + 1;
      }
      assert data[..i] == data;
    }

    /**
     memalign of a nonzero size over this backend, for an alignment of at most a page. If the number of pages wraps
     around, pages of the block are missing, and the model ends with `astray` set.
     */
    method MemalignBlock(alignment: nat, size: nat, need: seq<nat>, ghost who: nat) returns (ptr: nat, astray: bool)
      requires pages.Valid() && 8 <= alignment <= PAGE_SIZE && PowerOfTwo(alignment)
      requires vfreeTop % PAGE_SIZE == 0 && Above(table, vfreeTop)
      requires size > 0 && PAGE_SIZE * PagesOf(BlockSize(alignment, size, PAGE_SIZE)) <= vfreeTop
      requires |need| == PagesOf(BlockSize(alignment, size, PAGE_SIZE)) && Before(need, |need|) <= |pages.free|
      modifies this`vfreeTop, this`table, pages
      ensures astray <==> BlockSize(alignment, size, PAGE_SIZE) / PAGE_SIZE >= TWO32
      ensures pages.Valid() && (!astray ==> vfreeTop + BlockSize(alignment, size, PAGE_SIZE) == old(vfreeTop))
      ensures !astray ==> |need| == BlockSize(alignment, size, PAGE_SIZE) / PAGE_SIZE
      ensures Above(table, vfreeTop) && forall v :: v in old(table) ==> v in table && table[v] == old(table)[v]
      ensures !astray ==> ptr % alignment == 0 && vfreeTop + METADATA_EXTRA <= ptr && ptr + size <= old(vfreeTop)
      ensures var data := DataPages(old(pages.free), need, |need|);
              Backed(old(table), table, pages.owner, vfreeTop, data, who) && NoDup(data)
      ensures !astray ==> VTagged(pages.mem, table, ptr, vfreeTop, BlockSize(alignment, size, PAGE_SIZE))
      ensures pages.free == old(pages.free)[Before(need, |need|)..]
      ensures Kept(old(pages.mem), old(pages.owner), pages.mem, pages.owner)
    {
      hide Sound, SameOutside, NoDup, Backed, Kept, BlockSize, Place, VTagged, PowerOfTwo, DataPages, Before, HasWord;
      hide Phys, PutTwo;
      hide Translates, OwnedBy, Align, Above, PagesOf;
      var blockSize := BlockSize(alignment, size, PAGE_SIZE);
      BlockSizeIs(alignment, size);
      PagesExact(blockSize);
      InPages(blockSize);
      ghost var data := DataPages(pages.free, need, |need|);
      DataOfList(pages.mem, pages.freelist, pages.free, pages.owner, need);
      var p := VmMemalign(blockSize, need, who);
      ptr := Place(p, alignment);
      astray := blockSize / PAGE_SIZE >= TWO32;
      if astray {
        return;
      }
      ghost var mem1 := pages.mem;
      BackedIs(old(table), table, pages.owner, p, data, who);
      TagData(mem1, pages.freelist, pages.free, pages.owner, table, p, data, who, alignment, size);
      WriteTag(pages, Phys(table, ptr - 16), ptr - p, Phys(table, ptr - 8), blockSize);
      KeptData(old(pages.mem), old(pages.owner), mem1, pages.owner, pages.mem, data);
    }

    /** memalign over this backend: null for size 0, or else MemalignBlock. */
    method Memalign(alignment: nat, size: nat, need: seq<nat>, ghost who: nat) returns (ptr: nat, astray: bool)
      requires pages.Valid() && 8 <= alignment <= PAGE_SIZE && PowerOfTwo(alignment)
      requires vfreeTop % PAGE_SIZE == 0 && Above(table, vfreeTop)
      requires size > 0 ==> PAGE_SIZE * PagesOf(BlockSize(alignment, size, PAGE_SIZE)) <= vfreeTop
      requires size > 0 ==>
          |need| == PagesOf(BlockSize(alignment, size, PAGE_SIZE)) && Before(need, |need|) <= |pages.free|
      modifies this`vfreeTop, this`table, pages
      ensures pages.Valid() && Above(table, vfreeTop) && Kept(old(pages.mem), old(pages.owner), pages.mem, pages.owner)
      ensures astray <==> size > 0 && BlockSize(alignment, size, PAGE_SIZE) / PAGE_SIZE >= TWO32
      ensures !astray ==> (ptr == 0 <==> size == 0)
      ensures size == 0 ==> unchanged(this) && unchanged(pages)
      ensures size > 0 && !astray ==>
          && ptr % alignment == 0 && VTagged(pages.mem, table, ptr, vfreeTop, BlockSize(alignment, size, PAGE_SIZE))
          && Backed(old(table), table, pages.owner, vfreeTop, DataPages(old(pages.free), need, |need|), who)
    {
      hide Sound, NoDup, Backed, Kept, BlockSize, VTagged, PowerOfTwo, DataPages, Before, Above, PagesOf;
      if size == 0 {
        KeptSame(pages.mem, pages.owner);
        return 0, false;
      }
      ptr, astray := MemalignBlock(alignment, size, need, who);
    }

    /** free over this backend: the base and the size are read back through the page tables. */
    method Free(ptr: nat, ghost base: nat, ghost data: seq<nat>, ghost who: nat)
      requires pages.Valid() && NoDup(data) && VTagged(pages.mem, table, ptr, base, |data| * PAGE_SIZE)
      requires Translates(table, base, data) && OwnedBy(pages.owner, data, who)
      modifies pages
      ensures pages.Valid() && pages.free == Reversed(data) + old(pages.free)
      ensures pages.owner == old(pages.owner) - Elements(data)
      ensures SameOutside(old(pages.mem), pages.mem, data)
    {
      hide Sound, SameOutside, NoDup, Reversed, Translates, OwnedBy;
      var begin := ptr - Word(pages.mem, Phys(table, ptr - 16));
      var size := Word(pages.mem, Phys(table, ptr - 8));
      VmFree(begin, size, data, who);
    }

    /**
     malloc and free over this backend: of the pages taken, exactly the data pages return, the others serve as tables.
     */
    method MallocThenFree(size: nat, need: seq<nat>, ghost who: nat) returns (astray: bool)
      requires pages.Valid() && vfreeTop % PAGE_SIZE == 0 && Above(table, vfreeTop) && size > 0
      requires PAGE_SIZE * PagesOf(BlockSize(8, size, PAGE_SIZE)) <= vfreeTop
      requires |need| == PagesOf(BlockSize(8, size, PAGE_SIZE)) && Before(need, |need|) <= |pages.free|
      modifies this`vfreeTop, this`table, pages
      ensures pages.Valid() && (astray <==> BlockSize(8, size, PAGE_SIZE) / PAGE_SIZE >= TWO32)
      ensures !astray ==>
          pages.free == Reversed(DataPages(old(pages.free), need, |need|)) + old(pages.free)[Before(need, |need|)..]
    {
      hide Sound, SameOutside, NoDup, Backed, Kept, BlockSize, DataPages, Before, VTagged, Reversed, PagesOf;
      BlockSizeIs(8, size);
      Powers3();
      var ptr;
      ptr, astray := MemalignBlock(8, size, need, who);
      if astray {
        return;
      }
      ghost var data := DataPages(old(pages.free), need, |need|);
      BackedIs(old(table), table, pages.owner, vfreeTop, data, who);
      Free(ptr, vfreeTop, data, who);
    }
  }
}
