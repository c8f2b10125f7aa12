/**
 malloc and free over the page allocator (lib/alloc.c, lib/alloc_page.c): the size of a block and
 the distance to its base are kept in two words in front of the address that the caller gets.
 */
module Malloc {
  import opened Words
  import opened Arith
  import opened PageList
  import opened PageAlloc
  import opened MallocSpec

  function PageOf(a: nat): (p: nat)
    ensures p <= a < p + PAGE_SIZE && p % PAGE_SIZE == 0
  {
    a / PAGE_SIZE * PAGE_SIZE
  }

  /** The word at an address that is a multiple of 8. */
  predicate HasWord(mem: Ram, a: nat) {
    a % 8 == 0 && PageOf(a) in mem && |mem[PageOf(a)]| == PAGE_WORDS
  }

  function Word(mem: Ram, a: nat): nat
    requires HasWord(mem, a)
  {
    mem[PageOf(a)][a % PAGE_SIZE / 8]
  }

  function PutWord(mem: Ram, a: nat, v: nat): Ram
    requires HasWord(mem, a)
  {
    var words: seq<nat> := mem[PageOf(a)][a % PAGE_SIZE / 8 := v];
    mem[PageOf(a) := words]
  }

  /** Page and index say which word it is. */
  lemma WordPlace(a: nat)
    requires a % 8 == 0
    ensures a == PageOf(a) + a % PAGE_SIZE / 8 * 8 && 0 <= a % PAGE_SIZE / 8 < PAGE_WORDS
  {
    DivMul(a, 8, 512, PAGE_SIZE);
    Quotient(a, PAGE_SIZE);
  }

  lemma PutThenGet(mem: Ram, a: nat, v: nat, b: nat)
    requires HasWord(mem, a) && HasWord(mem, b)
    ensures HasWord(PutWord(mem, a, v), b) && Word(PutWord(mem, a, v), b) == if a == b then v else Word(mem, b)
  {
    WordPlace(a);
    WordPlace(b);
    hide PageOf;
  }

  /** Writing two words, as memalign does with its metadata. */
  ghost function PutTwo(mem: Ram, a: nat, v: nat, b: nat, w: nat): Ram
    requires HasWord(mem, a) && HasWord(mem, b)
  {
    PutThenGet(mem, a, v, b);
    PutWord(PutWord(mem, a, v), b, w)
  }

  lemma TwoRead(mem: Ram, a: nat, v: nat, b: nat, w: nat)
    requires HasWord(mem, a) && HasWord(mem, b) && a != b
    ensures var m := PutTwo(mem, a, v, b, w); HasWord(m, a) && HasWord(m, b) && Word(m, a) == v && Word(m, b) == w
  {
    hide PageOf, HasWord, Word, PutWord;
    PutThenGet(mem, a, v, a);
    PutThenGet(mem, a, v, b);
    PutThenGet(PutWord(mem, a, v), b, w, a);
    PutThenGet(PutWord(mem, a, v), b, w, b);
  }

  /** The two words that memalign leaves in front of `ptr`, for a block of `size` bytes at `base`. */
  ghost predicate Tagged(mem: Ram, ptr: nat, base: nat, size: nat) {
    && METADATA_EXTRA <= ptr && HasWord(mem, ptr - 16) && HasWord(mem, ptr - 8)
    && base <= ptr && Word(mem, ptr - 16) == ptr - base && Word(mem, ptr - 8) == size
  }

  /** A block's addresses lie in its pages. */
  lemma InBlock(p: nat, n: nat, a: nat)
    requires p % PAGE_SIZE == 0 && p <= a < p + n * PAGE_SIZE
    ensures PageOf(a) in Block(p, n)
  {
    var i := (a - p) / PAGE_SIZE;
    assert PageOf(a) == p + i * PAGE_SIZE;
    assert Block(p, n)[i] == p + i * PAGE_SIZE;
  }

  /** Writing words into owned pages keeps the allocator sound. */
  lemma SoundPut(mem: Ram, head: nat, free: seq<nat>, owner: map<nat, nat>, a: nat, v: nat)
    requires Sound(mem, head, free, owner) && HasWord(mem, a) && PageOf(a) in owner
    ensures Sound(PutWord(mem, a, v), head, free, owner) && SameOutside(mem, PutWord(mem, a, v), [PageOf(a)])
  {
    hide Linked, IsPage, NoDup, PageOf;
    var mem' := PutWord(mem, a, v);
    ListInMem(mem, head, free);
    ChainFrame(mem, mem', head, free);
  }

  lemma TwoSound(mem: Ram, head: nat, free: seq<nat>, owner: map<nat, nat>, a: nat, v: nat, b: nat, w: nat,
                 pages: seq<nat>)
    requires Sound(mem, head, free, owner) && HasWord(mem, a) && HasWord(mem, b)
    requires (forall p :: p in pages ==> p in owner)
    requires PageOf(a) in pages && PageOf(b) in pages
    ensures Sound(PutTwo(mem, a, v, b, w), head, free, owner) && SameOutside(mem, PutTwo(mem, a, v, b, w), pages)
  {
    hide Sound, PageOf, PutWord, HasWord;
    SoundPut(mem, head, free, owner, a, v);
    PutThenGet(mem, a, v, b);
    SoundPut(PutWord(mem, a, v), head, free, owner, b, w);
  }

  ghost predicate PowerOfTwo(x: nat) {
    exists k: nat :: x == Pow2(k)
  }

  lemma Powers3()
    ensures Pow2(3) == 8
  {}

  lemma MultipleOf8(alignment: nat, x: nat)
    requires PowerOfTwo(alignment) && alignment >= 8 && x % alignment == 0
    ensures x % 8 == 0
  {
    hide Pow2;
    var k: nat :| alignment == Pow2(k);
    Powers3();
    if k < 3 {
      StrictlyLess(k, 3);
    } else {
      Pow2Add(k - 3, 3);
      var q, m := x / alignment, Pow2(k - 3);
      assert x == q * (m * 8) == q * m * 8;
      MulMod(q * m, 8);
    }
  }

  /** The least order whose run has room for `n` pages. */
  ghost predicate LeastOrder(order: nat, n: nat) {
    Pow2(order) >= n && forall k: nat :: Pow2(k) >= n ==> k >= order
  }

  lemma SmallOrder(n: nat, order: nat)
    requires n <= TWO64 / PAGE_SIZE && forall k: nat :: Pow2(k) >= n ==> k >= order
    ensures order < 64
  {
    hide Pow2;
    Pow2Known();
    assert Pow2(63) >= n;
  }

  /** page_memalign; it does not look at the alignment that it is asked for. */
  method PageMemalign(a: PageAllocator, size: nat, ghost who: nat) returns (p: nat, ghost order: nat)
    requires a.Valid() && size + PAGE_SIZE <= TWO64
    modifies a
    ensures a.Valid()
    ensures size == 0 ==> p == 0 && unchanged(a)
    ensures size > 0 ==> LeastOrder(order, Align(size, PAGE_SIZE) / PAGE_SIZE)
    ensures size > 0 && FindRun(old(a.free), Pow2(order)).None? ==> p == 0 && unchanged(a)
    ensures size > 0 && FindRun(old(a.free), Pow2(order)).Some? ==>
              var i := FindRun(old(a.free), Pow2(order)).value;
              && p == old(a.free)[i] != 0 && a.free == Without(old(a.free), i, Pow2(order))
              && a.owner == Give(old(a.owner), Block(p, Pow2(order)), who)
    ensures a.mem.Keys == old(a.mem).Keys && forall p :: p in old(a.owner) && p in a.mem ==> a.mem[p] == old(a.mem)[p]
  {
    hide Sound, Pow2, Search, Consecutive, Aligned;
    var n := Align(size, PAGE_SIZE) / PAGE_SIZE;
    order := 0;
    if size == 0 {
      return 0, 0;
    }
    var k := OrderOf(n);
    order := k;
    SmallOrder(n, k);
    p := a.AllocPages(k, who);
  }

  /** The result of memalign in a block at `base`: aligned, inside the block, and behind its two words of metadata. */
  ghost predicate Placed(mem: Ram, ptr: nat, alignment: nat, size: nat, base: nat, blockSize: nat)
    requires alignment > 0
  {
    && ptr % alignment == 0 && base + METADATA_EXTRA <= ptr && ptr + size <= base + blockSize
    && Tagged(mem, ptr, base, blockSize)
  }

  /** The two words in front of the result are words of the block's pages. */
  lemma WordsInFront(base: nat, n: nat, alignment: nat, size: nat)
    requires base % PAGE_SIZE == 0 && PowerOfTwo(alignment) && alignment >= 8
    requires BlockSize(alignment, size, PAGE_SIZE) <= n * PAGE_SIZE
    ensures var ptr := Place(base, alignment);
            && base + METADATA_EXTRA <= ptr && (ptr - 16) % 8 == 0 && (ptr - 8) % 8 == 0
            && PageOf(ptr - 16) in Block(base, n) && PageOf(ptr - 8) in Block(base, n)
  {
    hide Block, PageOf, Place, BlockSize, PowerOfTwo;
    var ptr := Place(base, alignment);
    Placement(base, alignment, size, PAGE_SIZE);
    MultipleOf8(alignment, ptr);
    InBlock(base, n, ptr - 16);
    InBlock(base, n, ptr - 8);
  }

  /** The result of memalign in the block, with the allocator sound and no other page written. */
  ghost predicate TagsBlock(mem: Ram, mem': Ram, head: nat, free: seq<nat>, owner: map<nat, nat>, base: nat, n: nat,
                            alignment: nat, size: nat)
    requires alignment > 0
  {
    && Sound(mem', head, free, owner) && SameOutside(mem, mem', Block(base, n))
    && Placed(mem', Place(base, alignment), alignment, size, base, BlockSize(alignment, size, PAGE_SIZE))
  }

  lemma OwnedWord(mem: Ram, head: nat, free: seq<nat>, owner: map<nat, nat>, a: nat)
    requires Sound(mem, head, free, owner) && PageOf(a) in owner && a % 8 == 0
    ensures HasWord(mem, a)
  {}

  /** The metadata of memalign in a block of pages. */
  lemma TagBlock(mem: Ram, head: nat, free: seq<nat>, owner: map<nat, nat>, base: nat, n: nat, alignment: nat,
                 size: nat)
    requires Sound(mem, head, free, owner) && base % PAGE_SIZE == 0 && PowerOfTwo(alignment) && alignment >= 8
    requires BlockSize(alignment, size, PAGE_SIZE) <= n * PAGE_SIZE && forall p :: p in Block(base, n) ==> p in owner
    ensures var ptr, bs := Place(base, alignment), BlockSize(alignment, size, PAGE_SIZE);
            && base + METADATA_EXTRA <= ptr && HasWord(mem, ptr - 16) && HasWord(mem, ptr - 8)
            && TagsBlock(mem, PutTwo(mem, ptr - 16, ptr - base, ptr - 8, bs), head, free, owner, base, n, alignment,
                 size)
  {
    hide Sound, Block, PageOf, Place, BlockSize, PutTwo, HasWord, SameOutside, Word, PowerOfTwo;
    var ptr, bs := Place(base, alignment), BlockSize(alignment, size, PAGE_SIZE);
    WordsInFront(base, n, alignment, size);
    OwnedWord(mem, head, free, owner, ptr - 16);
    OwnedWord(mem, head, free, owner, ptr - 8);
    TwoSound(mem, head, free, owner, ptr - 16, ptr - base, ptr - 8, bs, Block(base, n));
    TwoRead(mem, ptr - 16, ptr - base, ptr - 8, bs);
    Placement(base, alignment, size, PAGE_SIZE);
  }

  /** Storing the two words of metadata at `a` and `b`. */
  method WriteTag(pages: PageAllocator, a: nat, v: nat, b: nat, w: nat)
    requires HasWord(pages.mem, a) && HasWord(pages.mem, b)
    modifies pages`mem
    ensures pages.mem == PutTwo(old(pages.mem), a, v, b, w)
  {
    hide PageOf, HasWord, PutWord;
    PutThenGet(pages.mem, a, v, b);
    pages.mem := PutWord(pages.mem, a, v);
    pages.mem := PutWord(pages.mem, b, w);
  }

  lemma KeptOutside(mem: Ram, mem1: Ram, mem2: Ram, owner: map<nat, nat>, pages: seq<nat>)
    requires mem1.Keys == mem.Keys && forall p :: p in owner && p in mem1 ==> mem1[p] == mem[p]
    requires SameOutside(mem1, mem2, pages) && forall p :: p in pages ==> p !in owner
    ensures mem2.Keys == mem.Keys && forall p :: p in owner && p in mem2 ==> mem2[p] == mem[p]
  {}

  lemma BlockSizeIs(alignment: nat, size: nat)
    requires alignment > 0
    ensures var b := BlockSize(alignment, size, PAGE_SIZE);
            && size + alignment - 1 + METADATA_EXTRA <= b < size + alignment - 1 + METADATA_EXTRA + PAGE_SIZE
            && b % PAGE_SIZE == 0 && Align(b, PAGE_SIZE) == b
  {}

  /** The pages of a run had no owner, and get one. */
  lemma RunPages(mem: Ram, head: nat, free: seq<nat>, owner: map<nat, nat>, n: nat, who: nat)
    requires Sound(mem, head, free, owner) && n > 0 && FindRun(free, n).Some?
    ensures var base := free[FindRun(free, n).value];
            && base % PAGE_SIZE == 0
            && forall p :: p in Block(base, n) ==> p !in owner && p in Give(owner, Block(base, n), who)
  {
    hide Search, Block, NoDup, Aligned, Consecutive;
    var i := FindRun(free, n).value;
    RunInList(mem, head, free, owner, n);
    ListInMem(mem, head, free);
    assert Linked(mem, free, i);
    forall p | p in Block(free[i], n)
      ensures p !in owner
    {
      assert p in free[i..i + n];
    }
  }

  lemma RoomInRun(order: nat, size: nat)
    requires size % PAGE_SIZE == 0 && LeastOrder(order, size / PAGE_SIZE)
    ensures size <= Pow2(order) * PAGE_SIZE
  {
    hide Pow2;
    MulMono(size / PAGE_SIZE, Pow2(order), PAGE_SIZE);
  }

  /** memalign over the page allocator; `ok` is false where the source aborts because there is no run of pages. */
  method Memalign(a: PageAllocator, alignment: nat, size: nat, ghost who: nat)
    returns (ptr: nat, ok: bool, ghost base: nat, ghost order: nat)
    requires a.Valid() && alignment >= 8 && PowerOfTwo(alignment)
    requires size + alignment + METADATA_EXTRA + 2 * PAGE_SIZE <= TWO64
    modifies a
    ensures a.Valid()
    ensures size == 0 ==> ok && ptr == 0 && unchanged(a)
    ensures size > 0 ==> LeastOrder(order, BlockSize(alignment, size, PAGE_SIZE) / PAGE_SIZE)
    ensures size > 0 ==> (ok <==> FindRun(old(a.free), Pow2(order)).Some?)
    ensures !ok ==> unchanged(a)
    ensures size > 0 && ok ==>
              var i := FindRun(old(a.free), Pow2(order)).value;
              && base == old(a.free)[i] && base % PAGE_SIZE == 0 && a.free == Without(old(a.free), i, Pow2(order))
              && a.owner == Give(old(a.owner), Block(base, Pow2(order)), who)
              && Placed(a.mem, ptr, alignment, size, base, BlockSize(alignment, size, PAGE_SIZE))
    ensures a.mem.Keys == old(a.mem).Keys && forall p :: p in old(a.owner) && p in a.mem ==> a.mem[p] == old(a.mem)[p]
  {
    hide Sound, Pow2, FindRun, BlockSize, Place, Placed, PutTwo, HasWord, Block, LeastOrder, Give, SameOutside;
    hide PowerOfTwo;
    base, order := 0, 0;
    if size == 0 {
      return 0, true, 0, 0;
    }
    var blockSize := BlockSize(alignment, size, PAGE_SIZE);
    BlockSizeIs(alignment, size);
    var p;
    p, order := PageMemalign(a, blockSize, who);
    if p == 0 {
      return 0, false, 0, order;
    }
    base := p;
    ptr := Place(p, alignment);
    RunPages(old(a.mem), old(a.freelist), old(a.free), old(a.owner), Pow2(order), who);
    RoomInRun(order, blockSize);
    TagBlock(a.mem, a.freelist, a.free, a.owner, p, Pow2(order), alignment, size);
    KeptOutside(old(a.mem), a.mem, PutTwo(a.mem, ptr - 16, ptr - p, ptr - 8, blockSize), old(a.owner),
      Block(p, Pow2(order)));
    WriteTag(a, ptr - 16, ptr - p, ptr - 8, blockSize);
    ok := true;
  }

  /** free: the base and the size are read back from the metadata, and exactly these pages are freed. */
  method Free(a: PageAllocator, ptr: nat, ghost base: nat, ghost size: nat, ghost who: nat)
    requires a.Valid() && Tagged(a.mem, ptr, base, size) && base % PAGE_SIZE == 0 && size % PAGE_SIZE == 0
    requires 0 < size && base + size <= TWO64
    requires forall p :: p in Block(base, size / PAGE_SIZE) ==> p in a.owner && a.owner[p] == who
    modifies a
    ensures a.Valid() && a.free == Block(base, size / PAGE_SIZE) + old(a.free)
    ensures a.owner == old(a.owner) - set p | p in Block(base, size / PAGE_SIZE)
    ensures SameOutside(old(a.mem), a.mem, Block(base, size / PAGE_SIZE))
  {
    hide Sound, SameOutside, Block, HasWord, Word;
    var begin := ptr - Word(a.mem, ptr - 16);
    var sz := Word(a.mem, ptr - 8);
    a.FreePages(begin, sz, who);
  }

  /** Of the run that a block took, free returns the pages from its start, as many as the block needs. */
  lemma FreedIsPrefix(base: nat, order: nat, size: nat)
    requires size % PAGE_SIZE == 0 && LeastOrder(order, size / PAGE_SIZE)
    ensures Block(base, Pow2(order))[..size / PAGE_SIZE] == Block(base, size / PAGE_SIZE)
    ensures Block(base, size / PAGE_SIZE) == Block(base, Pow2(order)) <==> PowerOfTwo(size / PAGE_SIZE)
  {
    hide Pow2;
    var n := size / PAGE_SIZE;
    if PowerOfTwo(n) {
      var k: nat :| n == Pow2(k);
      if k > order {
        StrictlyLess(order, k);
      }
    }
    assert |Block(base, n)| == n && |Block(base, Pow2(order))| == Pow2(order);
  }

  lemma WordOfByte(ptr: nat, a: nat)
    requires 8 <= ptr <= a && (ptr - 8) % 8 == 0
    ensures ptr <= a - a % 8
  {
    DivIs(ptr, (ptr - 8) / 8 + 1, 8);
  }

  /** Whatever the caller stores at an address of its region, byte by byte, leaves the metadata alone. */
  lemma UserStore(mem: Ram, ptr: nat, base: nat, size: nat, a: nat, word: nat)
    requires Tagged(mem, ptr, base, size) && ptr <= a && HasWord(mem, a - a % 8)
    ensures Tagged(PutWord(mem, a - a % 8, word), ptr, base, size)
  {
    hide PageOf, Word, PutWord;
    WordOfByte(ptr, a);
    PutThenGet(mem, a - a % 8, word, ptr - 16);
    PutThenGet(mem, a - a % 8, word, ptr - 8);
  }
}
