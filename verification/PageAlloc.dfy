/**
 The page allocator (lib/alloc_page.c): its free list is threaded through the free pages themselves.
 */
module PageAlloc {
  import opened Words
  import opened Wrappers
  import opened Arith
  import opened PageList

  /** Storing a link in word 0 of a page. */
  function WithLink(words: seq<nat>, link: nat): seq<nat>
    requires |words| == PAGE_WORDS
  {
    words[0 := link]
  }

  function SetLink(mem: Ram, page: nat, link: nat): Ram
    requires page in mem && |mem[page]| == PAGE_WORDS
  {
    mem[page := WithLink(mem[page], link)]
  }

  const ZEROED: seq<nat> := seq(PAGE_WORDS, _ => 0)

  /** Every page is either in the list or owned by a holder, and not both. */
  ghost predicate Owned(mem: Ram, free: seq<nat>, owner: map<nat, nat>) {
    && (forall p :: p in mem ==> IsPage(p) && |mem[p]| == PAGE_WORDS && (p in owner <==> p !in free))
    && (forall p :: p in owner ==> p in mem)
  }

  /** Every page is either free, exactly once, or owned by exactly one holder. */
  ghost predicate Sound(mem: Ram, head: nat, free: seq<nat>, owner: map<nat, nat>) {
    Chain(mem, head, free) && NoDup(free) && Owned(mem, free, owner)
  }

  /** The pages of the list are the same in both memories. */
  ghost predicate SameOn(mem: Ram, mem': Ram, list: seq<nat>) {
    forall p :: p in list ==> p in mem && p in mem' && mem'[p] == mem[p]
  }

  // ----- links -----

  lemma ChainFrame(mem: Ram, mem': Ram, head: nat, list: seq<nat>)
    requires Chain(mem, head, list) && SameOn(mem, mem', list)
    ensures Chain(mem', head, list)
  {
    hide IsPage;
    forall i: nat | i < |list|
      ensures Linked(mem', list, i)
    {
      assert Linked(mem, list, i) && list[i] in list;
    }
  }

  lemma ListInMem(mem: Ram, head: nat, list: seq<nat>)
    requires Chain(mem, head, list)
    ensures forall p :: p in list ==> p in mem
  {
    forall p | p in list
      ensures p in mem
    {
      var i :| 0 <= i < |list| && list[i] == p;
      assert Linked(mem, list, i);
    }
  }

  /** Word 0 of page `i` of a block points to the next page, and that of the last one to `head`. */
  predicate BlockLink(mem: Ram, mem': Ram, block: seq<nat>, i: nat, head: nat)
    requires i < |block|
  {
    && block[i] in mem && block[i] in mem' && |mem[block[i]]| == PAGE_WORDS
    && mem'[block[i]] == WithLink(mem[block[i]], if i + 1 < |block| then block[i + 1] else head)
  }

  ghost predicate BlockLinked(mem: Ram, mem': Ram, block: seq<nat>, head: nat) {
    forall i: nat :: i < |block| ==> BlockLink(mem, mem', block, i, head)
  }

  lemma ChainBlock(mem: Ram, mem': Ram, block: seq<nat>, head: nat, list: seq<nat>)
    requires Chain(mem, head, list) && SameOn(mem, mem', list) && block != []
    requires BlockLinked(mem, mem', block, head) && forall p :: p in block ==> IsPage(p)
    ensures Chain(mem', block[0], block + list)
  {
    hide IsPage;
    var all := block + list;
    forall i: nat | i < |all|
      ensures Linked(mem', all, i)
    {
      if i < |block| {
        assert BlockLink(mem, mem', block, i, head);
        assert all[i] == block[i] && block[i] in block;
        assert At(all, i + 1) == if i + 1 < |block| then block[i + 1] else At(list, 0);
      } else {
        var k := i - |block|;
        assert all[i] == list[k] && At(all, i + 1) == At(list, k + 1);
        assert Linked(mem, list, k) && list[k] in list;
      }
    }
  }

  lemma WithoutAt(list: seq<nat>, i: nat, n: nat, k: nat)
    requires i + n <= |list|
    ensures At(Without(list, i, n), k) == At(list, if k < i then k else k + n)
  {}

  lemma NoDupWithout(list: seq<nat>, i: nat, n: nat)
    requires NoDup(list) && i + n <= |list|
    ensures NoDup(Without(list, i, n))
    ensures forall p :: p in list <==> p in Without(list, i, n) || p in list[i..i + n]
    ensures forall p :: p in list[i..i + n] ==> p !in Without(list, i, n)
  {
    var rest, cut := Without(list, i, n), list[i..i + n];
    assert list == list[..i] + cut + list[i + n..];
    forall p | p in cut
      ensures p !in rest
    {
      var a :| 0 <= a < n && cut[a] == p;
      assert list[i + a] == p;
      assert forall k :: 0 <= k < |rest| ==> rest[k] == list[if k < i then k else k + n];
    }
  }

  lemma WithoutSize(list: seq<nat>, i: nat, n: nat)
    requires i + n <= |list|
    ensures |Without(list, i, n)| == |list| - n
  {}

  lemma AtIs(list: seq<nat>, i: nat)
    requires i < |list|
    ensures At(list, i) == list[i]
  {}

  lemma Apart(list: seq<nat>, i: nat, j: nat)
    requires NoDup(list) && i < |list| && j < |list| && i != j
    ensures list[i] != list[j]
  {}

  /** Unlinking `n` pages by storing into the page before them. */
  lemma ChainCut(mem: Ram, head: nat, list: seq<nat>, i: nat, n: nat)
    requires Chain(mem, head, list) && NoDup(list) && 0 < i && i + n <= |list|
    ensures Linked(mem, list, i - 1) && Chain(SetLink(mem, list[i - 1], At(list, i + n)), head, Without(list, i, n))
  {
    hide IsPage, At, Without;
    assert Linked(mem, list, i - 1);
    var mem' := SetLink(mem, list[i - 1], At(list, i + n));
    var rest := Without(list, i, n);
    WithoutSize(list, i, n);
    WithoutAt(list, i, n, 0);
    forall k: nat | k < |rest|
      ensures Linked(mem', rest, k)
    {
      var o := if k < i then k else k + n;
      WithoutAt(list, i, n, k);
      WithoutAt(list, i, n, k + 1);
      AtIs(rest, k);
      AtIs(list, o);
      assert Linked(mem, list, o);
      if o != i - 1 {
        Apart(list, o, i - 1);
      }
    }
  }

  /** Unlinking the first `n` pages by moving the head. */
  lemma ChainDrop(mem: Ram, head: nat, list: seq<nat>, n: nat)
    requires Chain(mem, head, list) && n <= |list|
    ensures Chain(mem, At(list, n), Without(list, 0, n))
  {
    hide IsPage;
    var rest := Without(list, 0, n);
    forall k: nat | k < |rest|
      ensures Linked(mem, rest, k)
    {
      assert Linked(mem, list, k + n);
    }
  }

  // ----- steps of the allocator -----

  ghost predicate SameOutside(mem: Ram, mem': Ram, pages: seq<nat>) {
    mem'.Keys == mem.Keys && forall p :: p in mem && p !in pages ==> mem'[p] == mem[p]
  }

  lemma NoDupJoin(a: seq<nat>, b: seq<nat>)
    requires NoDup(a) && NoDup(b) && forall p :: p in a ==> p !in b
    ensures NoDup(a + b)
  {
    assert forall i :: 0 <= i < |a| ==> a[i] in a;
    assert forall i :: 0 <= i < |b| ==> b[i] in b;
  }

  lemma OwnedFree(mem: Ram, mem': Ram, head: nat, free: seq<nat>, owner: map<nat, nat>, block: seq<nat>)
    requires Owned(mem, free, owner) && SameOutside(mem, mem', block) && BlockLinked(mem, mem', block, head)
    ensures Owned(mem', block + free, owner - set p | p in block)
  {
    forall p | p in mem'
      ensures |mem'[p]| == PAGE_WORDS
    {
      if p in block {
        var i :| 0 <= i < |block| && block[i] == p;
        assert BlockLink(mem, mem', block, i, head);
      }
    }
  }

  /** Putting pages that are owned in front of the list. */
  lemma SoundFree(mem: Ram, mem': Ram, head: nat, free: seq<nat>, owner: map<nat, nat>, block: seq<nat>)
    requires Sound(mem, head, free, owner) && block != [] && NoDup(block)
    requires SameOutside(mem, mem', block) && BlockLinked(mem, mem', block, head)
    requires forall p :: p in block ==> p in owner
    ensures Sound(mem', block[0], block + free, owner - set p | p in block)
  {
    hide IsPage, Chain;
    ListInMem(mem, head, free);
    ChainBlock(mem, mem', block, head, free);
    NoDupJoin(block, free);
    OwnedFree(mem, mem', head, free, owner, block);
  }

  /** The pages go to one holder. */
  ghost function Give(owner: map<nat, nat>, pages: seq<nat>, who: nat): map<nat, nat> {
    map p | p in owner.Keys + (set q | q in pages) :: if p in pages then who else owner[p]
  }

  /** The holder of pages that no list and no caller knows of any more. */
  const LOST: nat := 1

  /** Dropping the list: its pages are lost. */
  lemma SoundDrop(mem: Ram, head: nat, free: seq<nat>, owner: map<nat, nat>)
    requires Sound(mem, head, free, owner)
    ensures Sound(mem, 0, [], Give(owner, free, LOST))
  {
    hide IsPage;
    ListInMem(mem, head, free);
  }

  /** Taking `n` pages from position `i`, once they are unlinked and whatever is then written to them. */
  lemma SoundTake(mem: Ram, mem1: Ram, mem2: Ram, head: nat, head1: nat, free: seq<nat>, owner: map<nat, nat>,
                  i: nat, n: nat, who: nat)
    requires Sound(mem, head, free, owner) && i + n <= |free| && mem1.Keys == mem.Keys
    requires Chain(mem1, head1, Without(free, i, n)) && forall p :: p in mem1 ==> |mem1[p]| == PAGE_WORDS
    requires SameOutside(mem1, mem2, free[i..i + n]) && forall p :: p in free[i..i + n] ==>
        p in mem2 && |mem2[p]| == PAGE_WORDS
    ensures Sound(mem2, head1, Without(free, i, n), Give(owner, free[i..i + n], who))
  {
    hide IsPage, Chain, NoDup, Without;
    NoDupWithout(free, i, n);
    ListInMem(mem1, head1, Without(free, i, n));
    ListInMem(mem, head, free);
    ChainFrame(mem1, mem2, head1, Without(free, i, n));
  }

  // ----- the search -----

  /** The bits of `pa` that the mask, one below a power of two, selects are clear. */
  predicate MaskClear(pa: nat, mask: nat) {
    pa % (mask + 1) == 0
  }

  lemma Pow2Step(k: nat)
    ensures Pow2(k + 1) == 2 * Pow2(k)
    ensures k == 4 ==> Pow2(k) == 16
  {}

  lemma Pow2Known()
    ensures Pow2(12) == PAGE_SIZE && Pow2(63) == TWO64 / 2 && Pow2(64) == TWO64
  {
    hide Pow2;
    Pow2Step(4);
    Pow2Add(4, 4);
    Pow2Add(4, 8);
    Pow2Add(8, 8);
    Pow2Add(16, 16);
    Pow2Add(32, 32);
    Pow2Step(63);
  }

  lemma MaskOfSmall(pa: nat, size: nat)
    requires 0 < size <= TWO64
    ensures MaskClear(pa, (size + TWO64 - 1) % TWO64) <==> pa % size == 0
  {
    DivIs(size + TWO64 - 1, 1, TWO64);
  }

  lemma MaskOfLarge(pa: nat, k: nat)
    requires 0 < pa < TWO64 && k > 0
    ensures !MaskClear(pa, (k * TWO64 + TWO64 - 1) % TWO64) && k * TWO64 > 0 && pa % (k * TWO64) != 0
  {
    MulMono(1, k, TWO64);
    AddMul(TWO64 - 1, k, TWO64);
    DivIs(pa, 0, k * TWO64);
  }

  /** The mask of alloc_pages tests alignment, also where its computation leaves 64 bits. */
  lemma MaskIsAligned(pa: nat, order: nat)
    requires 0 < pa < TWO64 && order < 64
    ensures MaskClear(pa, (Pow2(order) * PAGE_SIZE + TWO64 - 1) % TWO64) <==> Aligned(pa, Pow2(order))
  {
    hide Pow2, MaskClear;
    Pow2Known();
    Pow2Add(order, 12);
    if order < 52 {
      Pow2Add(51 - order, order + 12);
      MulMono(1, Pow2(51 - order), Pow2(order) * PAGE_SIZE);
      MaskOfSmall(pa, Pow2(order) * PAGE_SIZE);
    } else {
      Pow2Add(order - 52, 64);
      MaskOfLarge(pa, Pow2(order - 52));
    }
  }

  lemma ListLinks(mem: Ram, head: nat, free: seq<nat>, owner: map<nat, nat>)
    requires Sound(mem, head, free, owner)
    ensures head == At(free, 0) && forall i: nat :: i < |free| ==> Linked(mem, free, i)
  {}

  lemma SearchStep(list: seq<nat>, pos: nat, run: nat, n: nat)
    requires run <= pos <= |list| && run < n
    ensures Search(list, pos, run, n) ==
              if pos == |list| then None
              else
                var run' := Next(list, pos, run, n);
                if run' == n then Some(pos + 1 - n) else Search(list, pos + 1, run', n)
  {}

  lemma Parts(free: seq<nat>, i: nat, n: nat)
    requires i + n <= |free|
    ensures free == free[..i] + free[i..i + n] + free[i + n..]
  {}

  lemma RunInList(mem: Ram, head: nat, free: seq<nat>, owner: map<nat, nat>, n: nat)
    requires Sound(mem, head, free, owner) && n > 0 && FindRun(free, n).Some?
    ensures var i := FindRun(free, n).value;
            && i + n <= |free| && Block(free[i], n) == free[i..i + n] && Aligned(free[i], n)
            && (forall k: nat :: k < n ==> Block(free[i], n)[k] in mem)
            && (i > 0 ==> free[i - 1] in mem && |mem[free[i - 1]]| == PAGE_WORDS && free[i - 1] != 0)
            && free[i] != 0
            && free == free[..i] + Block(free[i], n) + free[i + n..]
  {
    hide Search, Block, Aligned, NoDup, Owned;
    var i := FindRun(free, n).value;
    assert Linked(mem, free, i);
    Parts(free, i, n);
    if i > 0 {
      assert Linked(mem, free, i - 1);
    }
    forall k: nat | k < n
      ensures Block(free[i], n)[k] in mem
    {
      assert Linked(mem, free, i + k) && free[i..i + n][k] == free[i + k];
    }
  }

  /** How alloc_pages unlinks `n` pages from position `i`. */
  ghost predicate Unlinked(mem: Ram, mem1: Ram, head: nat, head1: nat, free: seq<nat>, i: nat, n: nat)
    requires i + n <= |free|
  {
    if i == 0 then mem1 == mem && head1 == At(free, n)
    else
      && free[i - 1] in mem && |mem[free[i - 1]]| == PAGE_WORDS
      && mem1 == SetLink(mem, free[i - 1], At(free, i + n)) && head1 == head
  }

  lemma UnlinkedChain(mem: Ram, mem1: Ram, head: nat, head1: nat, free: seq<nat>, owner: map<nat, nat>, i: nat, n: nat)
    requires Sound(mem, head, free, owner) && i + n <= |free| && Unlinked(mem, mem1, head, head1, free, i, n)
    ensures Chain(mem1, head1, Without(free, i, n))
    ensures mem1.Keys == mem.Keys && forall p :: p in mem1 ==> |mem1[p]| == PAGE_WORDS
    ensures mem1 == mem || (i > 0 && free[i - 1] in mem && free[i - 1] in mem1 && mem1 ==
              mem[free[i - 1] := mem1[free[i - 1]]])
  {
    hide IsPage, At, Without, NoDup, Chain;
    if i == 0 {
      ChainDrop(mem, head, free, n);
    } else {
      ChainCut(mem, head, free, i, n);
    }
  }

  lemma OwnersUntouched(mem: Ram, mem1: Ram, mem2: Ram, head: nat, free: seq<nat>, owner: map<nat, nat>, i: nat, n: nat)
    requires Sound(mem, head, free, owner) && i + n <= |free| && SameOutside(mem1, mem2, free[i..i + n])
    requires mem1 == mem
               || (i > 0 && free[i - 1] in mem && free[i - 1] in mem1 && mem1 == mem[free[i - 1] := mem1[free[i - 1]]])
    ensures mem2.Keys == mem.Keys && forall p :: p in owner && p in mem2 ==> mem2[p] == mem[p]
  {
    hide Chain, NoDup, IsPage;
  }

  /** What alloc_pages does once it has found a run: unlink it, then zero it. */
  lemma TakeRun(mem: Ram, mem1: Ram, mem2: Ram, head: nat, head1: nat, free: seq<nat>, owner: map<nat, nat>, n: nat,
                who: nat)
    requires Sound(mem, head, free, owner) && n > 0 && FindRun(free, n).Some?
    requires var i := FindRun(free, n).value;
             && Unlinked(mem, mem1, head, head1, free, i, n) && SameOutside(mem1, mem2, Block(free[i], n))
             && forall p :: p in Block(free[i], n) ==> p in mem2 && mem2[p] == ZEROED
    ensures var i := FindRun(free, n).value;
            && Sound(mem2, head1, Without(free, i, n), Give(owner, Block(free[i], n), who))
            && mem2.Keys == mem.Keys && forall p :: p in owner && p in mem2 ==> mem2[p] == mem[p]
  {
    hide Sound, Search, Block, Chain, Without, SameOutside, Unlinked;
    var i := FindRun(free, n).value;
    RunInList(mem, head, free, owner, n);
    UnlinkedChain(mem, mem1, head, head1, free, owner, i, n);
    SoundTake(mem, mem1, mem2, head, head1, free, owner, i, n, who);
    OwnersUntouched(mem, mem1, mem2, head, free, owner, i, n);
  }

  lemma HeadIs(mem: Ram, head: nat, free: seq<nat>, owner: map<nat, nat>)
    requires Sound(mem, head, free, owner)
    ensures head == 0 <==> free == []
    ensures free != [] ==> head == free[0] && head in mem && |mem[head]| == PAGE_WORDS && mem[head][0] == At(free, 1)
    ensures forall i: nat :: free != [] && i < 1 ==> Block(head, 1)[i] in mem
    ensures Block(head, 1) == [head]
  {
    assert free != [] ==> Linked(mem, free, 0);
  }

  lemma TakeFirst(mem: Ram, mem2: Ram, head: nat, free: seq<nat>, owner: map<nat, nat>, who: nat)
    requires Sound(mem, head, free, owner) && free != [] && SameOutside(mem, mem2, [head])
    requires head in mem2 && |mem2[head]| == PAGE_WORDS
    ensures Sound(mem2, At(free, 1), free[1..], Give(owner, [head], who))
  {
    hide IsPage, NoDup, Chain;
    HeadIs(mem, head, free, owner);
    assert free[0..0 + 1] == [head] && Without(free, 0, 1) == free[1..];
    ChainDrop(mem, head, free, 1);
    SoundTake(mem, mem, mem2, head, At(free, 1), free, owner, 0, 1, who);
  }

  lemma SameAll(mem: Ram)
    ensures SameOutside(mem, mem, [])
  {}

  lemma BlockIs(page: nat, n: nat)
    ensures NoDup(Block(page, n)) && (n > 0 ==> Block(page, n)[0] == page)
    ensures |Block(page, n)| == n && forall i: nat :: i < n ==> Block(page, n)[i] == page + i * PAGE_SIZE
  {}

  lemma OwnedInMem(mem: Ram, head: nat, free: seq<nat>, owner: map<nat, nat>, block: seq<nat>)
    requires Sound(mem, head, free, owner) && forall p :: p in block ==> p in owner
    ensures forall i: nat :: i < |block| ==> block[i] in mem && |mem[block[i]]| == PAGE_WORDS
  {
    forall i: nat | i < |block|
      ensures block[i] in mem && |mem[block[i]]| == PAGE_WORDS
    {
      assert block[i] in block;
    }
  }

  /** One more page of the block gets its link. */
  lemma LinkStep(mem: Ram, mem': Ram, block: seq<nat>, i: nat, head: nat)
    requires NoDup(block) && i < |block| && SameOutside(mem, mem', block[..i])
    requires forall k: nat :: k < |block| ==> block[k] in mem && |mem[block[k]]| == PAGE_WORDS
    requires forall k: nat :: k < i ==> BlockLink(mem, mem', block, k, head)
    ensures block[i] in mem' && mem'[block[i]] == mem[block[i]]
    ensures var m := SetLink(mem', block[i], if i + 1 < |block| then block[i + 1] else head);
            SameOutside(mem, m, block[..i + 1]) && forall k: nat :: k <= i ==> BlockLink(mem, m, block, k, head)
  {
    assert block[i] !in block[..i];
    var m := SetLink(mem', block[i], if i + 1 < |block| then block[i + 1] else head);
    assert block[..i + 1] == block[..i] + [block[i]];
    forall k: nat | k <= i
      ensures BlockLink(mem, m, block, k, head)
    {
      if k < i {
        assert BlockLink(mem, mem', block, k, head);
        Apart(block, k, i);
      }
    }
  }

  // ----- the allocator -----

  class PageAllocator {
    var mem: Ram
    var freelist: nat
    ghost var free: seq<nat>
    ghost var owner: map<nat, nat>

    ghost predicate Valid()
      reads this
    {
      Sound(mem, freelist, free, owner)
    }

    /** At boot the list is empty and all pages belong to one holder. */
    constructor (ram: Ram, ghost boot: nat)
      requires forall p :: p in ram ==> IsPage(p) && |ram[p]| == PAGE_WORDS
      ensures Valid() && mem == ram && free == [] && owner == map p | p in ram :: boot
    {
      mem, freelist := ram, 0;
      free, owner := [], map p | p in ram :: boot;
    }

    /** The loop of free_pages: each page of the block points to the next, and the last one to `last`. */
    method LinkBlock(page: nat, size: nat, last: nat)
      requires 0 < size && size % PAGE_SIZE == 0
      requires forall i: nat :: i < size / PAGE_SIZE ==>
                 Block(page, size / PAGE_SIZE)[i] in mem && |mem[Block(page, size / PAGE_SIZE)[i]]| == PAGE_WORDS
      modifies this`mem
      ensures SameOutside(old(mem), mem, Block(page, size / PAGE_SIZE))
      ensures BlockLinked(old(mem), mem, Block(page, size / PAGE_SIZE), last)
    {
      hide Block, SameOutside, BlockLink, NoDup;
      ghost var n, block := size / PAGE_SIZE, Block(page, size / PAGE_SIZE);
      BlockIs(page, n);
      var end := page + size;
      var p := page;
      ghost var i: nat := 0;
      SameAll(mem);
      while p + PAGE_SIZE != end
        invariant i < n && p == page + i * PAGE_SIZE == block[i]
        invariant SameOutside(old(mem), mem, block[..i])
        invariant forall k: nat :: k < i ==> BlockLink(old(mem), mem, block, k, last)
        decreases n - i
      {
        LinkStep(old(mem), mem, block, i, last);
        mem := SetLink(mem, p, p + PAGE_SIZE);
        p := p + PAGE_SIZE;
        i := i + 1;
      }
      LinkStep(old(mem), mem, block, i, last);
      mem := SetLink(mem, p, last);
      assert block[..n] == block;
    }

    /** free_pages of a nonempty block of pages, all of them owned by the caller. */
    method FreeBlock(page: nat, size: nat, ghost who: nat)
      requires Valid() && page % PAGE_SIZE == 0 && size % PAGE_SIZE == 0 && 0 < size && page + size <= TWO64
      requires forall p :: p in Block(page, size / PAGE_SIZE) ==> p in owner && owner[p] == who
      modifies this
      ensures Valid() && free == Block(page, size / PAGE_SIZE) + old(free)
      ensures owner == old(owner) - set p | p in Block(page, size / PAGE_SIZE)
      ensures SameOutside(old(mem), mem, Block(page, size / PAGE_SIZE))
    {
      hide Sound, Block, SameOutside, BlockLinked, NoDup;
      ghost var block := Block(page, size / PAGE_SIZE);
      BlockIs(page, size / PAGE_SIZE);
      OwnedInMem(mem, freelist, free, owner, block);
      var oldFreelist := freelist;
      freelist := page;
      LinkBlock(page, size, oldFreelist);
      SoundFree(old(mem), mem, oldFreelist, free, owner, block);
      free := block + free;
      owner := owner - set p | p in block;
    }

    /** free_pages. With size 0 it drops the list, so that all free pages are lost. */
    method FreePages(page: nat, size: nat, ghost who: nat)
      requires Valid() && page % PAGE_SIZE == 0 && size % PAGE_SIZE == 0 && page + size <= TWO64
      requires forall p :: p in Block(page, size / PAGE_SIZE) ==> p in owner && owner[p] == who
      modifies this
      ensures Valid() && SameOutside(old(mem), mem, Block(page, size / PAGE_SIZE))
      ensures size > 0 ==> free == Block(page, size / PAGE_SIZE) + old(free)
                           && owner == old(owner) - set p | p in Block(page, size / PAGE_SIZE)
      ensures size == 0 ==> free == [] && mem == old(mem) && owner == Give(old(owner), old(free), LOST)
    {
      if size == 0 {
        SoundDrop(mem, freelist, free, owner);
        freelist := 0;
        owner := Give(owner, free, LOST);
        free := [];
        return;
      }
      hide Sound, Block, SameOutside;
      FreeBlock(page, size, who);
    }

    /** memset of `n` pages to zero. */
    method ZeroPages(page: nat, n: nat)
      requires forall i: nat :: i < n ==> Block(page, n)[i] in mem
      modifies this`mem
      ensures SameOutside(old(mem), mem, Block(page, n)) && forall p :: p in Block(page, n) ==>
          p in mem && mem[p] == ZEROED
    {
      ghost var block := Block(page, n);
      for i := 0 to n
        invariant SameOutside(old(mem), mem, block[..i]) && forall k: nat :: k < i ==>
            block[k] in mem && mem[block[k]] == ZEROED
      {
        assert block[i] in mem;
        mem := mem[page + i * PAGE_SIZE := ZEROED];
        assert block[..i + 1] == block[..i] + [block[i]];
      }
      assert block[..n] == block;
    }

    /** alloc_page: the first page of the list, zeroed. */
    method AllocPage(ghost who: nat) returns (r: nat)
      requires Valid()
      modifies this
      ensures Valid() && (r == 0 <==> old(free) == [])
      ensures r == 0 ==> unchanged(this)
      ensures r != 0 ==> r == old(free)[0] && free == old(free)[1..] && owner == Give(old(owner), [r], who)
      ensures r != 0 ==> SameOutside(old(mem), mem, [r]) && mem[r] == ZEROED
    {
      HeadIs(mem, freelist, free, owner);
      if freelist == 0 {
        return 0;
      }
      hide Sound, SameOutside, Chain;
      var p := freelist;
      freelist := mem[freelist][0];
      ZeroPages(p, 1);
      TakeFirst(old(mem), mem, old(freelist), free, owner, who);
      free := free[1..];
      owner := Give(owner, [p], who);
      return p;
    }

    /** free_page. */
    method FreePage(page: nat, ghost who: nat)
      requires Valid() && page in owner && owner[page] == who
      modifies this
      ensures Valid() && free == [page] + old(free) && owner == old(owner) - {page}
      ensures SameOutside(old(mem), mem, [page])
    {
      hide Sound;
      OwnedInMem(mem, freelist, free, owner, [page]);
      assert [page][0] == page;
      mem := SetLink(mem, page, freelist);
      SoundFree(old(mem), mem, freelist, free, owner, [page]);
      freelist := page;
      assert (set p | p in [page]) == {page};
      owner := owner - set p | p in [page];
      free := [page] + free;
    }

    /** The loop of alloc_pages: the first page of the run found, the page before it and the page behind it. */
    method SearchRun(order: nat) returns (runStart: nat, runPrev: nat, next: nat)
      requires Valid() && order < 64
      ensures var f := FindRun(free, Pow2(order));
              if f.None? then runStart == 0
              else
                && runStart == free[f.value] && next == At(free, f.value + Pow2(order))
                && runPrev == if f.value == 0 then 0 else free[f.value - 1]
    {
      hide Sound, Pow2, Aligned, Search, Consecutive;
      var n := Pow2(order);
      var alignMask := (n * PAGE_SIZE + TWO64 - 1) % TWO64;
      var curr := 0;
      next := freelist;
      var run := 0;
      runStart, runPrev := 0, 0;
      var runNextPa := 0;
      ghost var pos: nat := 0;
      ListLinks(mem, freelist, free, owner);
      while true
        invariant pos <= |free| && run < n && run <= pos && next == At(free, pos)
        invariant curr == if pos == 0 then 0 else free[pos - 1]
        invariant Search(free, 0, 0, n) == Search(free, pos, run, n)
        invariant run > 0 ==> runStart == free[pos - run] && runNextPa == free[pos - 1] + PAGE_SIZE
        invariant run > 0 ==> runPrev == if pos == run then 0 else free[pos - run - 1]
        decreases |free| - pos
      {
        var prev := curr;
        curr := next;
        SearchStep(free, pos, run, n);
        assert pos < |free| ==> Linked(mem, free, pos);
        if curr == 0 {
          runStart := 0;
          break;
        }
        next := mem[curr][0];
        MaskIsAligned(curr, order);
        if run == 0 {
          if MaskClear(curr, alignMask) {
            runStart, runPrev, runNextPa, run := curr, prev, curr + PAGE_SIZE, 1;
          }
        } else if curr == runNextPa {
          runNextPa, run := runNextPa + PAGE_SIZE, run + 1;
        } else {
          run := 0;
        }
        if run == n {
          pos := pos + 1;
          break;
        }
        pos := pos + 1;
      }
    }

    /**
     alloc_pages: an aligned run of consecutive pages, zeroed, which leaves the list without these
     pages; if there is none, nothing changes. No page that has an owner is written.
     */
    method AllocPages(order: nat, ghost who: nat) returns (r: nat)
      requires Valid() && order < 64
      modifies this
      ensures Valid()
      ensures FindRun(old(free), Pow2(order)).None? ==> r == 0 && unchanged(this)
      ensures FindRun(old(free), Pow2(order)).Some? ==>
                var n, i := Pow2(order), FindRun(old(free), Pow2(order)).value;
                && r == old(free)[i] != 0 && Aligned(r, n)
                && free == Without(old(free), i, n) && old(free) == free[..i] + Block(r, n) + free[i..]
                && owner == Give(old(owner), Block(r, n), who)
                && (forall p :: p in Block(r, n) ==> p in mem && mem[p] == ZEROED)
      ensures mem.Keys == old(mem).Keys && forall p :: p in old(owner) && p in mem ==> mem[p] == old(mem)[p]
    {
      hide Sound, Pow2, Search, SameOutside, Block, Consecutive, Aligned;
      var n := Pow2(order);
      ghost var f := FindRun(free, n);
      var runStart, runPrev, next := SearchRun(order);
      if f.Some? {
        RunInList(mem, freelist, free, owner, n);
      }
      if runStart != 0 {
        if runPrev != 0 {
          mem := SetLink(mem, runPrev, next);
        } else {
          freelist := next;
        }
        ghost var mem1 := mem;
        ZeroPages(runStart, n);
        TakeRun(old(mem), mem1, mem, old(freelist), freelist, free, owner, n, who);
        free := Without(free, f.value, n);
        owner := Give(owner, Block(runStart, n), who);
      }
      return runStart;
    }
  }
}
