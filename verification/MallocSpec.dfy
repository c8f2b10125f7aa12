/**
 Sizes, orders and the place of a block: the arithmetic of lib/alloc.c, of page_memalign
 in lib/alloc_page.c and of fls in lib/bitops.h.
 */
module MallocSpec {
  import opened Words
  import opened Arith
  import opened PageAlloc

  const METADATA_EXTRA: nat := 16

  // ----- fls -----

  /** Shifting left by `s` bits keeps the product, if no bit is lost. */
  lemma ShiftStep(w: nat, k: nat, word: nat, s: nat)
    requires word == w * Pow2(k)
    ensures word * Pow2(s) == w * Pow2(k + s)
  {
    Pow2Add(k, s);
    assert w * Pow2(k) * Pow2(s) == w * (Pow2(k) * Pow2(s));
  }

  /** From the shifted word to the bounds of the original one. */
  lemma TopBit(w: nat, num: nat)
    requires num <= 63 && TWO64 / 2 <= w * Pow2(63 - num) < TWO64
    ensures Pow2(num) <= w < Pow2(num + 1)
  {
    hide Pow2;
    var c := Pow2(63 - num);
    Pow2Known();
    Pow2Add(num, 63 - num);
    Pow2Add(num + 1, 63 - num);
    if w < Pow2(num) {
      MulMono(w + 1, Pow2(num), c);
    }
    if w >= Pow2(num + 1) {
      MulMono(Pow2(num + 1), w, c);
    }
  }

  lemma Pow2Tiny()
    ensures Pow2(0) == 1 && Pow2(1) == 2 && Pow2(2) == 4
  {}

  lemma SmallPowers()
    ensures Pow2(0) == 1 && Pow2(1) == 2 && Pow2(2) == 4 && Pow2(4) == 16 && Pow2(8) == 0x100 && Pow2(16) == 0x1_0000
    ensures Pow2(32) == 0x1_0000_0000
  {
    hide Pow2;
    Pow2Tiny();
    Pow2Add(2, 2);
    Pow2Add(4, 4);
    Pow2Add(8, 8);
    Pow2Add(16, 16);
  }

  /** One conditional shift of fls: if the upper `s` bits, those from `limit` on, are clear, shift them out. */
  method FlsStep(num: nat, word: nat, s: nat, limit: nat, ghost w: nat) returns (num': nat, word': nat)
    requires s <= num <= 63 && limit * Pow2(s) == TWO64 && word == w * Pow2(63 - num) < TWO64
    requires w > 0 ==> word * Pow2(s) >= limit
    ensures num - s <= num' <= num && word' == w * Pow2(63 - num') < TWO64
    ensures if w > 0 then word' >= limit else num' == num - s
  {
    hide Pow2;
    num', word' := num, word;
    ShiftStep(w, 63 - num, word, s);
    if word < limit {
      MulMono(word + 1, limit, Pow2(s));
      num', word' := num - s, word * Pow2(s);
    }
  }

  /** fls: the position of the highest set bit. */
  method Fls(w: nat) returns (num: nat)
    requires w < TWO64
    ensures w == 0 ==> num == 0
    ensures w > 0 ==> num <= 63 && Pow2(num) <= w < Pow2(num + 1)
  {
    hide Pow2;
    SmallPowers();
    var word;
    num, word := FlsStep(63, w, 32, 0x1_0000_0000, w);
    num, word := FlsStep(num, word, 16, 0x1_0000_0000_0000, w);
    num, word := FlsStep(num, word, 8, 0x100_0000_0000_0000, w);
    num, word := FlsStep(num, word, 4, 0x1000_0000_0000_0000, w);
    num, word := FlsStep(num, word, 2, 0x4000_0000_0000_0000, w);
    if word < TWO64 / 2 {
      ShiftStep(w, 63 - num, word, 1);
      num := num - 1;
    }
    if w > 0 {
      TopBit(w, num);
    }
  }

  // ----- the order of page_memalign -----

  lemma {:induction false} Pow2Mono(a: nat, b: nat)
    requires a <= b
    ensures Pow2(a) <= Pow2(b)
    decreases b
  {
    if a < b {
      Pow2Mono(a, b - 1);
    }
  }

  lemma StrictlyLess(k: nat, f: nat)
    requires k < f
    ensures Pow2(k) < Pow2(f)
  {
    Pow2Mono(k, f - 1);
  }

  /** The order that page_memalign picks for `n` pages: the least one whose run has room for them. */
  method OrderOf(n: nat) returns (order: nat)
    requires 0 < n < TWO64
    ensures Pow2(order) >= n && order <= 64 && forall k: nat :: Pow2(k) >= n ==> k >= order
  {
    hide Pow2;
    var f := Fls(n);
    var isPowerOfTwo := Pow2(f) == n;
    order := if isPowerOfTwo then f else f + 1;
    forall k: nat | Pow2(k) >= n
      ensures k >= order
    {
      if k < order {
        Pow2Mono(k, order - 1);
        StrictlyLess(k, f);
      }
    }
  }

  // ----- the place of the result in the block -----

  function Align(x: nat, a: nat): (r: nat)
    requires a > 0
    ensures x <= r < x + a && r % a == 0
  {
    MulMod((x + a - 1) / a, a);
    (x + a - 1) / a * a
  }

  /** The size that memalign asks its backend for. */
  function BlockSize(alignment: nat, size: nat, alignMin: nat): nat
    requires alignMin > 0 && alignment > 0
  {
    Align(size + (alignment - 1) + METADATA_EXTRA, alignMin)
  }

  /** The address that memalign returns for a block at `p`. */
  function Place(p: nat, alignment: nat): nat
    requires alignment > 0
  {
    Align(p + METADATA_EXTRA, alignment)
  }

  /** The result is aligned, and the metadata in front of it and the user region behind it lie in the block. */
  lemma Placement(p: nat, alignment: nat, size: nat, alignMin: nat)
    requires alignMin > 0 && alignment > 0
    ensures var r := Place(p, alignment);
            r % alignment == 0 && p <= r - METADATA_EXTRA && r + size <= p + BlockSize(alignment, size, alignMin)
  {}
}
