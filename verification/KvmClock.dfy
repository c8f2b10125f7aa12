/** The wide arithmetic of x86/kvmclock.c. */
module KvmClock {
  import opened Words
  import opened Arith

  // ----- __div64_32 -----

  lemma Assoc(a: nat, b: nat, c: nat)
    ensures a * b * c == a * (b * c)
  {}

  lemma Twice(base: nat, d: nat)
    ensures base * (d + d) == base * d + base * d
  {}

  lemma Distribute(a: nat, d: nat, base: nat)
    ensures (a + d) * base == a * base + base * d
  {}

  lemma Reduced(n: nat, base: nat, q: nat)
    requires n < TWO64 && 0 < base < TWO32 && q == n / TWO32 / base
    ensures q < TWO32 && q * base < TWO32 && 0 <= n - q * base * TWO32 < base * TWO32
    ensures q * TWO32 * base + (n - q * base * TWO32) == n
  {
    var high := n / TWO32;
    Quotient(n, TWO32);
    Quotient(high, base);
    MulMono(1, base, q);
    MulMono(high % base + 1, base, TWO32);
    Assoc(q, TWO32, base);
    Assoc(q, base, TWO32);
  }

  /** The reduction of the upper word: nothing leaves 64 bits and n is res * base + rem. */
  method Reduce(n: nat, base: nat) returns (res: nat, rem: nat)
    requires n < TWO64 && 0 < base < TWO32
    ensures res * base + rem == n && rem <= n && rem < base * TWO32 && res < TWO64
  {
    rem := n;
    var high := rem / TWO32;
    res := 0;
    if high >= base {
      var q := high / base;
      Reduced(n, base, q);
      var product := q * base;
      res := q * TWO32;
      rem := rem - product * TWO32;
    } else {
      Quotient(n, TWO32);
      MulMono(high + 1, base, TWO32);
    }
  }

  /** The first loop: the divisor is doubled until it reaches the remainder or the sign bit. */
  method Double(base: nat, rem: nat) returns (b: nat, d: nat, ghost k: nat)
    requires 0 < base < TWO32 && rem < TWO64
    ensures b == base * d < TWO64 && d == Pow2(k) && rem < 2 * b
  {
    b, d, k := base, 1, 0;
    while 0 < b < TWO63 && b < rem
      invariant b == base * d && 0 < b < TWO64 && d == Pow2(k)
      decreases TWO64 - b
    {
      Twice(base, d);
      b, d, k := b + b, d + d, k + 1;
    }
  }

  /** __div64_32: quotient and remainder, with every intermediate value below 2^64. */
  method Div64By32(n: nat, base: nat) returns (quotient: nat, remainder: nat)
    requires n < TWO64 && 0 < base < TWO32
    ensures quotient == n / base && remainder == n % base
  {
    var res: nat, rem: nat, b: nat, d: nat;
    ghost var k: int;
    res, rem := Reduce(n, base);
    b, d, k := Double(base, rem);
    var more := true;
    while more
      invariant res * base + rem == n && -1 <= k && (more <==> k >= 0)
      invariant more ==> d == Pow2(k) && b == base * d < TWO64 && rem < 2 * b
      invariant !more ==> rem < base
      decreases k
    {
      if rem >= b {
        Distribute(res, d, base);
        rem, res := rem - b, res + d;
      }
      if k > 0 {
        Twice(base, d / 2);
      }
      b, d, k := b / 2, d / 2, k - 1;
      more := d != 0;
    }
    DivIs(n, res, base);
    quotient, remainder := res, rem;
  }

  // ----- scale_delta -----

  lemma QuotientBelow(x: nat, p: nat)
    requires p > 0
    ensures 0 <= x / p <= x
  {
    MulMono(1, p, x / p);
  }

  function Shifted(delta: nat, shift: int): (r: nat)
    requires delta < TWO64 && -63 <= shift <= 63
    ensures r < TWO64
  {
    if shift < 0 then QuotientBelow(delta, Pow2(-shift)); delta / Pow2(-shift)
    else delta * Pow2(shift) % TWO64
  }

  lemma Divided(delta: nat, p: nat)
    requires p > 0
    ensures delta / p * p <= delta < (delta / p + 1) * p
  {}

  lemma Undone(delta: nat, p: nat)
    requires p > 0
    ensures delta * p / p == delta
  {
    DivIs(delta * p, delta, p);
  }

  /** A negative shift divides and leaves out the remainder. */
  lemma ShiftDown(delta: nat, n: nat)
    requires delta < TWO64 && 0 < n <= 63
    ensures var r := Shifted(delta, 0 - n); r * Pow2(n) <= delta < (r + 1) * Pow2(n)
  {
    hide Pow2;
    Divided(delta, Pow2(n));
  }

  lemma Rest(x: nat)
    ensures (x - x % TWO64) % TWO64 == 0
  {}

  lemma Kept(x: nat)
    requires x < TWO64
    ensures x % TWO64 == x
  {}

  /** A positive shift multiplies and loses what is above 64 bits. If nothing is lost, the negative one undoes it. */
  lemma ShiftUp(delta: nat, n: nat)
    requires delta < TWO64 && 0 < n <= 63
    ensures var r := Shifted(delta, n);
            && (delta * Pow2(n) - r) % TWO64 == 0
            && (delta * Pow2(n) < TWO64 ==> r == delta * Pow2(n) && Shifted(r, 0 - n) == delta)
  {
    hide Pow2;
    var x := delta * Pow2(n);
    Rest(x);
    if x < TWO64 {
      Kept(x);
      Undone(delta, Pow2(n));
    }
  }

  lemma ShiftByTwo()
    ensures Shifted(8, -2) == 2 && Shifted(8, 2) == 32
  {
    assert Pow2(1) == 2 && Pow2(2) == 4;
    hide Pow2;
  }

  /** The x86_64 form: a 128-bit product, shifted right by 32 bits. */
  function Scale64(delta: nat, mul: nat): nat {
    delta * mul / TWO32 % TWO64
  }

  /** The i386 form: two 32-bit multiplications and an addition with carry, register by register. */
  function Scale32(delta: nat, mul: nat): nat
    requires delta < TWO64 && mul < TWO32
  {
    var tmp := delta % TWO32 * mul / TWO32;             // upper half of the first product
    var second := delta / TWO32 * mul;
    var eax, edx := second % TWO32, second / TWO32;
    var sum := eax + tmp;
    var carry := sum / TWO32;
    (edx + carry) % TWO32 * TWO32 + sum % TWO32
  }

  lemma SplitProduct(hi: nat, lo: nat, mul: nat)
    ensures (hi * TWO32 + lo) * mul == lo * mul + hi * mul * TWO32
  {}

  lemma Halves(delta: nat, mul: nat)
    requires delta < TWO64 && mul < TWO32
    ensures var tmp, second := delta % TWO32 * mul / TWO32, delta / TWO32 * mul;
            0 <= tmp < TWO32 && 0 <= second && second + tmp == delta * mul / TWO32 < TWO64
  {
    var lo, hi := delta % TWO32, delta / TWO32;
    MulMono(lo, TWO32 - 1, mul);
    MulMono(hi, TWO32 - 1, mul);
    SplitProduct(hi, lo, mul);
    AddMul(lo * mul, hi * mul, TWO32);
  }

  /** Adding to the lower half with carry into the upper one is adding. */
  lemma Carry(second: nat, tmp: nat)
    requires tmp < TWO32 && second + tmp < TWO64
    ensures var sum := second % TWO32 + tmp;
            (second / TWO32 + sum / TWO32) % TWO32 * TWO32 + sum % TWO32 == second + tmp
  {}

  /** Both forms give the exact fixed-point product. */
  lemma ScaleExact(delta: nat, mul: nat)
    requires delta < TWO64 && mul < TWO32
    ensures Scale32(delta, mul) == Scale64(delta, mul) == delta * mul / TWO32
  {
    Halves(delta, mul);
    var tmp: nat, second: nat, product := delta % TWO32 * mul / TWO32, delta / TWO32 * mul, delta * mul / TWO32;
    Carry(second, tmp);
    Kept(product);
  }

  lemma ScaleForms(delta: nat, mul: nat, shift: int)
    requires delta < TWO64 && mul < TWO32 && -63 <= shift <= 63
    ensures var d := Shifted(delta, shift); Scale32(d, mul) == Scale64(d, mul) == d * mul / TWO32
  {
    ScaleExact(Shifted(delta, shift), mul);
  }
}
