/**
 The bounded formatter of lib/printf.c: characters beyond the buffer are counted but not stored, and
 numbers are built backwards and reversed in place.
 */
module Printf {
  import opened Words
  import opened Arith
  import opened PrintfSpec

  // ----- digits, built backwards -----

  function Reverse(s: string): (r: string)
    ensures |r| == |s| && forall i :: 0 <= i < |s| ==> r[i] == s[|s| - 1 - i]
  {
    if s == "" then "" else Reverse(s[1..]) + [s[0]]
  }

  lemma ReverseAppend(s: string, c: char)
    ensures Reverse(s + [c]) == [c] + Reverse(s)
  {
    var a, b := Reverse(s + [c]), [c] + Reverse(s);
    assert forall i :: 0 <= i < |a| ==> a[i] == b[i];
  }

  function Pow10(k: nat): (r: nat)
    ensures r > 0
  {
    if k == 0 then 1 else 10 * Pow10(k - 1)
  }

  lemma TenthFits(n: nat, base: nat, m: nat)
    requires 10 <= base && n < 10 * m
    ensures 0 <= n / base < m
  {
    Quotient(n, base);
    if n / base >= m {
      MulMono(10, base, m);
      MulMono(m, n / base, base);
    }
  }

  lemma {:induction false} DigitsFit(n: nat, base: nat, k: nat)
    requires 10 <= base <= 16 && n < Pow10(k)
    ensures |Digits(n, base)| <= k
    decreases k
  {
    if n > 0 {
      TenthFits(n, base, Pow10(k - 1));
      DigitsFit(n / base, base, k - 1);
    }
  }

  lemma TwentyDigits(n: nat, base: nat)
    requires 10 <= base <= 16 && n < TWO64
    ensures |Digits(n, base)| <= 20
  {
    assert Pow10(5) == 100000;
    assert Pow10(10) == 100000 * Pow10(5);
    assert Pow10(15) == 100000 * Pow10(10);
    assert Pow10(20) == 100000 * Pow10(15);
    DigitsFit(n, base, 20);
  }

  lemma DigitsStep(m: nat, base: nat)
    requires 2 <= base <= 16 && m > 0
    ensures Digits(m, base) == Digits(m / base, base) + [Digit(m % base)]
  {}

  lemma Smaller(m: nat, base: nat)
    requires 2 <= base && m > 0
    ensures 0 <= m / base < m && 0 <= m % base < base
  {
    MulMono(2, base, m / base);
  }

  lemma OneMore(front: string, back: string, c: char)
    ensures front + [c] + Reverse(back) == front + Reverse(back + [c])
  {
    ReverseAppend(back, c);
  }

  lemma DigitsNone(base: nat)
    requires 2 <= base <= 16
    ensures Digits(0, base) == ""
  {}

  /** The digits of `n`, last one first; for zero, none. */
  method DigitsBackwards(n: nat, base: nat, buf: array<char>) returns (len: nat)
    requires (base == 10 || base == 16) && n < TWO64 && buf.Length > 20
    modifies buf
    ensures len <= 20 && Reverse(buf[..len]) == Digits(n, base)
  {
    hide Digits, Reverse;
    TwentyDigits(n, base);
    len := 0;
    var m := n;
    assert buf[..0] == "";
    assert Digits(m, base) + Reverse("") == Digits(m, base);
    while m != 0
      invariant 0 <= m && len + |Digits(m, base)| == |Digits(n, base)| && len <= 20
      invariant Digits(n, base) == Digits(m, base) + Reverse(buf[..len])
      decreases m
    {
      Smaller(m, base);
      DigitsStep(m, base);
      buf[len] := Digit(m % base);
      OneMore(Digits(m / base, base), buf[..len], buf[len]);
      assert buf[..len + 1] == buf[..len] + [buf[len]];
      m := m / base;
      len := len + 1;
    }
    DigitsNone(base);
  }

  /** The reversal loop of print_int and print_unsigned. */
  method ReverseInPlace(buf: array<char>, len: nat)
    requires len <= buf.Length
    modifies buf
    ensures buf[..len] == Reverse(old(buf[..len]))
  {
    for i := 0 to len / 2
      invariant forall k :: 0 <= k < i ==> buf[k] == old(buf[len - 1 - k]) && buf[len - 1 - k] == old(buf[k])
      invariant forall k :: i <= k < len - i ==> buf[k] == old(buf[k])
    {
      var tmp := buf[i];
      buf[i] := buf[len - 1 - i];
      buf[len - 1 - i] := tmp;
    }
  }

  // ----- the stream -----

  lemma DigitsEmpty(n: nat, base: nat)
    requires 2 <= base <= 16
    ensures Digits(n, base) == "" <==> n == 0
    ensures |Digits(n, base)| == |Reverse(Digits(n, base))|
  {}

  lemma ReverseOne(c: char)
    ensures Reverse([c]) == [c]
  {}

  /** The end of the backwards text of print_int: a minus sign, or a zero if there is nothing else. */
  method Sign(buf: array<char>, digits: nat, neg: bool, ghost m: nat) returns (len: nat)
    requires digits <= 20 && 21 < buf.Length && Reverse(buf[..digits]) == Digits(m, 10) && (neg ==> m > 0)
    modifies buf
    ensures len <= 21 && Reverse(buf[..len]) == Integer(if neg then -(m as int) else m, 10)
  {
    hide Digits, Reverse;
    ghost var back := buf[..digits];
    DigitsEmpty(m, 10);
    len := digits;
    if neg {
      ReverseAppend(back, '-');
      buf[len] := '-';
      len := len + 1;
      assert buf[..len] == back + ['-'];
    }
    if len == 0 {
      buf[0] := '0';
      len := 1;
      assert buf[..len] == ['0'];
      ReverseOne('0');
    }
  }

  /** The end of the backwards text of print_unsigned: a prefix, or a zero if there are no digits. */
  method Prefix(buf: array<char>, digits: nat, prefix: bool, ghost n: nat, ghost base: nat) returns (len: nat)
    requires digits <= 20 && 22 < buf.Length && 2 <= base <= 16 && Reverse(buf[..digits]) == Digits(n, base)
    requires (prefix ==> n > 0)
    modifies buf
    ensures len <= 22 && Reverse(buf[..len]) == (if prefix then "0x" else "") + Natural(n, base)
  {
    hide Digits, Reverse;
    ghost var back := buf[..digits];
    DigitsEmpty(n, base);
    len := digits;
    if len == 0 {
      buf[0] := '0';
      len := 1;
      assert buf[..len] == ['0'];
      ReverseOne('0');
    } else if prefix {
      ReverseAppend(back, 'x');
      ReverseAppend(back + ['x'], '0');
      buf[len] := 'x';
      buf[len + 1] := '0';
      len := len + 2;
      assert buf[..len] == back + ['x'] + ['0'];
      assert ['0'] + (['x'] + Reverse(back)) == "0x" + Reverse(back);
    }
  }

  class Pstream {
    const buffer: array<char>
    ghost const size: nat
    var pos: nat
    var remain: nat
    var added: nat
    ghost var full: string

    constructor (buf: array<char>, size: nat)
      requires 1 <= size <= buf.Length
      ensures Valid() && buffer == buf && this.size == size && full == ""
    {
      buffer, this.size, pos, remain, added, full := buf, size, 0, size - 1, 0, "";
    }

    /** The buffer holds as much of the full text as there is room for. */
    ghost predicate Valid()
      reads this, buffer
    {
      && 1 <= size <= buffer.Length && pos + remain == size - 1 && added == |full|
      && pos <= |full| && buffer[..pos] == full[..pos] && (remain > 0 ==> pos == |full|)
    }

    /** addchar. */
    method AddChar(c: char)
      requires Valid()
      modifies this, buffer
      ensures Valid() && full == old(full) + [c]
    {
      if remain != 0 {
        buffer[pos] := c;
        pos := pos + 1;
        remain := remain - 1;
      }
      added := added + 1;
      full := full + [c];
      assert full[..old(pos)] == old(full)[..old(pos)];
    }

    method AddAll(s: string)
      requires Valid()
      modifies this, buffer
      ensures Valid() && full == old(full) + s
    {
      var i := 0;
      assert s[..0] == "";
      while i < |s|
        invariant i <= |s| && Valid() && full == old(full) + s[..i]
      {
        AddChar(s[i]);
        assert s[..i + 1] == s[..i] + [s[i]];
        i := i + 1;
      }
      assert s[..i] == s;
    }

    method AddRepeated(c: char, n: nat)
      requires Valid()
      modifies this, buffer
      ensures Valid() && full == old(full) + Repeat(c, n)
    {
      var i := 0;
      while i < n
        invariant i <= n && Valid() && full == old(full) + Repeat(c, i)
      {
        AddChar(c);
        assert Repeat(c, i + 1) == Repeat(c, i) + [c];
        i := i + 1;
      }
    }

    /** print_str. */
    method PrintStr(s: string, props: Props)
      requires Valid()
      modifies this, buffer
      ensures Valid() && full == old(full) + Padded(s, props)
    {
      var npad := props.npad;
      if npad > 0 {
        npad := npad - |s|;
        if npad > 0 {
          AddRepeated(props.pad, npad);
          npad := 0;
        }
      }
      AddAll(s);
      if npad < 0 {
        npad := npad + |s|;
        if npad < 0 {
          AddRepeated(' ', -npad);
        }
      }
    }

    /** print_int, for every number but the most negative one. */
    method PrintInt(n: int, props: Props)
      requires Valid() && -TWO63 < n < TWO63
      modifies this, buffer
      ensures Valid() && full == old(full) + Padded(Integer(n, 10), props)
    {
      hide Padded, Digits, Reverse, Integer;
      var buf := new char[26];
      var m: int := if n < 0 then -n else n;
      var len := DigitsBackwards(m, 10, buf);
      len := Sign(buf, len, n < 0, m);
      ReverseInPlace(buf, len);
      PrintStr(buf[..len], props);
    }

    /** print_unsigned. */
    method PrintUnsigned(n: nat, base: nat, props: Props)
      requires Valid() && (base == 10 || base == 16) && n < TWO64
      modifies this, buffer
      ensures Valid() && full == old(full) + Unsigned(n, base, props)
    {
      hide Digits, Reverse, Padded;
      var buf := new char[27];
      var len := DigitsBackwards(n, base, buf);
      var field := props;
      DigitsEmpty(n, base);
      var prefix := len != 0 && props.alternate && base == 16;
      if prefix && props.pad == '0' {
        AddChar('0');
        AddChar('x');
        assert full == old(full) + "0x";
        if props.npad > 0 {
          field := props.(npad := Max(props.npad - 2, 0));
        }
      }
      len := Prefix(buf, len, prefix && props.pad != '0', n, base);
      ReverseInPlace(buf, len);
      ghost var text := buf[..len];
      PrintStr(buf[..len], field);
      if prefix && props.pad == '0' {
        assert "" + Natural(n, base) == Digits(n, base);
        assert full == old(full) + ("0x" + Padded(text, field));
      } else if prefix {
        assert text == "0x" + Digits(n, base);
      } else {
        assert "" + Natural(n, base) == Natural(n, base);
      }
    }
  }

  // ----- the format -----

  /** atol. */
  method ParseLong(s: string) returns (r: int)
    ensures r == Atol(s)
  {
    var i := 0;
    assert s[0..] == s;
    while i < |s| && (s[i] == ' ' || s[i] == '\t')
      invariant i <= |s| && SkipBlanks(s) == SkipBlanks(s[i..])
    {
      assert s[i..][1..] == s[i + 1..];
      i := i + 1;
    }
    ghost var t := s[i..];
    assert SkipBlanks(s) == t;
    var neg := false;
    if i < |s| && s[i] == '-' {
      neg := true;
      i := i + 1;
      assert t[1..] == s[i..];
    } else if i < |s| && s[i] == '+' {
      i := i + 1;
      assert t[1..] == s[i..];
    }
    ghost var u := s[i..];
    var acc: nat := 0;
    while i < |s| && IsDigit(s[i])
      invariant i <= |s| && Accumulate(u, 0) == Accumulate(s[i..], acc)
    {
      assert s[i..][1..] == s[i + 1..];
      acc := acc * 10 + (s[i] - '0') as int;
      i := i + 1;
    }
    r := if neg then -(acc as int) else acc;
  }

  /** fmtnum: a width, cut to 32 bits, and its length. */
  method FmtNum(fmt: string, at: nat) returns (num: int, len: nat)
    requires at <= |fmt|
    ensures num == LowSigned(Atol(fmt[at..]), 32) && len == WidthLength(fmt[at..])
  {
    hide Atol;
    var i := at;
    len := 0;
    ghost var s := fmt[at..];
    if i < |fmt| && fmt[i] == '-' {
      i, len := i + 1, len + 1;
      assert s[1..] == fmt[i..];
    }
    ghost var sign := len;
    while i < |fmt| && IsDigit(fmt[i])
      invariant at <= i <= |fmt| && i == at + len && WidthLength(s) == len + DigitCount(fmt[i..])
    {
      assert fmt[i..][1..] == fmt[i + 1..];
      i, len := i + 1, len + 1;
    }
    var v := ParseLong(fmt[at..]);
    num := LowSigned(v, 32);
  }

  /** The switch of vsnprintf and its jumps back to it, up to the conversion. */
  method ParseDirective(fmt: string, at: nat) returns (c: Conv, props: Props, i: nat)
    requires at <= |fmt|
    ensures (c, props, i) == Directive(fmt, at, PLAIN, 0)
  {
    hide WidthLength, Atol;
    var nlong := 0;
    i, props := at, PLAIN;
    while i < |fmt|
      invariant at <= i <= |fmt| && 0 <= nlong && Directive(fmt, at, PLAIN, 0) == Directive(fmt, i, props, nlong)
      decreases |fmt| - i
    {
      var f := fmt[i];
      i := i + 1;
      if f == '%' {
        return Literal('%'), props, i;
      } else if f == 'c' {
        return CharOf, props, i;
      } else if f == '#' {
        props := props.(alternate := true);
      } else if f == '0' {
        var num, len := FmtNum(fmt, i);
        props := props.(pad := '0', npad := num);
        i := i + len;
      } else if IsDigit(f) || f == '-' {
        i := i - 1;
        var num, len := FmtNum(fmt, i);
        props := props.(npad := num);
        i := i + len;
      } else if f == 'l' {
        nlong := nlong + 1;
      } else if f == 't' || f == 'z' {
        nlong := 1;
      } else if f == 'd' {
        return SignedOf(Bits(nlong)), props, i;
      } else if f == 'u' {
        return UnsignedOf(Bits(nlong), 10), props, i;
      } else if f == 'x' {
        return UnsignedOf(Bits(nlong), 16), props, i;
      } else if f == 'p' {
        return PointerOf, props.(alternate := true), i;
      } else if f == 's' {
        return StringOf, props, i;
      } else {
        return Literal(f), props, i;
      }
    }
    c := Nothing;
  }

  /** One conversion with its argument. */
  method Convert(p: Pstream, c: Conv, props: Props, args: seq<Arg>, k: nat)
    requires p.Valid() && ConvOk(c) && (c.SignedOf? ==> LowSigned(ValueOf(args, k), c.bits) > -TWO63)
    modifies p, p.buffer
    ensures p.Valid() && p.full == old(p.full) + Render(c, props, args, k)
  {
    hide Padded, Unsigned, Integer;
    match c
    case Literal(x) => p.AddChar(x);
    case Nothing => assert p.full == p.full + "";
    case CharOf => p.AddChar((ValueOf(args, k) % 256) as char);
    case SignedOf(bits) => p.PrintInt(LowSigned(ValueOf(args, k), bits), props);
    case UnsignedOf(bits, base) => p.PrintUnsigned(LowUnsigned(ValueOf(args, k), bits), base, props);
    case PointerOf => p.PrintUnsigned(LowUnsigned(ValueOf(args, k), 64), 16, props);
    case StringOf => p.PrintStr(TextOf(args, k), props);
  }

  lemma FormatLiteral(full: string, fmt: string, i: nat, args: seq<Arg>, k: nat)
    requires i < |fmt| && fmt[i] != '%'
    ensures full + Format(fmt, i, args, k) == full + [fmt[i]] + Format(fmt, i + 1, args, k)
    ensures Negatable(fmt, i, args, k) <==> Negatable(fmt, i + 1, args, k)
  {}

  lemma FormatDirective(full: string, fmt: string, i: nat, args: seq<Arg>, k: nat)
    requires i < |fmt| && fmt[i] == '%'
    ensures var (c, props, next) := Directive(fmt, i + 1, PLAIN, 0);
            var k' := if TakesArg(c) then k + 1 else k;
            && ConvOk(c)
            && full + Format(fmt, i, args, k) == full + Render(c, props, args, k) + Format(fmt, next, args, k')
            && (Negatable(fmt, i, args, k) ==>
                  Negatable(fmt, next, args, k') && (c.SignedOf? ==> LowSigned(ValueOf(args, k), c.bits) > -TWO63))
  {
    hide Directive, Render;
    DirectiveOk(fmt, i + 1, PLAIN, 0);
  }

  lemma FormatEnd(full: string, fmt: string, args: seq<Arg>, k: nat)
    ensures full + Format(fmt, |fmt|, args, k) == full
  {}

  /**
   vsnprintf: the result is the length of the full rendering, and the buffer holds as much of it as
   fits in front of the zero byte.
   */
  method Vsnprintf(buf: array<char>, size: nat, fmt: string, args: seq<Arg>) returns (r: nat)
    requires 1 <= size <= buf.Length && Negatable(fmt, 0, args, 0)
    modifies buf
    ensures var text := Format(fmt, 0, args, 0);
            var n := if |text| < size - 1 then |text| else size - 1;
            r == |text| && buf[..n] == text[..n] && buf[n] == '\0'
  {
    hide Directive, Render, Format, Negatable, ConvOk, TakesArg;
    var s := new Pstream(buf, size);
    var i: nat, k: nat := 0, 0;
    ghost var text := Format(fmt, 0, args, 0);
    assert "" + text == text;
    while i < |fmt|
      invariant i <= |fmt| && s.Valid() && s.buffer == buf && s.size == size && fresh(s)
      invariant text == s.full + Format(fmt, i, args, k) && Negatable(fmt, i, args, k)
      decreases |fmt| - i
    {
      ghost var before := s.full;
      var f := fmt[i];
      if f != '%' {
        FormatLiteral(before, fmt, i, args, k);
        s.AddChar(f);
        i := i + 1;
      } else {
        DirectiveOk(fmt, i + 1, PLAIN, 0);
        FormatDirective(before, fmt, i, args, k);
        var c, props, next := ParseDirective(fmt, i + 1);
        Convert(s, c, props, args, k);
        i := next;
        if TakesArg(c) {
          k := k + 1;
        }
      }
    }
    FormatEnd(s.full, fmt, args, k);
    buf[s.pos] := '\0';
    r := s.added;
  }

  lemma IntegerFits(n: int)
    requires -TWO63 < n < TWO63
    ensures |Integer(n, 10)| <= 20 && '\0' !in Integer(n, 10)
  {
    var m: nat := if n < 0 then -n else n;
    assert Pow10(5) == 100000;
    assert Pow10(10) == 100000 * Pow10(5);
    assert Pow10(15) == 100000 * Pow10(10);
    assert Pow10(19) == 10000 * Pow10(15);
    DigitsFit(m, 10, 19);
    DigitsReadBack(m, "");
  }

  /** atol of what vsnprintf stores for "%ld" is the number, for every number but the most negative one. */
  method FormatThenParse(buf: array<char>, size: nat, n: int) returns (r: int)
    requires 21 <= size <= buf.Length && -TWO63 < n < TWO63
    modifies buf
    ensures r == n
  {
    hide Format, Negatable, Integer, Atol;
    FormatLong(n);
    IntegerFits(n);
    AtolOfInteger(n);
    ghost var text := Integer(n, 10);
    var len := Vsnprintf(buf, size, "%ld", [Number(n)]);
    assert buf[..len] == text[..len] == text;
    r := ParseLong(buf[..len]);
  }
}
