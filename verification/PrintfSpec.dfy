/** What vsnprintf renders and atol reads, as functions on strings (lib/printf.c, lib/string.c). */
module PrintfSpec {
  import opened Words
  import opened Arith

  // ----- numbers as digits -----

  const DIGITS: string := "0123456789abcdef"

  function Digit(d: nat): (c: char)
    requires d < 16
    ensures c != '\0' && (d < 10 ==> c == '0' + d as char)
  {
    DIGITS[d]
  }

  /** The digits of a number, without leading zeros; none for zero. */
  function Digits(n: nat, base: nat): string
    requires 2 <= base <= 16
  {
    if n == 0 then "" else Digits(n / base, base) + [Digit(n % base)]
  }

  function Natural(n: nat, base: nat): string
    requires 2 <= base <= 16
  {
    if n == 0 then "0" else Digits(n, base)
  }

  /** The text of print_int. */
  function Integer(n: int, base: nat): string
    requires 2 <= base <= 16
  {
    if n < 0 then "-" + Natural(-n, base) else Natural(n, base)
  }

  /** The value of a digit, 16 if the character is none. */
  function DigitValue(c: char): nat {
    if '0' <= c <= '9' then (c - '0') as nat else if 'a' <= c <= 'f' then (c - 'a') as nat + 10 else 16
  }

  /** The value of a string of digits. */
  function Value(s: string, base: nat): nat {
    if s == "" then 0 else Value(s[..|s| - 1], base) * base + DigitValue(s[|s| - 1])
  }

  /** A string is the usual text of a number: digits of the base with that value, without leading zeros. */
  ghost predicate Renders(s: string, n: nat, base: nat) {
    && s != "" && Value(s, base) == n && (forall i :: 0 <= i < |s| ==> DigitValue(s[i]) < base)
    && (s[0] == '0' ==> s == "0")
  }

  lemma DigitIs(d: nat)
    requires d < 16
    ensures DigitValue(Digit(d)) == d && (Digit(d) == '0' <==> d == 0)
  {}

  lemma OneDigit(c: char, base: nat)
    requires DigitValue(c) < base
    ensures Renders([c], DigitValue(c), base)
  {
    assert [c][..0] == "" && Value("", base) == 0;
  }

  lemma OneMore(s: string, n: nat, c: char, base: nat)
    requires Renders(s, n, base) && n > 0 && DigitValue(c) < base
    ensures Renders(s + [c], n * base + DigitValue(c), base)
  {
    hide DigitValue;
    assert (s + [c])[..|s|] == s;
    if s[0] == '0' {
      assert s[..0] == "" && Value("", base) == 0 && Value("0", base) == DigitValue('0');
      assert DigitValue('0') == 0 by {
        DigitIs(0);
      }
    }
  }

  /** Quotient and rest of a number, and the last of its digits. */
  lemma LastDigit(n: nat, base: nat) returns (q: nat, r: nat)
    requires 2 <= base <= 16 && n > 0
    ensures n == q * base + r && r < base && q < n && Digits(n, base) == Digits(q, base) + [Digit(r)]
  {
    q, r := n / base, n % base;
  }

  lemma {:induction false} DigitsRender(n: nat, base: nat)
    requires 2 <= base <= 16 && n > 0
    ensures Renders(Digits(n, base), n, base)
    decreases n
  {
    assert Digits(0, base) == "";
    hide Renders, Digits, Digit, DigitValue;
    var q, r := LastDigit(n, base);
    DigitIs(r);
    if q > 0 {
      DigitsRender(q, base);
      OneMore(Digits(q, base), q, Digit(r), base);
    } else {
      assert "" + [Digit(r)] == [Digit(r)];
      OneDigit(Digit(r), base);
    }
  }

  lemma NaturalRenders(n: nat, base: nat)
    requires 2 <= base <= 16
    ensures Renders(Natural(n, base), n, base)
  {
    hide Digits;
    if n > 0 {
      DigitsRender(n, base);
    } else {
      assert "0"[..0] == "" && Value("", base) == 0;
    }
  }

  // ----- atol -----

  predicate IsDigit(c: char) { '0' <= c <= '9' }

  /** The value of the digits at the start of a string, behind the value `acc` of those before. */
  function Accumulate(s: string, acc: nat): nat
  {
    if s == "" || !IsDigit(s[0]) then acc else Accumulate(s[1..], acc * 10 + (s[0] - '0') as int)
  }

  function SkipBlanks(s: string): string {
    if s != "" && (s[0] == ' ' || s[0] == '\t') then SkipBlanks(s[1..]) else s
  }

  function Atol(s: string): int {
    var t := SkipBlanks(s);
    if t != "" && t[0] == '-' then -(Accumulate(t[1..], 0) as int)
    else if t != "" && t[0] == '+' then Accumulate(t[1..], 0)
    else Accumulate(t, 0)
  }

  lemma {:induction false} AccumulateAppend(a: string, b: string, acc: nat)
    requires forall i :: 0 <= i < |a| ==> IsDigit(a[i])
    ensures Accumulate(a + b, acc) == Accumulate(b, Accumulate(a, acc))
    decreases |a|
  {
    if a == "" {
      assert a + b == b;
    } else {
      assert (a + b)[1..] == a[1..] + b;
      AccumulateAppend(a[1..], b, acc * 10 + (a[0] - '0') as int);
    }
  }

  /** Decimal digits read back. */
  lemma {:induction false} DigitsReadBack(n: nat, rest: string)
    requires rest == "" || !IsDigit(rest[0])
    ensures Accumulate(Digits(n, 10) + rest, 0) == n
    ensures forall i :: 0 <= i < |Digits(n, 10)| ==> IsDigit(Digits(n, 10)[i])
    decreases n
  {
    if n == 0 {
      assert Digits(n, 10) + rest == rest;
    } else {
      var front, c := Digits(n / 10, 10), Digit(n % 10);
      DigitsReadBack(n / 10, "");
      assert front + "" == front;
      AccumulateAppend(front, [c] + rest, 0);
      assert Digits(n, 10) + rest == front + ([c] + rest);
      assert ([c] + rest)[1..] == rest;
      assert Accumulate([c] + rest, n / 10) == Accumulate(rest, n / 10 * 10 + n % 10);
    }
  }

  lemma DigitsStart(n: nat)
    ensures n > 0 ==> Digits(n, 10) != "" && IsDigit(Digits(n, 10)[0])
  {
    DigitsReadBack(n, "");
  }

  /** atol of the rendering of a number is that number. */
  lemma AtolOfInteger(n: int)
    ensures Atol(Integer(n, 10)) == n
  {
    var m: nat := if n < 0 then -n else n;
    DigitsReadBack(m, "");
    assert Digits(m, 10) + "" == Digits(m, 10);
    DigitsStart(m);
    if n < 0 {
      assert ("-" + Natural(m, 10))[1..] == Natural(m, 10);
    } else if n == 0 {
      assert Accumulate("0", 0) == Accumulate("0"[1..], 0);
    }
  }

  // ----- fields -----

  /** Flags and width of a directive. */
  datatype Props = Props(pad: char, npad: int, alternate: bool)

  function Repeat(c: char, n: int): (s: string)
    ensures |s| == if n > 0 then n else 0
  {
    if n <= 0 then "" else seq(n, _ => c)
  }

  /**
   The text of print_str: padded on the left up to a positive width, on the right, with blanks, up to a negative one.
   */
  function Padded(s: string, props: Props): string {
    Repeat(props.pad, if props.npad > 0 then props.npad - |s| else 0) + s
    + Repeat(' ', if props.npad < 0 then -props.npad - |s| else 0)
  }

  /** A field is as wide as asked for, or as its text if that is longer, and holds the text at one end. Zeros, if they
      are asked for, go in front of the text only. */
  lemma PaddedField(s: string, props: Props)
    ensures var f, width := Padded(s, props), if props.npad < 0 then -props.npad else props.npad;
            && |f| == Max(width, |s|)
            && (if props.npad < 0 then f[..|s|] == s && forall i :: |s| <= i < |f| ==> f[i] == ' '
                else f[|f| - |s|..] == s && forall i :: 0 <= i < |f| - |s| ==> f[i] == props.pad)
  {
    var f := Padded(s, props);
    var left := Repeat(props.pad, if props.npad > 0 then props.npad - |s| else 0);
    var right := Repeat(' ', if props.npad < 0 then -props.npad - |s| else 0);
    assert f == left + s + right;
    if props.npad < 0 {
      assert left == "" && f == s + right;
    } else {
      assert right == "" && f == left + s;
    }
  }

  /** The text of print_unsigned. */
  function Unsigned(n: nat, base: nat, props: Props): string
    requires base == 10 || base == 16
  {
    if n != 0 && props.alternate && base == 16 then
      if props.pad == '0' then
        "0x" + Padded(Digits(n, base), props.(npad := if props.npad > 0 then Max(props.npad - 2, 0) else props.npad))
      else Padded("0x" + Digits(n, base), props)
    else Padded(Natural(n, base), props)
  }

  /** The prefix of the alternate form. */
  function PrefixLength(n: nat, base: nat, props: Props): nat {
    if n != 0 && props.alternate && base == 16 then 2 else 0
  }

  lemma PaddedLength(s: string, props: Props)
    ensures |Padded(s, props)| == Max(if props.npad < 0 then -props.npad else props.npad, |s|)
  {}

  /**
   A number is as wide as asked for, or as its text if that is longer, except where a prefix stands outside a
   field that is filled up on the right: with the flags for the alternate form and zero padding, and a negative
   width that is larger than the number of digits.
   */
  lemma UnsignedWidth(n: nat, base: nat, props: Props)
    requires base == 10 || base == 16
    ensures var width, digits := if props.npad < 0 then -props.npad else props.npad, |Natural(n, base)|;
            |Unsigned(n, base, props)| == Max(width, digits + PrefixLength(n, base, props)) <==>
              !(PrefixLength(n, base, props) > 0 && props.pad == '0' && props.npad < 0 && width > digits)
  {
    hide Digits, Padded;
    PaddedLength(Natural(n, base), props);
    PaddedLength("0x" + Digits(n, base), props);
    PaddedLength(Digits(n, base), props.(npad := if props.npad > 0 then Max(props.npad - 2, 0) else props.npad));
  }

  /** The prefix of the alternate form stands in front of padding zeros, but behind padding blanks. */
  lemma AlternateText(n: nat, props: Props)
    requires n > 0 && props.alternate && props.npad >= 0
    ensures var t, digits := Unsigned(n, 16, props), Natural(n, 16);
            && |t| == Max(props.npad, |digits| + 2) && t[|t| - |digits|..] == digits
            && (props.pad == '0' ==> t[..2] == "0x" && forall i :: 2 <= i < |t| - |digits| ==> t[i] == '0')
            && (props.pad == ' ' ==> t[|t| - |digits| - 2..|t| - |digits|] == "0x"
                                     && forall i :: 0 <= i < |t| - |digits| - 2 ==> t[i] == ' ')
  {
    hide Digits, Padded;
    var t, digits := Unsigned(n, 16, props), Natural(n, 16);
    if props.pad == '0' {
      var field := props.(npad := Max(props.npad - 2, 0));
      PaddedField(digits, field);
      assert t == "0x" + Padded(digits, field);
      assert t[|t| - |digits|..] == Padded(digits, field)[|Padded(digits, field)| - |digits|..];
    } else {
      PaddedField("0x" + digits, props);
      assert t[|t| - |digits| - 2..] == "0x" + digits;
      assert t[|t| - |digits|..] == t[|t| - |digits| - 2..][2..];
      assert t[|t| - |digits| - 2..|t| - |digits|] == t[|t| - |digits| - 2..][..2];
    }
  }

  function DigitCount(s: string): (n: nat)
    ensures n <= |s| && (s != "" && IsDigit(s[0]) ==> n > 0)
  {
    if s != "" && IsDigit(s[0]) then 1 + DigitCount(s[1..]) else 0
  }

  lemma TenRead(s: string)
    requires s == "10x"
    ensures Accumulate(s, 0) == 10 && DigitCount(s) == 2
  {
    assert s[1..] == "0x" && s[1..][1..] == "x";
    assert Accumulate("x", 10) == 10;
    assert Accumulate("0x", 1) == Accumulate("0x"[1..], 10);
  }

  datatype Conv =
    | Literal(c: char)
    | Nothing
    | CharOf
    | SignedOf(bits: nat)
    | UnsignedOf(bits: nat, base: nat)
    | PointerOf
    | StringOf

  /** The two's complement value of the low bits of a register. */
  function LowSigned(v: int, bits: nat): int
    requires bits == 32 || bits == 64
  {
    var m := if bits == 32 then TWO32 else TWO64;
    if v % m < m / 2 then v % m else v % m - m
  }

  function Bits(nlong: nat): nat { if nlong == 0 then 32 else 64 }

  /** The number of characters of a width: an optional minus sign and digits. */
  function WidthLength(s: string): (n: nat)
    ensures n <= |s| && (s != "" && (s[0] == '-' || IsDigit(s[0])) ==> n > 0)
  {
    if s != "" && s[0] == '-' then 1 + DigitCount(s[1..]) else DigitCount(s)
  }

  /** A directive behind its percent sign: the conversion, its flags and where the format goes on. */
  function Directive(fmt: string, i: nat, props: Props, nlong: nat): (r: (Conv, Props, nat))
    requires i <= |fmt|
    ensures i <= r.2 <= |fmt|
    decreases |fmt| - i
  {
    if i == |fmt| then (Nothing, props, i)
    else
      var c := fmt[i];
      if c == '%' then (Literal('%'), props, i + 1)
      else if c == 'c' then (CharOf, props, i + 1)
      else if c == '#' then Directive(fmt, i + 1, props.(alternate := true), nlong)
      else if c == '0' then
        Directive(fmt, i + 1 + WidthLength(fmt[i + 1..]),
          props.(pad := '0', npad := LowSigned(Atol(fmt[i + 1..]), 32)), nlong)
      else if IsDigit(c) || c == '-' then
        Directive(fmt, i + WidthLength(fmt[i..]), props.(npad := LowSigned(Atol(fmt[i..]), 32)), nlong)
      else if c == 'l' then Directive(fmt, i + 1, props, nlong + 1)
      else if c == 't' || c == 'z' then Directive(fmt, i + 1, props, 1)
      else if c == 'd' then (SignedOf(Bits(nlong)), props, i + 1)
      else if c == 'u' then (UnsignedOf(Bits(nlong), 10), props, i + 1)
      else if c == 'x' then (UnsignedOf(Bits(nlong), 16), props, i + 1)
      else if c == 'p' then (PointerOf, props.(alternate := true), i + 1)
      else if c == 's' then (StringOf, props, i + 1)
      else (Literal(c), props, i + 1)
  }

  const PLAIN := Props(' ', 0, false)

  /** "%#0-10x" of 0xab takes twelve characters. */
  lemma WidthExceeded()
    ensures Directive("%#0-10x", 1, PLAIN, 0) == (UnsignedOf(32, 16), Props('0', -10, true), 7)
    ensures |Unsigned(0xab, 16, Props('0', -10, true))| == 12
  {
    var fmt, props := "%#0-10x", Props('0', -10, true);
    assert fmt[3..] == "-10x" && fmt[3..][1..] == "10x";
    TenRead("10x");
    assert Directive(fmt, 6, props, 0) == (UnsignedOf(32, 16), props, 7);
    assert Directive(fmt, 2, PLAIN.(alternate := true), 0) == Directive(fmt, 6, props, 0);
    assert Digits(0xab, 16) == Digits(0xa, 16) + [Digit(0xb)];
    assert Digits(0xa, 16) == Digits(0, 16) + [Digit(0xa)];
    PaddedLength(Digits(0xab, 16), props);
  }

  // ----- directives -----

  /** What va_arg yields: a register or a string. */
  datatype Arg = Number(value: int) | Text(text: string)

  function LowUnsigned(v: int, bits: nat): nat
    requires bits == 32 || bits == 64
  {
    v % if bits == 32 then TWO32 else TWO64
  }

  predicate ConvOk(c: Conv) {
    (c.SignedOf? ==> c.bits == 32 || c.bits == 64)
      && (c.UnsignedOf? ==> (c.bits == 32 || c.bits == 64) && (c.base == 10 || c.base == 16))
  }

  predicate TakesArg(c: Conv) {
    !c.Literal? && !c.Nothing?
  }

  /** The register that a conversion reads; a string or a missing argument reads as zero. */
  function ValueOf(args: seq<Arg>, k: nat): int {
    if k < |args| && args[k].Number? then args[k].value else 0
  }

  function TextOf(args: seq<Arg>, k: nat): string {
    if k < |args| && args[k].Text? then args[k].text else ""
  }

  /** What a conversion renders. */
  function Render(c: Conv, props: Props, args: seq<Arg>, k: nat): string
    requires ConvOk(c)
  {
    match c
    case Literal(x) => [x]
    case Nothing => ""
    case CharOf => [(ValueOf(args, k) % 256) as char]
    case SignedOf(bits) => Padded(Integer(LowSigned(ValueOf(args, k), bits), 10), props)
    case UnsignedOf(bits, base) => Unsigned(LowUnsigned(ValueOf(args, k), bits), base, props)
    case PointerOf => Unsigned(LowUnsigned(ValueOf(args, k), 64), 16, props)
    case StringOf => Padded(TextOf(args, k), props)
  }

  lemma {:induction false} DirectiveOk(fmt: string, i: nat, props: Props, nlong: nat)
    requires i <= |fmt|
    ensures ConvOk(Directive(fmt, i, props, nlong).0)
    decreases |fmt| - i
  {
    if i < |fmt| {
      var c := fmt[i];
      if c == '#' {
        DirectiveOk(fmt, i + 1, props.(alternate := true), nlong);
      } else if c == '0' {
        DirectiveOk(fmt, i + 1 + WidthLength(fmt[i + 1..]),
          props.(pad := '0', npad := LowSigned(Atol(fmt[i + 1..]), 32)), nlong);
      } else if IsDigit(c) || c == '-' {
        DirectiveOk(fmt, i + WidthLength(fmt[i..]), props.(npad := LowSigned(Atol(fmt[i..]), 32)), nlong);
      } else if c == 'l' {
        DirectiveOk(fmt, i + 1, props, nlong + 1);
      } else if c == 't' || c == 'z' {
        DirectiveOk(fmt, i + 1, props, 1);
      }
    }
  }

  /** The full rendering of a format from position `i`, with the arguments from number `k` on. */
  function Format(fmt: string, i: nat, args: seq<Arg>, k: nat): string
    requires i <= |fmt|
    decreases |fmt| - i
  {
    if i == |fmt| then ""
    else if fmt[i] != '%' then [fmt[i]] + Format(fmt, i + 1, args, k)
    else
      var (c, props, next) := Directive(fmt, i + 1, PLAIN, 0);
      DirectiveOk(fmt, i + 1, PLAIN, 0);
      Render(c, props, args, k) + Format(fmt, next, args, if TakesArg(c) then k + 1 else k)
  }

  /** No directive asks for the most negative number, whose sign print_int cannot change. */
  ghost predicate Negatable(fmt: string, i: nat, args: seq<Arg>, k: nat)
    requires i <= |fmt|
    decreases |fmt| - i
  {
    if i == |fmt| then true
    else if fmt[i] != '%' then Negatable(fmt, i + 1, args, k)
    else
      var (c, _, next) := Directive(fmt, i + 1, PLAIN, 0);
      DirectiveOk(fmt, i + 1, PLAIN, 0);
      && (c.SignedOf? ==> LowSigned(ValueOf(args, k), c.bits) > -TWO63)
      && Negatable(fmt, next, args, if TakesArg(c) then k + 1 else k)
  }

  // ----- a number and its rendering -----

  lemma Unpadded(s: string)
    ensures Padded(s, PLAIN) == s
  {}

  /** A format that is one directive. */
  lemma FormatOne(fmt: string, c: Conv, props: Props, arg: Arg)
    requires fmt != "" && fmt[0] == '%' && Directive(fmt, 1, PLAIN, 0) == (c, props, |fmt|) && ConvOk(c)
    ensures Format(fmt, 0, [arg], 0) == Render(c, props, [arg], 0)
  {
    hide Directive, Render;
    assert forall k: nat :: Format(fmt, |fmt|, [arg], k) == "";
  }

  /** Text without a percent sign is rendered as it is. */
  lemma {:induction false} FormatPlain(fmt: string, i: nat, args: seq<Arg>, k: nat)
    requires i <= |fmt| && '%' !in fmt
    ensures Format(fmt, i, args, k) == fmt[i..]
    decreases |fmt| - i
  {
    if i < |fmt| {
      FormatPlain(fmt, i + 1, args, k);
    }
  }

  lemma FormatNext(fmt: string, i: nat, args: seq<Arg>, k: nat, c: Conv, props: Props, next: nat)
    requires i < |fmt| && fmt[i] == '%' && Directive(fmt, i + 1, PLAIN, 0) == (c, props, next) && ConvOk(c)
    ensures next <= |fmt|
    ensures Format(fmt, i, args, k) ==
              Render(c, props, args, k) + Format(fmt, next, args, if TakesArg(c) then k + 1 else k)
  {
    hide Directive, Render;
  }

  lemma ThreeDirectives()
    ensures var fmt := "%s%%%s";
            && Directive(fmt, 1, PLAIN, 0) == (StringOf, PLAIN, 2)
            && Directive(fmt, 3, PLAIN, 0) == (Literal('%'), PLAIN, 4)
            && Directive(fmt, 5, PLAIN, 0) == (StringOf, PLAIN, 6)
  {}

  /** Conversions take their arguments in order, and "%%" takes none. */
  lemma FormatInOrder(a: string, b: string)
    ensures Format("%s%%%s", 0, [Text(a), Text(b)], 0) == a + "%" + b
  {
    var fmt, args := "%s%%%s", [Text(a), Text(b)];
    ThreeDirectives();
    assert Format(fmt, 6, args, 2) == "";
    hide Format, Directive, Padded;
    FormatNext(fmt, 0, args, 0, StringOf, PLAIN, 2);
    FormatNext(fmt, 2, args, 1, Literal('%'), PLAIN, 4);
    FormatNext(fmt, 4, args, 1, StringOf, PLAIN, 6);
    Unpadded(a);
    Unpadded(b);
    assert a + ("%" + (b + "")) == a + "%" + b;
  }

  lemma WideDirective()
    ensures Directive("%10x", 1, PLAIN, 0) == (UnsignedOf(32, 16), Props(' ', 10, false), 4)
    ensures Directive("%010x", 1, PLAIN, 0) == (UnsignedOf(32, 16), Props('0', 10, false), 5)
    ensures Directive("%zu", 1, PLAIN, 0) == (UnsignedOf(64, 10), PLAIN, 3)
  {
    TenRead("10x");
    assert "%10x"[1..] == "10x" && "%010x"[2..] == "10x";
    assert Directive("%10x", 3, Props(' ', 10, false), 0) == (UnsignedOf(32, 16), Props(' ', 10, false), 4);
    assert Directive("%010x", 4, Props('0', 10, false), 0) == (UnsignedOf(32, 16), Props('0', 10, false), 5);
    assert Directive("%zu", 2, PLAIN, 1) == (UnsignedOf(64, 10), PLAIN, 3);
  }

  /** A width fills the field up in front of the number, with blanks or with zeros. */
  lemma FormatWide(n: int)
    ensures Format("%10x", 0, [Number(n)], 0) == Padded(Natural(n % TWO32, 16), Props(' ', 10, false))
    ensures Format("%010x", 0, [Number(n)], 0) == Padded(Natural(n % TWO32, 16), Props('0', 10, false))
    ensures Renders(Format("%zu", 0, [Number(n)], 0), n % TWO64, 10)
  {
    hide Natural, Format, Padded, Directive;
    WideDirective();
    FormatOne("%10x", UnsignedOf(32, 16), Props(' ', 10, false), Number(n));
    FormatOne("%010x", UnsignedOf(32, 16), Props('0', 10, false), Number(n));
    FormatOne("%zu", UnsignedOf(64, 10), PLAIN, Number(n));
    NaturalRenders(n % TWO64, 10);
    Unpadded(Natural(n % TWO64, 10));
  }

  /** What the conversions without flags and width give. */
  lemma FormatNumber(n: int)
    ensures Renders(Format("%u", 0, [Number(n)], 0), n % TWO32, 10)
    ensures Renders(Format("%x", 0, [Number(n)], 0), n % TWO32, 16)
    ensures Format("%c", 0, [Number(n)], 0) == [(n % 256) as char]
  {
    hide Natural, Format;
    FormatOne("%u", UnsignedOf(32, 10), PLAIN, Number(n));
    FormatOne("%x", UnsignedOf(32, 16), PLAIN, Number(n));
    FormatOne("%c", CharOf, PLAIN, Number(n));
    hide Directive;
    NaturalRenders(n % TWO32, 10);
    NaturalRenders(n % TWO32, 16);
    Unpadded(Natural(n % TWO32, 10));
    Unpadded(Natural(n % TWO32, 16));
  }

  lemma LongHex()
    ensures Directive("%lx", 1, PLAIN, 0) == (UnsignedOf(64, 16), PLAIN, 3)
  {
    assert Directive("%lx", 2, PLAIN, 1) == (UnsignedOf(64, 16), PLAIN, 3);
  }

  lemma PrefixedPlain(n: nat)
    requires n > 0
    ensures Unsigned(n, 16, PLAIN.(alternate := true)) == "0x" + Natural(n, 16)
  {
    hide Digits;
  }

  lemma LowSigned32(n: int)
    requires -TWO31 <= n < TWO31
    ensures LowSigned(n, 32) == n
  {
    if n < 0 {
      DivIs(n, -1, TWO32);
    }
  }

  /** "%d" renders a 32-bit number without padding. */
  lemma FormatInt(n: int)
    requires -TWO31 <= n < TWO31
    ensures Format("%d", 0, [Number(n)], 0) == Integer(n, 10)
  {
    FormatOne("%d", SignedOf(32), PLAIN, Number(n));
    hide Format, Directive, Integer;
    LowSigned32(n);
    Unpadded(Integer(n, 10));
  }

  /** The conversions of a whole register: "%p" is "%lx" with a prefix. */
  lemma FormatRegister(n: int)
    requires n % TWO64 != 0
    ensures Renders(Format("%lx", 0, [Number(n)], 0), n % TWO64, 16)
    ensures Format("%p", 0, [Number(n)], 0) == "0x" + Format("%lx", 0, [Number(n)], 0)
  {
    hide Natural, Format, Padded, Digits;
    LongHex();
    FormatOne("%lx", UnsignedOf(64, 16), PLAIN, Number(n));
    FormatOne("%p", PointerOf, PLAIN.(alternate := true), Number(n));
    hide Directive;
    NaturalRenders(n % TWO64, 16);
    Unpadded(Natural(n % TWO64, 16));
    PrefixedPlain(n % TWO64);
  }

  lemma FormatText(s: string)
    ensures Format("%s", 0, [Text(s)], 0) == s
  {
    FormatOne("%s", StringOf, PLAIN, Text(s));
    hide Format;
    Unpadded(s);
  }

  lemma LongDirective()
    ensures Directive("%ld", 1, PLAIN, 0) == (SignedOf(64), PLAIN, 3)
  {
    assert Directive("%ld", 2, PLAIN, 1) == (SignedOf(64), PLAIN, 3);
  }

  lemma LowSignedIs(n: int)
    requires -TWO63 <= n < TWO63
    ensures LowSigned(n, 64) == n
  {
    if n < 0 {
      DivIs(n, -1, TWO64);
    }
  }

  /** "%ld" renders the number without padding. */
  lemma FormatLong(n: int)
    requires -TWO63 < n < TWO63
    ensures Format("%ld", 0, [Number(n)], 0) == Integer(n, 10) && Negatable("%ld", 0, [Number(n)], 0)
  {
    hide Directive, Integer;
    LongDirective();
    LowSignedIs(n);
    assert Negatable("%ld", 3, [Number(n)], 1);
    FormatOne("%ld", SignedOf(64), PLAIN, Number(n));
    Unpadded(Integer(n, 10));
  }
}
