/**
 The structure block of a flattened device tree, as bytes and as tokens
 (chapter 5 of the Devicetree Specification; lib/libfdt/fdt.c, lib/libfdt/fdt.h).
 */
module FdtFormat {
  import opened Words
  import opened Memory

  const FDT_BEGIN_NODE: nat := 1
  const FDT_END_NODE: nat := 2
  const FDT_PROP: nat := 3
  const FDT_NOP: nat := 4
  const FDT_END: nat := 9
  const FDT_ERR_NOTFOUND: int := 1
  const FDT_ERR_EXISTS: int := 2
  const FDT_ERR_NOSPACE: int := 3
  const FDT_ERR_BADOFFSET: int := 4
  const FDT_ERR_BADSTATE: int := 7
  const FDT_ERR_TRUNCATED: int := 8
  const FDT_ERR_BADMAGIC: int := 9
  const FDT_ERR_BADVERSION: int := 10
  const FDT_ERR_BADSTRUCTURE: int := 11
  const FDT_ERR_BADLAYOUT: int := 12
  const FDT_ERR_INTERNAL: int := 13

  // ----- words -----

  /** FDT_TAGALIGN: rounds up to a multiple of four. */
  function TagAlign(n: nat): (r: nat)
    ensures r % 4 == 0 && n <= r < n + 4
    ensures n % 4 == 0 ==> r == n
  {
    (n + 3) / 4 * 4
  }

  lemma TagAlignAdd(a: nat, n: nat)
    requires a % 4 == 0
    ensures TagAlign(a + n) == a + TagAlign(n)
  {}

  /** cpu_to_fdt32: four bytes, most significant first. */
  function Be32(n: nat): (s: seq<byte>)
    requires n < TWO32
    ensures |s| == 4
  {
    [n / 256 / 256 / 256, n / 256 / 256 % 256, n / 256 % 256, n % 256]
  }

  /** fdt32_to_cpu of the four bytes at `off`. */
  function Word32(s: seq<byte>, off: nat): (w: nat)
    requires off + 4 <= |s|
    ensures w < TWO32
  {
    var b0: int, b1: int, b2: int, b3: int := s[off], s[off + 1], s[off + 2], s[off + 3];
    ((b0 * 256 + b1) * 256 + b2) * 256 + b3
  }

  lemma WordOfBe32(n: nat, s: seq<byte>, off: nat)
    requires n < TWO32 && off + 4 <= |s| && s[off..off + 4] == Be32(n)
    ensures Word32(s, off) == n
  {
    var b := s[off..off + 4];
    assert s[off] == b[0] && s[off + 1] == b[1] && s[off + 2] == b[2] && s[off + 3] == b[3];
  }

  // ----- reading a tag -----

  /** The bounds test of fdt_offset_ptr, in 32-bit unsigned arithmetic. */
  predicate OffsetPtrOk(size: nat, off: int, len: nat)
    requires size < TWO31 && -TWO31 <= off < TWO31 && len < TWO32
    ensures OffsetPtrOk(size, off, len) <==> 0 <= off && off + len <= size
  {
    var u := off % TWO32;
    var sum := (u + len) % TWO32;
    !(sum < u) && !(sum > size)
  }

  /** The offset after the next zero byte, or -1 if the block ends first. */
  function SkipName(s: seq<byte>, off: nat): (r: int)
    ensures r == -1 || off < r <= |s|
    decreases |s| - off
  {
    if off >= |s| then -1 else if s[off] == 0 then off + 1 else SkipName(s, off + 1)
  }

  function ToInt32(n: int): (r: int)
    ensures -TWO31 <= r < TWO31
  {
    if n % TWO32 < TWO31 then n % TWO32 else n % TWO32 - TWO32
  }

  /** A length keeps its value as a C int if and only if it is below 2^31. */
  lemma IntExact(n: nat)
    ensures ToInt32(n) == n <==> n < TWO31
    ensures TWO31 <= n < TWO32 ==> ToInt32(n) < 0
  {}

  /** Where the token of tag `tag` at `start` ends, before alignment, as fdt_next_tag computes it;
      none if the token is malformed. */
  function TokenEnd(s: seq<byte>, start: nat, tag: nat): (r: int)
    requires |s| < TWO31 && start + 4 <= |s|
    ensures -TWO31 <= r < TWO31
  {
    if tag == FDT_BEGIN_NODE then SkipName(s, start + 4)
    else if tag == FDT_PROP then
      if OffsetPtrOk(|s|, start + 4, 4) then ToInt32(start + 4 + 8 + Word32(s, start + 4)) else -1
    else if tag == FDT_END || tag == FDT_END_NODE || tag == FDT_NOP then start + 4
    else -1
  }

  /** fdt_next_tag: the tag at `start` and the offset of the next, or FDT_END and a negative error. */
  function NextTag(s: seq<byte>, start: int): (r: (nat, int))
    requires |s| < TWO31 - 4 && -TWO31 <= start < TWO31
  {
    if !OffsetPtrOk(|s|, start, 4) then (FDT_END, -FDT_ERR_TRUNCATED)
    else
      var tag := Word32(s, start);
      var end := TokenEnd(s, start, tag);
      if end == -1 || !OffsetPtrOk(|s|, start, (end - start) % TWO32) then (FDT_END, -FDT_ERR_BADSTRUCTURE)
      else (tag, TagAlign(end))
  }

  // ----- tokens -----

  /** The tokens of a structure block, with the bytes that pad them. */
  datatype Token =
    | BeginNode(name: seq<byte>, namePad: seq<byte>)
    | EndNode
    | Prop(nameoff: nat, value: seq<byte>, pad: seq<byte>)
    | Nop
    | End

  function Tag(t: Token): nat {
    match t
    case BeginNode(_, _) => FDT_BEGIN_NODE
    case EndNode => FDT_END_NODE
    case Prop(_, _, _) => FDT_PROP
    case Nop => FDT_NOP
    case End => FDT_END
  }

  lemma TagOf(t: Token)
    ensures Tag(t) == FDT_BEGIN_NODE <==> t.BeginNode?
    ensures Tag(t) == FDT_END_NODE <==> t.EndNode?
    ensures Tag(t) == FDT_PROP <==> t.Prop?
    ensures Tag(t) == FDT_NOP <==> t.Nop?
    ensures Tag(t) == FDT_END <==> t.End?
  {}

  predicate TokenOk(t: Token) {
    match t
    case BeginNode(name, pad) => 0 !in name && |pad| == TagAlign(|name| + 1) - (|name| + 1)
    case Prop(nameoff, value, pad) => nameoff < TWO32 && |value| < TWO31 && |pad| == TagAlign(|value|) - |value|
    case _ => true
  }

  function Encode(t: Token): (s: seq<byte>)
    requires TokenOk(t)
    ensures |s| % 4 == 0 && |s| >= 4
  {
    match t
    case BeginNode(name, pad) => Be32(FDT_BEGIN_NODE) + name + [0] + pad
    case Prop(nameoff, value, pad) => Be32(FDT_PROP) + Be32(|value|) + Be32(nameoff) + value + pad
    case _ => Be32(Tag(t))
  }

  predicate AllOk(ts: seq<Token>) { forall i :: 0 <= i < |ts| ==> TokenOk(ts[i]) }

  function EncodeAll(ts: seq<Token>): (s: seq<byte>)
    requires AllOk(ts)
  {
    if ts == [] then [] else Encode(ts[0]) + EncodeAll(ts[1..])
  }

  /** The bytes of tokens, word by word, most significant byte first. */
  lemma TokenBytes()
    ensures Be32(0x0102_0304) == [1, 2, 3, 4] && Word32([1, 2, 3, 4], 0) == 0x0102_0304
    ensures TokenOk(BeginNode([0x61], [0, 0])) && Encode(BeginNode([0x61], [0, 0])) == [0, 0, 0, 1, 0x61, 0, 0, 0]
    ensures TokenOk(Nop) && Encode(Nop) == [0, 0, 0, 4]
    ensures TokenOk(EndNode) && Encode(EndNode) == [0, 0, 0, 2]
    ensures TokenOk(End) && Encode(End) == [0, 0, 0, 9]
  {}

  /** Tag, length and name offset of a property stand in front of its value. */
  lemma PropertyTokenBytes()
    ensures var t := Prop(0x102, [7, 8], [0, 0]);
            TokenOk(t) && Encode(t) == [0, 0, 0, 3] + [0, 0, 0, 2] + [0, 0, 1, 2] + [7, 8, 0, 0]
  {
    assert Be32(3) == [0, 0, 0, 3] && Be32(2) == [0, 0, 0, 2] && Be32(0x102) == [0, 0, 1, 2];
    hide Be32;
  }

  lemma EncodeCons(t: Token, ts: seq<Token>)
    requires TokenOk(t) && AllOk(ts)
    ensures AllOk([t] + ts) && EncodeAll([t] + ts) == Encode(t) + EncodeAll(ts)
  {
    hide TokenOk, Encode;
    assert ([t] + ts)[1..] == ts;
  }

  /** The structure block of a node "a" with one property. */
  lemma SmallTreeBytes()
    ensures var ts := [BeginNode([0x61], [0, 0])] + ([Prop(0x102, [7, 8], [0, 0])] + ([EndNode] + ([End] + [])));
            && AllOk(ts)
            && EncodeAll(ts) == [0, 0, 0, 1, 0x61, 0, 0, 0] + ([0, 0, 0, 3] + [0, 0, 0, 2] + [0, 0, 1, 2] + [7, 8, 0, 0]
                                + ([0, 0, 0, 2] + ([0, 0, 0, 9] + [])))
  {
    TokenBytes();
    PropertyTokenBytes();
    hide Encode, TokenOk;
    EncodeCons(End, []);
    EncodeCons(EndNode, [End] + []);
    EncodeCons(Prop(0x102, [7, 8], [0, 0]), [EndNode] + ([End] + []));
    EncodeCons(BeginNode([0x61], [0, 0]), [Prop(0x102, [7, 8], [0, 0])] + ([EndNode] + ([End] + [])));
  }

  lemma {:induction false} EncodeAligned(ts: seq<Token>)
    requires AllOk(ts)
    ensures |EncodeAll(ts)| % 4 == 0
  {
    hide TokenOk, Encode;
    if ts != [] {
      EncodeAligned(ts[1..]);
    }
  }

  lemma {:induction false} EncodeConcat(a: seq<Token>, b: seq<Token>)
    requires AllOk(a) && AllOk(b)
    ensures AllOk(a + b) && EncodeAll(a + b) == EncodeAll(a) + EncodeAll(b)
  {
    hide TokenOk, Encode;
    if a == [] {
      assert a + b == b;
    } else {
      EncodeConcat(a[1..], b);
      assert (a + b)[1..] == a[1..] + b;
    }
  }

  lemma EncodeOne(t: Token)
    requires TokenOk(t)
    ensures EncodeAll([t]) == Encode(t)
  {}

  /** Token `i` of a block is preceded and followed by the others. */
  lemma EncodeAround(ts: seq<Token>, i: nat)
    requires AllOk(ts) && i < |ts|
    ensures EncodeAll(ts) == EncodeAll(ts[..i]) + Encode(ts[i]) + EncodeAll(ts[i + 1..])
  {
    hide TokenOk, Encode;
    var front, rest := ts[..i], ts[i..];
    assert ts == front + rest && rest[0] == ts[i] && rest[1..] == ts[i + 1..];
    EncodeConcat(front, rest);
    assert EncodeAll(rest) == Encode(ts[i]) + EncodeAll(ts[i + 1..]);
  }

  lemma EncodeReplace(ts: seq<Token>, i: nat, t: Token)
    requires AllOk(ts) && i < |ts| && TokenOk(t)
    ensures AllOk(ts[i := t])
    ensures EncodeAll(ts[i := t]) == EncodeAll(ts[..i]) + Encode(t) + EncodeAll(ts[i + 1..])
  {
    hide TokenOk, Encode, EncodeAll;
    var ts' := ts[i := t];
    assert AllOk(ts');
    EncodeAround(ts', i);
    assert ts'[..i] == ts[..i] && ts'[i + 1..] == ts[i + 1..];
  }

  /** The offset of token `i`. */
  function Offset(ts: seq<Token>, i: nat): (o: nat)
    requires AllOk(ts) && i <= |ts|
    ensures o % 4 == 0
  {
    EncodeAligned(ts[..i]);
    |EncodeAll(ts[..i])|
  }

  lemma OffsetStep(ts: seq<Token>, i: nat)
    requires AllOk(ts) && i < |ts|
    ensures Offset(ts, i + 1) == Offset(ts, i) + |Encode(ts[i])| <= |EncodeAll(ts)|
  {
    hide TokenOk, Encode;
    EncodeConcat(ts[..i], [ts[i]]);
    EncodeOne(ts[i]);
    assert ts[..i + 1] == ts[..i] + [ts[i]];
    EncodeAround(ts, i);
  }

  lemma {:induction false} OffsetMono(ts: seq<Token>, i: nat, j: nat)
    requires AllOk(ts) && i <= j <= |ts|
    ensures Offset(ts, i) + 4 * (j - i) <= Offset(ts, j) <= |EncodeAll(ts)|
    decreases j - i
  {
    hide TokenOk, Encode;
    if i < j {
      OffsetStep(ts, i);
      OffsetMono(ts, i + 1, j);
    } else {
      EncodeConcat(ts[..i], ts[i..]);
      assert ts == ts[..i] + ts[i..];
    }
  }

  lemma OffsetEnds(ts: seq<Token>)
    requires AllOk(ts)
    ensures Offset(ts, 0) == 0 && Offset(ts, |ts|) == |EncodeAll(ts)|
  {
    hide TokenOk, Encode;
    assert ts[..|ts|] == ts;
  }

  // ----- fdt_next_tag undoes the encoding -----

  lemma SkipNameOf(s: seq<byte>, off: nat, name: seq<byte>)
    requires 0 !in name && off + |name| < |s|
    requires s[off..off + |name| + 1] == name + [0]
    ensures SkipName(s, off) == off + |name| + 1
    decreases |name|
  {
    assert s[off] == s[off..off + |name| + 1][0] == (name + [0])[0];
    if name != [] {
      assert name[0] in name;
      assert s[off + 1..off + 1 + |name[1..]| + 1] == s[off..off + |name| + 1][1..] == name[1..] + [0];
      SkipNameOf(s, off + 1, name[1..]);
    }
  }

  lemma Within(s: seq<byte>, o: nat, c: seq<byte>, i: nat, j: nat)
    requires o + |c| <= |s| && s[o..o + |c|] == c && i <= j <= |c|
    ensures s[o + i..o + j] == c[i..j]
  {
    forall k | 0 <= k < j - i
      ensures s[o + i..o + j][k] == c[i..j][k]
    {
      assert s[o..o + |c|][i + k] == c[i + k];
    }
  }

  /** The parts of an encoded token. */
  lemma EncodeParts(t: Token)
    requires TokenOk(t)
    ensures Encode(t)[..4] == Be32(Tag(t))
    ensures t.BeginNode? ==>
              && |Encode(t)| == 4 + TagAlign(|t.name| + 1)
              && Encode(t)[4..4 + |t.name| + 1] == t.name + [0]
              && Encode(t)[4 + |t.name| + 1..] == t.namePad
    ensures t.Prop? ==>
              && |Encode(t)| == 12 + TagAlign(|t.value|)
              && Encode(t)[4..8] == Be32(|t.value|) && Encode(t)[8..12] == Be32(t.nameoff)
              && Encode(t)[12..12 + |t.value|] == t.value && Encode(t)[12 + |t.value|..] == t.pad
    ensures !t.BeginNode? && !t.Prop? ==> |Encode(t)| == 4
  {
    hide Be32;
  }

  lemma NextTagIs(s: seq<byte>, o: nat, tag: nat, end: nat)
    requires |s| < TWO31 - 4 && o + 4 <= |s| && Word32(s, o) == tag
    requires TokenEnd(s, o, tag) == end && o + 4 <= end <= |s|
    ensures NextTag(s, o) == (tag, TagAlign(end))
  {
    hide Word32, SkipName, TokenEnd;
  }

  lemma NextTagOfBegin(s: seq<byte>, o: nat, t: Token)
    requires t.BeginNode? && TokenOk(t) && o % 4 == 0 && |s| < TWO31 - 4
    requires o + |Encode(t)| <= |s| && s[o..o + |Encode(t)|] == Encode(t) && Word32(s, o) == FDT_BEGIN_NODE
    ensures NextTag(s, o) == (FDT_BEGIN_NODE, o + |Encode(t)|)
  {
    hide Be32, Word32, SkipName, Encode, NextTag, TagAlign;
    var c, n := Encode(t), |t.name|;
    EncodeParts(t);
    Within(s, o, c, 4, 4 + n + 1);
    SkipNameOf(s, o + 4, t.name);
    NextTagIs(s, o, FDT_BEGIN_NODE, o + 4 + n + 1);
    TagAlignAdd(o + 4, n + 1);
  }

  lemma NextTagOfProp(s: seq<byte>, o: nat, t: Token)
    requires t.Prop? && TokenOk(t) && o % 4 == 0 && |s| < TWO31 - 4
    requires o + |Encode(t)| <= |s| && s[o..o + |Encode(t)|] == Encode(t) && Word32(s, o) == FDT_PROP
    ensures NextTag(s, o) == (FDT_PROP, o + |Encode(t)|)
  {
    hide Be32, Word32, SkipName, Encode, NextTag, TagAlign;
    EncodeParts(t);
    Within(s, o, Encode(t), 4, 8);
    WordOfBe32(|t.value|, s, o + 4);
    NextTagIs(s, o, FDT_PROP, o + 12 + |t.value|);
    TagAlignAdd(o + 12, |t.value|);
  }

  lemma NextTagOfToken(s: seq<byte>, o: nat, t: Token)
    requires TokenOk(t) && o % 4 == 0 && |s| < TWO31 - 4
    requires o + |Encode(t)| <= |s| && s[o..o + |Encode(t)|] == Encode(t)
    ensures NextTag(s, o) == (Tag(t), o + |Encode(t)|)
  {
    hide Be32, Word32, SkipName, Encode, NextTag, TokenOk;
    EncodeParts(t);
    Within(s, o, Encode(t), 0, 4);
    WordOfBe32(Tag(t), s, o);
    if t.BeginNode? {
      NextTagOfBegin(s, o, t);
    } else if t.Prop? {
      NextTagOfProp(s, o, t);
    } else {
      NextTagIs(s, o, Tag(t), o + 4);
    }
  }

  /** Reading at the offset of token `i` gives its tag and the offset of token `i + 1`. */
  lemma NextTagAt(ts: seq<Token>, i: nat)
    requires AllOk(ts) && i < |ts| && |EncodeAll(ts)| < TWO31 - 4
    ensures Offset(ts, i) < TWO31
    ensures NextTag(EncodeAll(ts), Offset(ts, i)) == (Tag(ts[i]), Offset(ts, i + 1))
  {
    hide TokenOk, Encode, NextTag;
    EncodeAround(ts, i);
    OffsetStep(ts, i);
    NextTagOfToken(EncodeAll(ts), Offset(ts, i), ts[i]);
  }
}
