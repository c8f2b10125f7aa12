/**
 Reading a finished blob: property lookup (lib/libfdt/fdt_ro.c).
 */
module FdtRo {
  import opened Words
  import opened Memory
  import opened FdtFormat
  import opened FdtBlob
  import opened FdtSwSpec
  import opened FdtTokens

  /** A finished blob: its structure block holds `ts`, which ends once, and every name can be read. */
  ghost predicate Readable(m: seq<byte>, h: Header, ts: seq<Token>) {
    && h.magic == FDT_MAGIC && Parsed(m, h, ts) && StringsFit(|m|, h) && EndsOnce(ts) && NamesOk(ts, Strings(m, h))
  }

  /** fdt_check_header. */
  function CheckHeader(h: Header): (r: int)
    ensures r == 0 <==> (h.magic == FDT_MAGIC && 16 <= h.version && h.lastCompVersion <= 17)
                        || (h.magic == FDT_SW_MAGIC && h.sizeStruct != 0)
  {
    if h.magic == FDT_MAGIC then
      if h.version < 16 || h.lastCompVersion > 17 then -FDT_ERR_BADVERSION else 0
    else if h.magic == FDT_SW_MAGIC then
      if h.sizeStruct == 0 then -FDT_ERR_BADSTATE else 0
    else -FDT_ERR_BADMAGIC
  }

  // ----- names as C ints -----

  /** The name that a lookup by `name` looks for: its length is an int. A negative one is the length of no name. */
  function Sought(name: seq<byte>): seq<byte> {
    var n := ToInt32(|name|);
    if 0 <= n <= |name| then name[..n] else name
  }

  /** A lookup looks for the name it is given if and only if the low 32 bits of the length are it, or are no length. */
  lemma SoughtExact(name: seq<byte>)
    ensures Sought(name) == name <==> |name| < TWO31 || |name| % TWO32 >= TWO31
    ensures |name| >= TWO31 && |name| % TWO32 < TWO31 ==> Sought(name) == name[..|name| % TWO32]
  {}

  /** A lookup by 2^32 + 1 letters looks for one letter. */
  lemma NameSoughtCut()
    ensures var name: seq<byte> := seq(TWO32 + 1, _ => 0x61); Sought(name) == [0x61]
  {
    SoughtExact(seq(TWO32 + 1, _ => 0x61));
  }

  /** The length and name offset stored for property `i`. */
  lemma PropWords(m: seq<byte>, h: Header, ts: seq<Token>, i: nat)
    requires Parsed(m, h, ts) && i < |ts| && ts[i].Prop?
    ensures Offset(ts, i) + 12 + TagAlign(|ts[i].value|) == Offset(ts, i + 1) <= h.sizeStruct
    ensures Word32(m, h.offStruct + (Offset(ts, i) + 4)) == |ts[i].value|
    ensures Word32(m, h.offStruct + (Offset(ts, i) + 8)) == ts[i].nameoff
    ensures m[h.offStruct + (Offset(ts, i) + 12)..h.offStruct + (Offset(ts, i) + 12 + |ts[i].value|)] == ts[i].value
  {
    hide Be32, Word32, Encode, EncodeAll, Offset, TagAlign;
    var s, o, c, t := Struct(m, h), Offset(ts, i), Encode(ts[i]), ts[i];
    EncodeAt(ts, i);
    OffsetStep(ts, i);
    EncodeParts(t);
    Within(s, o, c, 4, 8);
    WordOfBe32(|t.value|, s, o + 4);
    WordSlice(m, h.offStruct, h.offStruct + h.sizeStruct, o + 4);
    Within(s, o, c, 8, 12);
    WordOfBe32(t.nameoff, s, o + 8);
    WordSlice(m, h.offStruct, h.offStruct + h.sizeStruct, o + 8);
    Within(s, o, c, 12, 12 + |t.value|);
    SliceSlice(m, h.offStruct, h.offStruct + h.sizeStruct, o + 12, o + 12 + |t.value|);
  }

  lemma SoughtLength(name: seq<byte>)
    ensures var n := ToInt32(|name|);
            if 0 <= n then n <= |name| && Sought(name) == name[..n] else |name| >= TWO31 && Sought(name) == name
  {}

  /** _fdt_string_eq: is the string at `stroffset` of the strings block the first `len` bytes of `s`? */
  method StringEq(fdt: Blob, stroffset: nat, s: seq<byte>, len: int) returns (eq: bool)
    requires StringsFit(fdt.buf.Length, fdt.h) && fdt.buf.Length < TWO31 && len == ToInt32(|s|)
    requires var strings := Strings(fdt.buf[..], fdt.h); IsCString(strings, stroffset, StringAt(strings, stroffset))
    ensures eq <==> StringAt(Strings(fdt.buf[..], fdt.h), stroffset) == Sought(s)
  {
    SoughtLength(s);
    hide Sought, ToInt32;
    ghost var strings := Strings(fdt.buf[..], fdt.h);
    ghost var str := StringAt(strings, stroffset);
    hide StringAt;
    var p := fdt.h.offStrings + stroffset;
    SliceSlice(fdt.buf[..], fdt.h.offStrings, fdt.h.offStrings + fdt.h.sizeStrings, stroffset, stroffset + |str| + 1);
    assert fdt.buf[p..p + |str| + 1] == str + [0];
    assert forall j :: 0 <= j < |str| ==> str[j] in str;
    var n := 0;
    while fdt.buf[p + n] != 0
      invariant 0 <= n <= |str|
      decreases |str| - n
    {
      assert fdt.buf[p + n] == (str + [0])[n];
      n := n + 1;
    }
    assert fdt.buf[p + n] == (str + [0])[n];
    if n != len {
      return false;
    }
    var diff := MemCmp(fdt.buf, p, s[..len]);
    eq := diff == 0;
    assert fdt.buf[p..p + len] == fdt.buf[p..p + |str| + 1][..|str|] == str;
  }

  /** Token `e` is the first at or behind token `k` that is no NOP. */
  predicate FirstOther(ts: seq<Token>, k: nat, e: nat) {
    k <= e < |ts| && !ts[e].Nop? && forall j :: k <= j < e ==> ts[j].Nop?
  }

  /** _nextprop at the first token that is no NOP: a property is its result, all else an error. */
  ghost predicate NextIs(ts: seq<Token>, e: nat, r: int)
    requires AllOk(ts) && e < |ts|
  {
    match ts[e]
    case Prop(_, _, _) => r == Offset(ts, e)
    case End => r == -FDT_ERR_BADSTRUCTURE
    case _ => r == -FDT_ERR_NOTFOUND
  }

  lemma {:induction false} NextPropIs(ts: seq<Token>, k: nat, e: nat)
    requires FirstOther(ts, k, e)
    ensures NextProp(ts, k) == if ts[e].Prop? then At(e)
                               else Error(if ts[e].End? then -FDT_ERR_BADSTRUCTURE else -FDT_ERR_NOTFOUND)
    decreases e - k
  {
    if k < e {
      NextPropIs(ts, k + 1, e);
    }
  }

  /** _nextprop. */
  method NextPropOffset(fdt: Blob, offset: int, ghost k: nat) returns (r: int)
    requires Parsed(fdt.buf[..], fdt.h, fdt.tokens) && EndsOnce(fdt.tokens)
    requires k < |fdt.tokens| && offset == Offset(fdt.tokens, k)
    ensures var p := NextProp(fdt.tokens, k); r == if p.At? then Offset(fdt.tokens, p.i) else p.code
    ensures forall e: nat :: FirstOther(fdt.tokens, k, e) ==> NextIs(fdt.tokens, e, r)
  {
    hide EncodeAll, AllOk, Struct, Offset, Tag;
    forall e: nat | FirstOther(fdt.tokens, k, e) {
      NextPropIs(fdt.tokens, k, e);
    }
    ghost var i := k;
    var o := offset;
    while true
      invariant k <= i < |fdt.tokens| && o == Offset(fdt.tokens, i)
      invariant NextProp(fdt.tokens, k) == NextProp(fdt.tokens, i)
      decreases |fdt.tokens| - i
    {
      var tag, nextoffset := NextToken(fdt, o, i);
      TagOf(fdt.tokens[i]);
      if tag == FDT_END {
        return if nextoffset >= 0 then -FDT_ERR_BADSTRUCTURE else nextoffset;
      }
      if tag == FDT_PROP {
        return o;
      }
      o := nextoffset;
      i := i + 1;
      if tag != FDT_NOP {
        return -FDT_ERR_NOTFOUND;
      }
    }
  }

  /** _fdt_check_node_offset, at a token. */
  method CheckNodeOffset(fdt: Blob, offset: int, ghost i: nat) returns (r: int)
    requires Parsed(fdt.buf[..], fdt.h, fdt.tokens) && i < |fdt.tokens| && offset == Offset(fdt.tokens, i)
    ensures r == if fdt.tokens[i].BeginNode? then Offset(fdt.tokens, i + 1) else -FDT_ERR_BADOFFSET
  {
    hide EncodeAll, AllOk, Struct, Offset, Tag;
    TagOf(fdt.tokens[i]);
    if offset < 0 || offset % 4 != 0 {
      return -FDT_ERR_BADOFFSET;
    }
    var tag, nextoffset := NextToken(fdt, offset, i);
    r := if tag != FDT_BEGIN_NODE then -FDT_ERR_BADOFFSET else nextoffset;
  }

  /** fdt_next_property_offset, at a property. */
  method NextPropertyOffset(fdt: Blob, offset: int, ghost i: nat) returns (r: int)
    requires Parsed(fdt.buf[..], fdt.h, fdt.tokens) && EndsOnce(fdt.tokens)
    requires i < |fdt.tokens| && fdt.tokens[i].Prop? && offset == Offset(fdt.tokens, i)
    ensures i + 1 < |fdt.tokens|
    ensures var p := NextProp(fdt.tokens, i + 1); r == if p.At? then Offset(fdt.tokens, p.i) else p.code
    ensures forall e: nat :: FirstOther(fdt.tokens, i + 1, e) ==> NextIs(fdt.tokens, e, r)
  {
    hide EncodeAll, AllOk, Struct, Offset, Tag, NextProp;
    TagOf(fdt.tokens[i]);
    var tag, nextoffset := NextToken(fdt, offset, i);
    r := NextPropOffset(fdt, nextoffset, i + 1);
  }

  /** fdt_get_property: the offset of the first property of the node with the name sought, or an error. */
  method FdtGetProperty(fdt: Blob, nodeoffset: int, name: seq<byte>, ghost node: nat) returns (r: int)
    requires Readable(fdt.buf[..], fdt.h, fdt.tokens) && node < |fdt.tokens| && nodeoffset == Offset(fdt.tokens, node)
    ensures !fdt.tokens[node].BeginNode? ==> r == -FDT_ERR_BADOFFSET
    ensures fdt.tokens[node].BeginNode? ==>
              var p := FindProp(fdt.tokens, Strings(fdt.buf[..], fdt.h), node + 1, Sought(name));
              r == if p.At? then Offset(fdt.tokens, p.i) else p.code
    ensures fdt.tokens[node].BeginNode? ==>
              var ts, strings := fdt.tokens, Strings(fdt.buf[..], fdt.h);
              && (r == -FDT_ERR_NOTFOUND <==> Lacks(ts, strings, node, Sought(name)))
              && forall p: nat :: HasAt(ts, strings, node, Sought(name), p) ==> r == Offset(ts, p)
  {
    hide EncodeAll, AllOk, Struct, Offset, NextProp, StringAt, IsCString, Sought, ToInt32, HasAt, Lacks;
    FindPropExact(fdt.tokens, Strings(fdt.buf[..], fdt.h), node, Sought(name));
    var namelen := ToInt32(|name|);
    ghost var ts, strings := fdt.tokens, Strings(fdt.buf[..], fdt.h);
    r := CheckNodeOffset(fdt, nodeoffset, node);
    if r < 0 {
      return;
    }
    ghost var k := node + 1;
    r := NextPropOffset(fdt, r, k);
    while r >= 0
      invariant k <= |ts| && var p := NextProp(ts, k); r == if p.At? then Offset(ts, p.i) else p.code
      invariant FindProp(ts, strings, node + 1, Sought(name)) == FindProp(ts, strings, k, Sought(name))
      decreases |ts| - k
    {
      ghost var i := NextProp(ts, k).i;
      PropWords(fdt.buf[..], fdt.h, ts, i);
      var nameoff := ReadWord(fdt.buf, fdt.h.offStruct + (r + 8));
      var eq := StringEq(fdt, nameoff, name, namelen);
      if eq {
        return;
      }
      k := i + 1;
      r := NextPropertyOffset(fdt, r, i);
    }
  }
}
