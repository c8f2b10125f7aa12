/**
 Finding one's way in a finished blob (lib/libfdt/fdt.c, lib/libfdt/fdt_ro.c, lib/libfdt/fdt_wip.c).
 */
module FdtNav {
  import opened Words
  import opened Wrappers
  import opened Memory
  import opened FdtFormat
  import opened FdtBlob
  import opened FdtSwSpec
  import opened FdtTokens
  import opened FdtRo
  import opened FdtTree

  /** A blob whose structure block is one tree. */
  ghost predicate IsTreeBlob(m: seq<byte>, h: Header, ts: seq<Token>) {
    Parsed(m, h, ts) && IsTree(ts)
  }

  /** The offset or error that stands for a step. */
  ghost function StepOffset(ts: seq<Token>, s: Step): int
    requires AllOk(ts) && (s.Node? || s.Left? ==> s.i <= |ts|)
  {
    if s.Stop? then s.code else Offset(ts, s.i)
  }

  /** fdt_next_node, from a node. */
  method FdtNextNode(fdt: Blob, offset: int, depth: int, ghost i: nat) returns (r: int, d: int)
    requires Parsed(fdt.buf[..], fdt.h, fdt.tokens) && EndsOnce(fdt.tokens)
    requires i < |fdt.tokens| && fdt.tokens[i].BeginNode? && offset == Offset(fdt.tokens, i)
    ensures var s := NextNode(fdt.tokens, i + 1, depth); r == StepOffset(fdt.tokens, s) && d == s.depth
  {
    hide EncodeAll, AllOk, Struct, Offset, Tag;
    d := depth;
    var nextoffset := CheckNodeOffset(fdt, offset, i);
    ghost var k := i + 1;
    while true
      invariant i < k < |fdt.tokens| && nextoffset == Offset(fdt.tokens, k)
      invariant NextNode(fdt.tokens, i + 1, depth) == NextNode(fdt.tokens, k, d)
      decreases |fdt.tokens| - k
    {
      var o := nextoffset;
      var tag;
      tag, nextoffset := NextToken(fdt, o, k);
      TagOf(fdt.tokens[k]);
      if tag == FDT_BEGIN_NODE {
        return o, d + 1;
      } else if tag == FDT_END_NODE {
        d := d - 1;
        if d < 0 {
          return nextoffset, d;
        }
      } else if tag == FDT_END {
        return if nextoffset >= 0 then -FDT_ERR_NOTFOUND else nextoffset, d;
      }
      k := k + 1;
    }
  }

  lemma NextNodeDepth(ts: seq<Token>, k: nat, depth: int)
    requires depth >= 0
    ensures NextNode(ts, k, depth).Node? ==> NextNode(ts, k, depth).depth >= 1
    decreases |ts| - k
  {
    if k < |ts| && !ts[k].BeginNode? && !ts[k].End? && (ts[k].EndNode? ==> depth > 0) {
      NextNodeDepth(ts, k + 1, if ts[k].EndNode? then depth - 1 else depth);
    }
  }

  /** _fdt_node_end_offset. */
  method NodeEndOffset(fdt: Blob, offset: int, ghost i: nat) returns (r: int)
    requires Parsed(fdt.buf[..], fdt.h, fdt.tokens) && EndsOnce(fdt.tokens)
    requires i < |fdt.tokens| && fdt.tokens[i].BeginNode? && offset == Offset(fdt.tokens, i)
    ensures var e := NodeEnd(fdt.tokens, i + 1, 0); r == if e.At? then Offset(fdt.tokens, e.i) else e.code
  {
    hide EncodeAll, AllOk, Struct, Offset, NextNode, NodeEnd, EndsOnce;
    var depth := 0;
    ghost var k := i;
    r := offset;
    while r >= 0 && depth >= 0
      invariant depth >= 0 && r >= 0 ==>
                  && k < |fdt.tokens| && fdt.tokens[k].BeginNode? && r == Offset(fdt.tokens, k)
                  && NodeEnd(fdt.tokens, i + 1, 0) == NodeEnd(fdt.tokens, k + 1, depth)
      invariant depth < 0 || r < 0 ==>
                  var e := NodeEnd(fdt.tokens, i + 1, 0); r == if e.At? then Offset(fdt.tokens, e.i) else e.code
      decreases depth >= 0 && r >= 0, |fdt.tokens| - k
    {
      NodeEndByNodes(fdt.tokens, k + 1, depth);
      ghost var s := NextNode(fdt.tokens, k + 1, depth);
      NextNodeDepth(fdt.tokens, k + 1, depth);
      r, depth := FdtNextNode(fdt, r, depth, k);
      k := if s.Node? then s.i else k;
    }
  }

  // ----- subnodes -----

  /** One node further, the scan for a subnode is where it was. */
  lemma SubnodeByNodes(ts: seq<Token>, k: nat, depth: int)
    requires depth >= 0
    ensures var s := NextNode(ts, k, depth);
            Subnode(ts, k, depth) ==
              (if s.Node? then (if s.depth == 1 then Some(s.i) else Subnode(ts, s.i + 1, s.depth)) else None)
    decreases |ts| - k
  {
    if k < |ts| && !ts[k].BeginNode? && !ts[k].End? && (ts[k].EndNode? ==> depth > 0) {
      SubnodeByNodes(ts, k + 1, if ts[k].EndNode? then depth - 1 else depth);
    }
  }

  lemma FirstNodeDepth(ts: seq<Token>, k: nat)
    ensures NextNode(ts, k, 0).Node? ==> NextNode(ts, k, 0).depth == 1
    decreases |ts| - k
  {
    if k < |ts| && (ts[k].Prop? || ts[k].Nop?) {
      FirstNodeDepth(ts, k + 1);
    }
  }

  /** fdt_first_subnode. */
  method FdtFirstSubnode(fdt: Blob, offset: int, ghost i: nat) returns (r: int)
    requires Parsed(fdt.buf[..], fdt.h, fdt.tokens) && EndsOnce(fdt.tokens)
    requires i < |fdt.tokens| && fdt.tokens[i].BeginNode? && offset == Offset(fdt.tokens, i)
    ensures var c := Subnode(fdt.tokens, i + 1, 0);
            r == if c.Some? then Offset(fdt.tokens, c.value) else -FDT_ERR_NOTFOUND
  {
    hide EncodeAll, AllOk, Struct, Offset, NextNode, EndsOnce;
    SubnodeByNodes(fdt.tokens, i + 1, 0);
    FirstNodeDepth(fdt.tokens, i + 1);
    var depth;
    r, depth := FdtNextNode(fdt, offset, 0, i);
    if r < 0 || depth != 1 {
      return -FDT_ERR_NOTFOUND;
    }
  }

  /** fdt_next_subnode. */
  method FdtNextSubnode(fdt: Blob, offset: int, ghost j: nat) returns (r: int)
    requires Parsed(fdt.buf[..], fdt.h, fdt.tokens) && EndsOnce(fdt.tokens)
    requires j < |fdt.tokens| && fdt.tokens[j].BeginNode? && offset == Offset(fdt.tokens, j)
    ensures var c := Subnode(fdt.tokens, j + 1, 1);
            r == if c.Some? then Offset(fdt.tokens, c.value) else -FDT_ERR_NOTFOUND
  {
    hide EncodeAll, AllOk, Struct, Offset, NextNode, Subnode, EndsOnce;
    var depth := 1;
    ghost var k := j;
    r := offset;
    while true
      invariant depth >= 1 && k < |fdt.tokens| && fdt.tokens[k].BeginNode? && r == Offset(fdt.tokens, k)
      invariant Subnode(fdt.tokens, j + 1, 1) == Subnode(fdt.tokens, k + 1, depth)
      decreases |fdt.tokens| - k
    {
      SubnodeByNodes(fdt.tokens, k + 1, depth);
      NextNodeDepth(fdt.tokens, k + 1, depth);
      ghost var s := NextNode(fdt.tokens, k + 1, depth);
      r, depth := FdtNextNode(fdt, r, depth, k);
      if r < 0 || depth < 1 {
        return -FDT_ERR_NOTFOUND;
      }
      k := s.i;
      if depth <= 1 {
        return;
      }
    }
  }

  // ----- subnodes by name -----

  const AT_SIGN: byte := 0x40

  /** _fdt_nodename_eq: the whole name, or the part before '@' when `s` has no '@'. */
  predicate NameMatches(name: seq<byte>, s: seq<byte>) {
    s <= name && (|name| == |s| || (AT_SIGN !in s && name[|s|] == AT_SIGN))
  }

  /** The name itself, or the name without its unit address. */
  lemma NameMatchesExactly(name: seq<byte>, s: seq<byte>)
    ensures NameMatches(name, s) <==>
              name == s || (AT_SIGN !in s && exists unit: seq<byte> :: name == s + [AT_SIGN] + unit)
  {
    if s <= name && |s| < |name| && name[|s|] == AT_SIGN {
      assert name == s + [AT_SIGN] + name[|s| + 1..];
    }
  }

  /** fdt_subnode_offset_namelen's scan from token `k`: the first child whose name matches. */
  function SubnodeNamed(ts: seq<Token>, k: nat, depth: int, s: seq<byte>): (r: Found)
    ensures r.At? ==> k <= r.i < |ts| && ts[r.i].BeginNode? && NameMatches(ts[r.i].name, s)
    ensures r.Error? ==> r.code < 0
    decreases |ts| - k
  {
    if k >= |ts| then Error(-FDT_ERR_TRUNCATED)
    else match ts[k]
      case BeginNode(name, _) =>
        if depth + 1 == 1 && NameMatches(name, s) then At(k) else SubnodeNamed(ts, k + 1, depth + 1, s)
      case EndNode => if depth - 1 < 0 then Error(-FDT_ERR_NOTFOUND) else SubnodeNamed(ts, k + 1, depth - 1, s)
      case End => Error(-FDT_ERR_NOTFOUND)
      case _ => SubnodeNamed(ts, k + 1, depth, s)
  }

  lemma SubnodeNamedByNodes(ts: seq<Token>, k: nat, depth: int, s: seq<byte>)
    requires depth >= 0
    ensures var n := NextNode(ts, k, depth);
            SubnodeNamed(ts, k, depth, s) ==
              if n.Stop? then Error(n.code)
              else if n.Left? then Error(-FDT_ERR_NOTFOUND)
              else if n.depth == 1 && NameMatches(ts[n.i].name, s) then At(n.i)
              else SubnodeNamed(ts, n.i + 1, n.depth, s)
    decreases |ts| - k
  {
    hide NameMatches;
    if k < |ts| && !ts[k].BeginNode? && !ts[k].End? && (ts[k].EndNode? ==> depth > 0) {
      SubnodeNamedByNodes(ts, k + 1, if ts[k].EndNode? then depth - 1 else depth, s);
    }
  }

  /** The bytes of a node's name. */
  lemma NodeName(m: seq<byte>, h: Header, ts: seq<Token>, i: nat)
    requires Parsed(m, h, ts) && i < |ts| && ts[i].BeginNode?
    ensures 0 !in ts[i].name && Offset(ts, i) + 4 + |ts[i].name| + 1 <= h.sizeStruct
    ensures var a := h.offStruct + (Offset(ts, i) + 4); m[a..a + |ts[i].name| + 1] == ts[i].name + [0]
  {
    hide Be32, Encode, EncodeAll, Offset;
    var o, n := Offset(ts, i), |ts[i].name| + 1;
    EncodeAt(ts, i);
    EncodeParts(ts[i]);
    Within(Struct(m, h), o, Encode(ts[i]), 4, 4 + n);
    SliceSlice(m, h.offStruct, h.offStruct + h.sizeStruct, o + 4, o + 4 + n);
  }

  lemma PrefixBytes(m: seq<byte>, p: nat, all: seq<byte>, s: seq<byte>)
    requires p + |all| <= |m| && m[p..p + |all|] == all && s <= all
    ensures m[p..p + |s|] == s
  {
    assert m[p..p + |s|] == m[p..p + |all|][..|s|];
  }

  lemma ByteAt(m: seq<byte>, p: nat, s: seq<byte>, k: nat)
    requires p + |s| <= |m| && m[p..p + |s|] == s && k < |s|
    ensures m[p + k] == s[k]
  {
    assert m[p..p + |s|][k] == m[p + k];
  }

  /** Comparing with the bytes of a name and its zero byte decides the match. */
  lemma MatchByBytes(m: seq<byte>, p: nat, limit: nat, name: seq<byte>, s: seq<byte>)
    requires 0 !in name && 0 !in s && p + |name| + 1 <= limit <= |m| && m[p..p + |name| + 1] == name + [0]
    ensures NameMatches(name, s) <==>
              p + |s| < limit && m[p..p + |s|] == s && (m[p + |s|] == 0 || (AT_SIGN !in s && m[p + |s|] == AT_SIGN))
  {
    var all := name + [0];
    forall k | 0 <= k <= |name|
      ensures m[p + k] == all[k] && (k < |name| ==> all[k] in name)
    {
      ByteAt(m, p, all, k);
    }
    if s <= name {
      PrefixBytes(m, p, all, s);
    }
    if p + |s| < limit && m[p..p + |s|] == s {
      forall k | 0 <= k < |s|
        ensures m[p + k] == s[k] && s[k] in s
      {
        ByteAt(m, p, s, k);
      }
      if |name| < |s| {
        ByteAt(m, p, s, |name|);
      }
    }
  }

  /** _fdt_nodename_eq. */
  method NodeNameEq(fdt: Blob, offset: nat, s: seq<byte>, ghost i: nat) returns (eq: bool)
    requires Parsed(fdt.buf[..], fdt.h, fdt.tokens) && 0 !in s && |s| < TWO31
    requires i < |fdt.tokens| && fdt.tokens[i].BeginNode? && offset == Offset(fdt.tokens, i)
    ensures eq <==> NameMatches(fdt.tokens[i].name, s)
  {
    hide EncodeAll, AllOk, Struct, Offset, OffsetPtrOk, NameMatches;
    NodeName(fdt.buf[..], fdt.h, fdt.tokens, i);
    var p := fdt.h.offStruct + (offset + 4);
    MatchByBytes(fdt.buf[..], p, fdt.h.offStruct + fdt.h.sizeStruct, fdt.tokens[i].name, s);
    if !OffsetPtrOk(fdt.h.sizeStruct, offset + 4, |s| + 1) {
      return false;
    }
    var diff := MemCmp(fdt.buf, p, s);
    if diff != 0 {
      return false;
    }
    if fdt.buf[p + |s|] == 0 {
      return true;
    }
    return AT_SIGN !in s && fdt.buf[p + |s|] == AT_SIGN;
  }

  lemma NextNodeSigns(ts: seq<Token>, k: nat, depth: int)
    requires depth >= 0
    ensures NextNode(ts, k, depth).Stop? ==> NextNode(ts, k, depth).depth >= 0
    decreases |ts| - k
  {
    if k < |ts| && !ts[k].BeginNode? && !ts[k].End? && (ts[k].EndNode? ==> depth > 0) {
      NextNodeSigns(ts, k + 1, if ts[k].EndNode? then depth - 1 else depth);
    }
  }

  /** fdt_subnode_offset_namelen. */
  method FdtSubnodeOffset(fdt: Blob, offset: int, s: seq<byte>, ghost i: nat) returns (r: int)
    requires Parsed(fdt.buf[..], fdt.h, fdt.tokens) && EndsOnce(fdt.tokens) && 0 !in s && |s| < TWO31
    requires i < |fdt.tokens| && fdt.tokens[i].BeginNode? && offset == Offset(fdt.tokens, i)
    ensures CheckHeader(fdt.h) != 0 ==> r == CheckHeader(fdt.h)
    ensures CheckHeader(fdt.h) == 0 ==>
              var c := SubnodeNamed(fdt.tokens, i + 1, 0, s); r == if c.At? then Offset(fdt.tokens, c.i) else c.code
  {
    hide EncodeAll, AllOk, Struct, Offset, NextNode, SubnodeNamed, EndsOnce, NameMatches, CheckHeader;
    r := CheckHeader(fdt.h);
    if r != 0 {
      return;
    }
    ghost var ts := fdt.tokens;
    var depth := 0;
    ghost var k := i;
    r := offset;
    while r >= 0 && depth >= 0
      invariant depth >= 0 && r >= 0 ==>
                  && k < |ts| && ts[k].BeginNode? && r == Offset(ts, k) && (depth == 0 ==> k == i)
                  && SubnodeNamed(ts, i + 1, 0, s) ==
                       (if depth == 1 && NameMatches(ts[k].name, s) then At(k) else SubnodeNamed(ts, k + 1, depth, s))
      invariant depth < 0 ==> SubnodeNamed(ts, i + 1, 0, s) == Error(-FDT_ERR_NOTFOUND)
      invariant depth >= 0 && r < 0 ==> SubnodeNamed(ts, i + 1, 0, s) == Error(r)
      decreases depth >= 0 && r >= 0, |ts| - k
    {
      if depth == 1 {
        var eq := NodeNameEq(fdt, r, s, k);
        if eq {
          return;
        }
      }
      SubnodeNamedByNodes(ts, k + 1, depth, s);
      NextNodeDepth(ts, k + 1, depth);
      ghost var n := NextNode(ts, k + 1, depth);
      NextNodeSigns(ts, k + 1, depth);
      r, depth := FdtNextNode(fdt, r, depth, k);
      k := if n.Node? then n.i else k;
    }
    if depth < 0 {
      return -FDT_ERR_NOTFOUND;
    }
  }
}
