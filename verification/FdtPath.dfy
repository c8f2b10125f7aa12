/** The functions of lib/libfdt/fdt_ro.c about parents and paths, on a blob. */
module FdtPath {
  import opened Words
  import opened Wrappers
  import opened Memory
  import opened FdtFormat
  import opened FdtBlob
  import opened FdtSwSpec
  import opened FdtTokens
  import opened FdtRo
  import opened FdtTree
  import opened FdtNav
  import opened FdtPathSpec

  lemma NextNodeStep(ts: seq<Token>, k: nat, depth: int)
    requires k < |ts|
    ensures ts[k].BeginNode? ==> NextNode(ts, k, depth) == Node(k, depth + 1)
    ensures !ts[k].BeginNode? && !ts[k].End? && depth + Delta(ts[k]) >= 0 ==>
              NextNode(ts, k, depth) == NextNode(ts, k + 1, depth + Delta(ts[k]))
    ensures depth >= 0 && (ts[k].Prop? || ts[k].Nop?) ==> NextNode(ts, k, depth) == NextNode(ts, k + 1, depth)
  {}

  lemma DepthNext(ts: seq<Token>, k: nat, j: nat)
    requires IsTree(ts) && k < j < |ts|
    ensures Depth(ts, k + 1) == Depth(ts, k) + Delta(ts[k]) && !ts[k].End?
  {}

  /** Behind the end of the root there is no node. */
  lemma {:induction false} NothingOutside(ts: seq<Token>, k: nat, j: nat)
    requires IsTree(ts) && 0 < k <= j < |ts| && Depth(ts, k) < 1
    ensures !ts[j].BeginNode?
    decreases |ts| - k
  {
    if k < j {
      NothingOutside(ts, k + 1, j);
    }
  }

  /** From node `k` of a tree, fdt_next_node goes to the next node, with its depth. */
  lemma {:induction false} NextNodeTracks(ts: seq<Token>, k: nat, j: nat)
    requires IsTree(ts) && 0 < k <= j < |ts| && ts[j].BeginNode? && Depth(ts, k) >= 1
    ensures var s := NextNode(ts, k, Depth(ts, k) - 1);
            && s.Node? && k <= s.i <= j && s.depth == Depth(ts, s.i) >= 1
            && forall x :: k <= x < s.i ==> !ts[x].BeginNode?
    decreases |ts| - k
  {
    hide Depth, IsTree, NextNode;
    NextNodeStep(ts, k, Depth(ts, k) - 1);
    if !ts[k].BeginNode? {
      DepthNext(ts, k, j);
      if Depth(ts, k + 1) < 1 {
        NothingOutside(ts, k + 1, j);
      } else {
        NextNodeTracks(ts, k + 1, j);
      }
    }
  }

  lemma {:induction false} LastAtSkip(ts: seq<Token>, k: nat, i: nat, stop: nat, level: int, last: Option<nat>)
    requires k <= i <= stop < |ts| && forall x :: k <= x < i ==> !ts[x].BeginNode?
    ensures LastAt(ts, k, stop, level, last) == LastAt(ts, i, stop, level, last)
    decreases i - k
  {
    hide Depth;
    if k < i {
      LastAtSkip(ts, k + 1, i, stop, level, last);
    }
  }

  lemma StartAt(ts: seq<Token>, j: nat)
    requires IsTree(ts) && AllOk(ts) && j < |ts| && ts[j].BeginNode?
    ensures Offset(ts, 0) == 0 && Depth(ts, 0) == 0 && Depth(ts, j) >= 0
  {
    OffsetEnds(ts);
    DepthAtNode(ts, j);
  }

  lemma SameOffset(ts: seq<Token>, k: nat, j: nat)
    requires AllOk(ts) && k <= j <= |ts|
    ensures Offset(ts, k) == Offset(ts, j) <==> k == j
  {
    hide AllOk, Offset;
    OffsetMono(ts, k, j);
  }

  lemma LastAtStep(ts: seq<Token>, k: nat, stop: nat, level: int, last: Option<nat>)
    requires k <= stop < |ts| && ts[k].BeginNode?
    ensures LastAt(ts, k, stop, level, last) ==
              LastAt(ts, k + 1, stop, level, if Depth(ts, k) == level then Some(k) else last)
  {}

  lemma LastAtEnd(ts: seq<Token>, stop: nat, level: int, last: Option<nat>)
    requires stop < |ts|
    ensures LastAt(ts, stop + 1, stop, level, last) == last
  {}

  /** The next node is at most one level deeper. */
  lemma {:induction false} NextNodeUp(ts: seq<Token>, k: nat, depth: int)
    ensures NextNode(ts, k, depth).Node? ==> NextNode(ts, k, depth).depth <= depth + 1
    decreases |ts| - k
  {
    if k < |ts| && !ts[k].BeginNode? && !ts[k].End? && (ts[k].EndNode? ==> depth > 0) {
      NextNodeUp(ts, k + 1, if ts[k].EndNode? then depth - 1 else depth);
    }
  }

  /** fdt_supernode_atdepth_offset, for a node of a tree: its ancestor at the given depth, and its own depth. */
  method FdtSupernodeAtDepthOffset(fdt: Blob, nodeoffset: int, supernodedepth: int, ghost j: nat)
    returns (r: int, nodedepth: int)
    requires IsTreeBlob(fdt.buf[..], fdt.h, fdt.tokens)
    requires j < |fdt.tokens| && fdt.tokens[j].BeginNode? && nodeoffset == Offset(fdt.tokens, j)
    ensures CheckHeader(fdt.h) != 0 ==> r == CheckHeader(fdt.h)
    ensures CheckHeader(fdt.h) == 0 && supernodedepth < 0 ==> r == -FDT_ERR_NOTFOUND
    ensures CheckHeader(fdt.h) == 0 && supernodedepth >= 0 ==> nodedepth == Depth(fdt.tokens, j)
    ensures CheckHeader(fdt.h) == 0 && supernodedepth > Depth(fdt.tokens, j) ==> r == -FDT_ERR_NOTFOUND
    ensures CheckHeader(fdt.h) == 0 && 0 <= supernodedepth <= Depth(fdt.tokens, j) ==>
              var a := LastAt(fdt.tokens, 0, j, supernodedepth, None); a.Some? && r == Offset(fdt.tokens, a.value)
  {
    hide EncodeAll, AllOk, Struct, Offset, NextNode, Depth, LastAt, CheckHeader;
    ghost var ts := fdt.tokens;
    nodedepth := 0;
    r := CheckHeader(fdt.h);
    if r != 0 {
      return;
    }
    if supernodedepth < 0 {
      return -FDT_ERR_NOTFOUND, 0;
    }
    var supernodeoffset := -FDT_ERR_INTERNAL;
    ghost var last: Option<nat> := None;
    ghost var k := 0;
    var offset, depth := 0, 0;
    StartAt(ts, j);
    while true
      invariant 0 <= k <= j && ts[k].BeginNode? && offset == Offset(ts, k) && depth == Depth(ts, k) >= 0
      invariant LastAt(ts, 0, j, supernodedepth, None) == LastAt(ts, k, j, supernodedepth, last)
      invariant last.Some? ==> last.value < |ts| && supernodeoffset == Offset(ts, last.value)
      invariant last.None? ==> depth <= supernodedepth
      decreases j - k
    {
      LastAtStep(ts, k, j, supernodedepth, last);
      if depth == supernodedepth {
        supernodeoffset := offset;
        last := Some(k);
      }
      SameOffset(ts, k, j);
      if offset == nodeoffset {
        nodedepth := depth;
        LastAtEnd(ts, j, supernodedepth, last);
        if supernodedepth > depth {
          return -FDT_ERR_NOTFOUND, nodedepth;
        } else {
          return supernodeoffset, nodedepth;
        }
      }
      DepthAtNode(ts, k);
      NextNodeTracks(ts, k + 1, j);
      NextNodeUp(ts, k + 1, depth);
      ghost var s := NextNode(ts, k + 1, depth);
      LastAtSkip(ts, k + 1, s.i, j, supernodedepth, last);
      offset, depth := FdtNextNode(fdt, offset, depth, k);
      k := s.i;
    }
  }

  lemma {:induction false} RootOnly(ts: seq<Token>, k: nat, j: nat)
    requires IsTree(ts) && 0 < k && j < |ts|
    ensures LastAt(ts, k, j, 0, Some(0)) == Some(0)
    decreases |ts| - k
  {
    if k <= j {
      assert Depth(ts, k) >= 1 || !ts[k].BeginNode?;
      RootOnly(ts, k + 1, j);
    }
  }

  /** The only node of depth 0 is the root. */
  lemma RootIsFirst(ts: seq<Token>, j: nat)
    requires IsTree(ts) && AllOk(ts) && j < |ts| && ts[j].BeginNode?
    ensures LastAt(ts, 0, j, 0, None) == Some(0) && Offset(ts, 0) == 0
  {
    hide EndsOnce;
    OffsetEnds(ts);
    assert ts[0].BeginNode? && Depth(ts, 0) == 0;
    LastAtStep(ts, 0, j, 0, None);
    RootOnly(ts, 1, j);
  }

  /** fdt_parent_offset: the parent, which is NOTFOUND for the root. */
  method FdtParentOffset(fdt: Blob, nodeoffset: int, ghost j: nat) returns (r: int)
    requires IsTreeBlob(fdt.buf[..], fdt.h, fdt.tokens)
    requires j < |fdt.tokens| && fdt.tokens[j].BeginNode? && nodeoffset == Offset(fdt.tokens, j)
    ensures CheckHeader(fdt.h) != 0 ==> r == CheckHeader(fdt.h)
    ensures CheckHeader(fdt.h) == 0 && j == 0 ==> r == -FDT_ERR_NOTFOUND
    ensures CheckHeader(fdt.h) == 0 && j > 0 ==> r == Offset(fdt.tokens, Parent(fdt.tokens, j))
  {
    hide EncodeAll, AllOk, Struct, Offset, Depth;
    ghost var ts := fdt.tokens;
    StartAt(ts, j);
    DepthAtNode(ts, j);
    RootIsFirst(ts, j);
    var err, nodedepth := FdtSupernodeAtDepthOffset(fdt, nodeoffset, 0, j);
    if err != 0 {
      nodedepth := if err < 0 then err else -FDT_ERR_INTERNAL;
    }
    if nodedepth < 0 {
      return nodedepth;
    }
    var d;
    r, d := FdtSupernodeAtDepthOffset(fdt, nodeoffset, nodedepth - 1, j);
  }

  // ----- fdt_path_offset -----

  method PastSlashes(path: seq<byte>, start: nat) returns (p: nat)
    requires start <= |path|
    ensures p == SkipSlashes(path, start)
  {
    p := start;
    while p < |path| && path[p] == SLASH
      invariant start <= p <= |path| && SkipSlashes(path, start) == SkipSlashes(path, p)
    {
      p := p + 1;
    }
  }

  /** strchr for the next slash, or the end of the path. */
  method ToSlash(path: seq<byte>, start: nat) returns (q: nat)
    requires start <= |path|
    ensures q == ComponentEnd(path, start)
  {
    q := start;
    while q < |path| && path[q] != SLASH
      invariant start <= q <= |path| && ComponentEnd(path, start) == ComponentEnd(path, q)
    {
      q := q + 1;
    }
  }

  lemma SlashesAtEnd(path: seq<byte>)
    ensures SkipSlashes(path, |path|) == |path|
  {}

  lemma TreeStarts(ts: seq<Token>)
    requires IsTree(ts) && AllOk(ts)
    ensures |ts| > 0 && ts[0].BeginNode? && Offset(ts, 0) == 0
  {
    OffsetEnds(ts);
  }

  /** fdt_path_offset, for an absolute path. */
  method FdtPathOffset(fdt: Blob, path: seq<byte>) returns (r: int)
    requires IsTreeBlob(fdt.buf[..], fdt.h, fdt.tokens)
    requires path != [] && path[0] == SLASH && 0 !in path && |path| < TWO31
    ensures CheckHeader(fdt.h) != 0 ==> r == CheckHeader(fdt.h)
    ensures CheckHeader(fdt.h) == 0 ==> var c := PathFrom(fdt.tokens, 0, path, 0);
            if c.At? then c.i < |fdt.tokens| && r == Offset(fdt.tokens, c.i) else r == c.code
  {
    hide EncodeAll, AllOk, Struct, Offset, SubnodeNamed, EndsOnce, Depth, SkipSlashes, ComponentEnd, CheckHeader;
    r := CheckHeader(fdt.h);
    if r != 0 {
      return;
    }
    ghost var ts := fdt.tokens;
    TreeStarts(ts);
    ghost var node: nat := 0;
    var offset := 0;
    var p: nat := 0;
    while p < |path|
      invariant p <= |path| && node < |ts| && ts[node].BeginNode? && offset == Offset(ts, node)
      invariant PathFrom(ts, 0, path, 0) == PathFrom(ts, node, path, p)
      decreases |path| - p
    {
      p := PastSlashes(path, p);
      if p == |path| {
        return offset;
      }
      var q := ToSlash(path, p);
      offset := FdtSubnodeOffset(fdt, offset, path[p..q], node);
      if offset < 0 {
        return offset;
      }
      node := SubnodeNamed(ts, node + 1, 0, path[p..q]).i;
      p := q;
    }
    SlashesAtEnd(path);
    return offset;
  }

  // ----- fdt_get_path -----

  /** The buffer holds as many of the names as fit, each followed by a slash. */
  ghost predicate Filled(buf: seq<byte>, p: nat, pdepth: nat, names: seq<seq<byte>>, buflen: nat) {
    && pdepth <= |names| && p <= buflen <= |buf| && buf[..p] == Render(names[..pdepth])
    && (pdepth < |names| ==> |Render(names[..pdepth + 1])| > buflen)
  }

  lemma FilledShorter(buf: seq<byte>, p: nat, pdepth: nat, names: seq<seq<byte>>, d: nat, buflen: nat)
    requires Filled(buf, p, pdepth, names, buflen) && pdepth <= d <= |names|
    ensures Filled(buf, p, pdepth, names[..d], buflen)
  {
    hide Render;
    assert names[..d][..pdepth] == names[..pdepth];
    if pdepth < d {
      assert names[..d][..pdepth + 1] == names[..pdepth + 1];
    }
  }

  /** Dropping the last name from the buffer. */
  lemma FilledPopped(buf: seq<byte>, p: nat, pdepth: nat, names: seq<seq<byte>>, buflen: nat)
    requires Filled(buf, p, pdepth, names, buflen) && pdepth > 0
    ensures var n := names[pdepth - 1];
            && |n| + 1 <= p <= |buf| && buf[p - 1 - |n|..p - 1] == n && buf[p - 1] == SLASH
            && Filled(buf, p - 1 - |n|, pdepth - 1, names[..pdepth - 1], buflen)
            && (pdepth >= 2 ==> p >= |n| + 2 && buf[p - 2 - |n|] == SLASH)
  {
    var n, front := names[pdepth - 1], names[..pdepth - 1];
    assert names[..pdepth] == front + [n];
    RenderAppend(front, n);
    var r, o := Render(front), p - 1 - |n|;
    assert buf[..p] == r + n + [SLASH];
    assert o == |r|;
    assert buf[..o] == buf[..p][..o] == r;
    assert buf[o..p - 1] == buf[..p][o..p - 1] == n;
    assert buf[p - 1] == buf[..p][p - 1];
    assert front[..pdepth - 1] == front;
    if pdepth >= 2 {
      var front2 := names[..pdepth - 2];
      assert front == front2 + [names[pdepth - 2]];
      RenderAppend(front2, names[pdepth - 2]);
      assert buf[o - 1] == buf[..o][o - 1];
    }
  }

  /** fdt_get_path's step back over one name. */
  method PopName(buf: array<byte>, p: nat, ghost pdepth: nat, ghost names: seq<seq<byte>>, ghost buflen: nat)
    returns (p': nat)
    requires Filled(buf[..], p, pdepth, names, buflen) && pdepth >= 2 && SLASH !in names[pdepth - 1]
    ensures Filled(buf[..], p', pdepth - 1, names[..pdepth - 1], buflen)
  {
    hide Render;
    FilledPopped(buf[..], p, pdepth, names, buflen);
    ghost var n := names[pdepth - 1];
    ghost var o := p - 1 - |n|;
    p' := p - 1;
    while buf[p' - 1] != SLASH
      invariant o <= p' <= p - 1
      decreases p'
    {
      p' := p' - 1;
    }
    assert buf[..][o..p - 1] == n && forall x :: 0 <= x < |n| ==> n[x] in n;
    assert forall x :: o <= x < p - 1 ==> buf[x] == buf[..][o..p - 1][x - o];
  }

  lemma NameEnds(m: seq<byte>, at: nat, n: seq<byte>, len: nat)
    requires 0 !in n && len <= |n| && at + |n| + 1 <= |m| && m[at..at + |n| + 1] == n + [0]
    ensures m[at + len] == 0 <==> len == |n|
  {
    assert m[at + len] == m[at..at + |n| + 1][len];
  }

  /** fdt_get_name: where the name is, and its length; or nowhere, and an error. */
  method FdtGetName(fdt: Blob, nodeoffset: int, ghost j: nat) returns (name: Option<nat>, len: int)
    requires Parsed(fdt.buf[..], fdt.h, fdt.tokens) && j < |fdt.tokens| && nodeoffset == Offset(fdt.tokens, j)
    ensures name.Some? <==> CheckHeader(fdt.h) == 0 && fdt.tokens[j].BeginNode?
    ensures name.None? ==> len == if CheckHeader(fdt.h) != 0 then CheckHeader(fdt.h) else -FDT_ERR_BADOFFSET
    ensures name.Some? ==> var at := name.value;
              0 <= len && at + len <= fdt.buf.Length && fdt.buf[at..at + len] == fdt.tokens[j].name
  {
    hide EncodeAll, AllOk, Struct, Offset, CheckHeader;
    var err := CheckHeader(fdt.h);
    if err == 0 {
      err := CheckNodeOffset(fdt, nodeoffset, j);
    } else {
      return None, err;
    }
    if err < 0 {
      return None, err;
    }
    NodeName(fdt.buf[..], fdt.h, fdt.tokens, j);
    var at := fdt.h.offStruct + (nodeoffset + 4);
    name := Some(at);
    len := 0;
    ghost var n := fdt.tokens[j].name;
    NameEnds(fdt.buf[..], at, n, len);
    while fdt.buf[at + len] != 0
      invariant 0 <= len <= |n| && (fdt.buf[at + len] == 0 <==> len == |n|)
      decreases |n| - len
    {
      len := len + 1;
      NameEnds(fdt.buf[..], at, n, len);
    }
    assert fdt.buf[at..at + len] == fdt.buf[..][at..at + |n| + 1][..len];
  }

  /** The names of the open nodes hold no slash, so that the way back over a name ends at its start. */
  ghost predicate NoSlashes(names: seq<seq<byte>>) {
    forall i :: 0 <= i < |names| ==> SLASH !in names[i]
  }

  /** Between two nodes the depth only falls. */
  lemma {:induction false} DepthFalls(ts: seq<Token>, a: nat, k: nat)
    requires a <= k < |ts| && forall x :: a <= x < k ==> !ts[x].BeginNode?
    ensures forall x :: a <= x <= k ==> Depth(ts, x) >= Depth(ts, k)
    decreases k - a
  {
    if a < k {
      DepthFalls(ts, a + 1, k);
      assert Depth(ts, a + 1) == Depth(ts, a) + Delta(ts[a]);
    }
  }

  /** From one node to the next, names are only dropped. */
  lemma StackDropped(ts: seq<Token>, prev: nat, k: nat)
    requires IsTree(ts) && prev < k < |ts| && ts[k].BeginNode? && forall x :: prev < x < k ==> !ts[x].BeginNode?
    ensures 0 <= Depth(ts, k) <= |Stack(ts, prev + 1)| && Stack(ts, k) == Stack(ts, prev + 1)[..Depth(ts, k)]
  {
    hide Depth, Stack, EndsOnce;
    DepthFalls(ts, prev + 1, k);
    DepthAtNode(ts, k);
    StackKept(ts, prev + 1, k, Depth(ts, k));
    StackSize(ts, k);
  }

  /** Going back over the names of nodes that are no longer open. */
  method PopNames(buf: array<byte>, p: nat, pdepth: nat, depth: nat, ghost names: seq<seq<byte>>, ghost buflen: nat)
    returns (p': nat, pdepth': nat)
    requires Filled(buf[..], p, pdepth, names, buflen) && NoSlashes(names) && depth <= |names|
    requires (pdepth > depth ==> depth >= 1)
    ensures Filled(buf[..], p', pdepth', names[..depth], buflen) && pdepth' <= depth
  {
    hide Render;
    p', pdepth' := p, pdepth;
    ghost var left := |names|;
    assert names[..left] == names;
    while pdepth' > depth
      invariant depth <= left <= |names| && Filled(buf[..], p', pdepth', names[..left], buflen)
    {
      p' := PopName(buf, p', pdepth', names[..left], buflen);
      pdepth' := pdepth' - 1;
      assert names[..left][..pdepth'] == names[..pdepth'];
      left := pdepth';
    }
    FilledShorter(buf[..], p', pdepth', names[..left], depth, buflen);
    assert names[..left][..depth] == names[..depth];
  }

  lemma FilledPushed(buf: seq<byte>, p: nat, pdepth: nat, names: seq<seq<byte>>, n: seq<byte>, buflen: nat)
    requires Filled(buf, p, pdepth, names, buflen)
    ensures pdepth == |names| ==>
              if p + |n| + 1 <= buflen
              then Filled(Put(buf, p, n + [SLASH]), p + |n| + 1, pdepth + 1, names + [n], buflen)
              else Filled(buf, p, pdepth, names + [n], buflen)
    ensures pdepth < |names| ==> Filled(buf, p, pdepth, names + [n], buflen)
  {
    hide Render;
    assert (names + [n])[..pdepth] == names[..pdepth];
    if pdepth == |names| {
      assert (names + [n])[..pdepth + 1] == names[..pdepth] + [n] == names + [n];
      RenderAppend(names[..pdepth], n);
      assert p + |n| + 1 <= buflen ==> Put(buf, p, n + [SLASH])[..p + |n| + 1] == buf[..p] + n + [SLASH];
    } else {
      assert (names + [n])[..pdepth + 1] == names[..pdepth + 1];
    }
  }

  /** Appending the name of a node, if its parent is there and it fits. */
  method PushName(fdt: Blob, offset: int, ghost k: nat, buf: array<byte>, p: nat, pdepth: nat, depth: nat,
                  ghost names: seq<seq<byte>>, buflen: nat) returns (p': nat, pdepth': nat)
    requires Parsed(fdt.buf[..], fdt.h, fdt.tokens) && buf != fdt.buf && CheckHeader(fdt.h) == 0
    requires k < |fdt.tokens| && fdt.tokens[k].BeginNode? && offset == Offset(fdt.tokens, k)
    requires Filled(buf[..], p, pdepth, names, buflen) && depth == |names|
    modifies buf
    ensures Filled(buf[..], p', pdepth', names + [fdt.tokens[k].name], buflen)
  {
    hide Render, EncodeAll, AllOk, Struct, Offset, Parsed, CheckHeader;
    ghost var n := fdt.tokens[k].name;
    FilledPushed(buf[..], p, pdepth, names, n, buflen);
    p', pdepth' := p, pdepth;
    if pdepth >= depth {
      var name, namelen := FdtGetName(fdt, offset, k);
      var at := name.value;
      if p + namelen + 1 <= buflen {
        MemCpy(buf, p, fdt.buf[at..at + namelen]);
        buf[p + namelen] := SLASH;
        assert buf[..] == Put(old(buf[..]), p, n + [SLASH]);
        p', pdepth' := p + namelen + 1, pdepth + 1;
      }
    }
  }

  lemma OpenAt(ts: seq<Token>, j: nat)
    requires IsTree(ts) && j < |ts| && ts[j].BeginNode?
    ensures |Stack(ts, j + 1)| == Depth(ts, j) + 1
  {
    StackSize(ts, j);
  }

  lemma JoinSize(names: seq<seq<byte>>)
    ensures names != [] ==> |Join(names)| >= 1
  {}

  /** What fdt_get_path leaves in the buffer once the names up to the node are there. */
  lemma FilledIsPath(ts: seq<Token>, j: nat, buf: seq<byte>, p: nat, pdepth: nat, buflen: nat)
    requires IsTree(ts) && j < |ts| && ts[j].BeginNode? && ts[0].name == [] && buflen >= 2
    requires Filled(buf, p, pdepth, Stack(ts, j + 1), buflen)
    ensures var path := PathString(NamesTo(ts, j));
            if pdepth < Depth(ts, j) + 1 then |path| + 1 > buflen
            else |path| + 1 <= buflen && p >= 1 && (if p > 1 then p - 1 else p) == |path| && buf[..|path|] == path
  {
    hide IsTree, Depth, Stack, NamesTo, Render, Join;
    var names := Stack(ts, j + 1);
    StackIsNames(ts, j);
    RenderIsPath(NamesTo(ts, j));
    OpenAt(ts, j);
    JoinSize(NamesTo(ts, j));
    if pdepth < |names| {
      RenderPrefix(names, pdepth + 1);
    } else {
      assert names[..pdepth] == names;
      var path := PathString(NamesTo(ts, j));
      assert buf[..|path|] == buf[..p][..|path|];
    }
  }

  lemma FilledEmpty(ts: seq<Token>, buf: seq<byte>, buflen: nat)
    requires buflen <= |buf|
    ensures Filled(buf, 0, 0, [], buflen) && NoSlashes([]) && Stack(ts, 0) == []
  {}

  lemma StackPush(ts: seq<Token>, k: nat)
    requires k < |ts| && ts[k].BeginNode?
    ensures Stack(ts, k + 1) == Stack(ts, k) + [ts[k].name]
  {}

  /** fdt_get_path: the path of the node with a zero byte behind it, if the buffer has room for that. */
  method FdtGetPath(fdt: Blob, nodeoffset: int, buf: array<byte>, buflen: nat, ghost j: nat) returns (r: int)
    requires IsTreeBlob(fdt.buf[..], fdt.h, fdt.tokens) && buf != fdt.buf && buflen <= buf.Length
    requires j < |fdt.tokens| && fdt.tokens[j].BeginNode? && nodeoffset == Offset(fdt.tokens, j)
    requires fdt.tokens[0].name == [] && forall k: nat :: k <= j + 1 ==> NoSlashes(Stack(fdt.tokens, k))
    modifies buf
    ensures CheckHeader(fdt.h) != 0 ==> r == CheckHeader(fdt.h)
    ensures CheckHeader(fdt.h) == 0 ==> var path := PathString(NamesTo(fdt.tokens, j));
            if |path| + 1 <= buflen then r == 0 && buf[..|path| + 1] == path + [0] else r == -FDT_ERR_NOSPACE
  {
    hide EncodeAll, AllOk, Struct, Offset, NextNode, Depth, Stack, NamesTo, Join, Filled, EndsOnce, NoSlashes;
    hide CheckHeader;
    r := CheckHeader(fdt.h);
    if r != 0 {
      return;
    }
    ghost var ts := fdt.tokens;
    ghost var path := PathString(NamesTo(ts, j));
    JoinSize(NamesTo(ts, j));
    if buflen < 2 {
      return -FDT_ERR_NOSPACE;
    }
    var pdepth: nat, p: nat := 0, 0;
    var offset, depth := 0, 0;
    ghost var k, names := 0, [];
    StartAt(ts, j);
    FilledEmpty(ts, buf[..], buflen);
    while true
      invariant 0 <= k <= j && ts[k].BeginNode? && offset == Offset(ts, k) && depth == Depth(ts, k) >= 0
      invariant (k == 0 ==> p == 0 && pdepth == 0) && (k > 0 ==> depth >= 1)
      invariant Filled(buf[..], p, pdepth, names, buflen) && NoSlashes(names) && depth <= |names|
      invariant Stack(ts, k) == names[..depth]
      decreases j - k
    {
      p, pdepth := PopNames(buf, p, pdepth, depth, names, buflen);
      p, pdepth := PushName(fdt, offset, k, buf, p, pdepth, depth, names[..depth], buflen);
      names := Stack(ts, k + 1);
      StackPush(ts, k);
      SameOffset(ts, k, j);
      if offset == nodeoffset {
        FilledIsPath(ts, j, buf[..], p, pdepth, buflen);
        if pdepth < depth + 1 {
          return -FDT_ERR_NOSPACE;
        }
        if p > 1 {
          p := p - 1;
        }
        buf[p] := 0;
        return 0;
      }
      DepthAtNode(ts, k);
      NextNodeTracks(ts, k + 1, j);
      ghost var s := NextNode(ts, k + 1, depth);
      offset, depth := FdtNextNode(fdt, offset, depth, k);
      StackDropped(ts, k, s.i);
      k := s.i;
    }
  }

  /** strlen of a path in a buffer. */
  method StrLen(buf: array<byte>, ghost s: seq<byte>) returns (n: nat)
    requires |s| < buf.Length && 0 !in s && buf[..|s| + 1] == s + [0]
    ensures n == |s| && buf[..n] == s
  {
    n := 0;
    assert buf[..|s|] == buf[..|s| + 1][..|s|];
    assert forall i :: 0 <= i < |s| ==> buf[i] == buf[..|s|][i] && s[i] in s;
    assert buf[|s|] == buf[..|s| + 1][|s|];
    while buf[n] != 0
      invariant n <= |s|
      decreases |s| - n
    {
      n := n + 1;
    }
  }

  ghost predicate NoZero(names: seq<seq<byte>>) {
    forall i :: 0 <= i < |names| ==> 0 !in names[i]
  }

  lemma {:induction false} NamesNoZero(m: seq<byte>, h: Header, ts: seq<Token>, j: nat)
    requires IsTreeBlob(m, h, ts) && j < |ts| && ts[j].BeginNode?
    ensures NoZero(NamesTo(ts, j))
    decreases j
  {
    hide EncodeAll, AllOk, Offset, Struct, IsTree, Parent;
    if j > 0 {
      NamesNoZero(m, h, ts, Parent(ts, j));
      NodeName(m, h, ts, j);
    }
  }

  lemma {:induction false} JoinNoZero(names: seq<seq<byte>>)
    requires NoZero(names)
    ensures 0 !in Join(names)
    decreases |names|
  {
    if names != [] {
      JoinNoZero(names[1..]);
    }
  }

  /** A path starts with a slash and holds no zero byte. */
  lemma PathBytes(m: seq<byte>, h: Header, ts: seq<Token>, j: nat)
    requires IsTreeBlob(m, h, ts) && j < |ts| && ts[j].BeginNode?
    ensures var path := PathString(NamesTo(ts, j)); path != [] && path[0] == SLASH && 0 !in path
  {
    hide EncodeAll, AllOk, Offset, Struct, IsTree;
    NamesNoZero(m, h, ts, j);
    JoinNoZero(NamesTo(ts, j));
  }

  /** Nodes have different offsets, and an error is no offset. */
  lemma NodeOffsets(m: seq<byte>, h: Header, ts: seq<Token>, c: Found, j: nat)
    requires Parsed(m, h, ts) && j < |ts| && (c.At? ==> c.i < |ts|) && (c.Error? ==> c.code < 0)
    ensures (if c.At? then Offset(ts, c.i) else c.code) == Offset(ts, j) <==> c == At(j)
  {
    hide EncodeAll, AllOk, Offset, Struct;
    if c.At? {
      if c.i <= j {
        SameOffset(ts, c.i, j);
      } else {
        SameOffset(ts, j, c.i);
      }
    }
  }

  /**
   The path that fdt_get_path gives for a node leads fdt_path_offset back to it if and only if no earlier sibling on the
   way matches.
   */
  method PathRoundTrip(fdt: Blob, nodeoffset: int, buf: array<byte>, buflen: nat, ghost j: nat)
    returns (err: int, r: int)
    requires IsTreeBlob(fdt.buf[..], fdt.h, fdt.tokens) && buf != fdt.buf && buflen <= buf.Length
    requires j < |fdt.tokens| && fdt.tokens[j].BeginNode? && nodeoffset == Offset(fdt.tokens, j)
    requires fdt.tokens[0].name == [] && forall k: nat :: k <= j + 1 ==> NoSlashes(Stack(fdt.tokens, k))
    requires PathNames(NamesTo(fdt.tokens, j)) && buflen < TWO31
    modifies buf
    ensures err == 0 ==> (r == nodeoffset <==> Unambiguous(fdt.tokens, j))
  {
    hide PathString, NamesTo, Stack, NoSlashes, IsTree, Unambiguous, PathNames, PathFrom, Offset, Parsed, CheckHeader;
    r := 0;
    err := FdtGetPath(fdt, nodeoffset, buf, buflen, j);
    if err != 0 {
      return;
    }
    ghost var path := PathString(NamesTo(fdt.tokens, j));
    PathBytes(fdt.buf[..], fdt.h, fdt.tokens, j);
    var n := StrLen(buf, path);
    PathLeadsBack(fdt.tokens, j);
    r := FdtPathOffset(fdt, buf[..n]);
    NodeOffsets(fdt.buf[..], fdt.h, fdt.tokens, PathFrom(fdt.tokens, 0, path, 0), j);
  }
}
