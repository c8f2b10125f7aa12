/**
 The tree in a list of tokens: depth, children, siblings and parents, and the scans by
 which lib/libfdt finds them (lib/libfdt/fdt.c, lib/libfdt/fdt_ro.c, lib/libfdt/fdt_wip.c).
 */
module FdtTree {
  import opened Wrappers
  import opened Memory
  import opened FdtFormat
  import opened FdtSwSpec
  import opened FdtTokens

  function Delta(t: Token): int {
    if t.BeginNode? then 1 else if t.EndNode? then -1 else 0
  }

  /** How many nodes are open before token `k`. */
  function Depth(ts: seq<Token>, k: nat): int
    requires k <= |ts|
  {
    if k == 0 then 0 else Depth(ts, k - 1) + Delta(ts[k - 1])
  }

  /**
   A list that is one tree: the root's token comes first, nothing but NOPs is outside it, and it is closed at the end.
   */
  ghost predicate IsTree(ts: seq<Token>) {
    && EndsOnce(ts) && ts[0].BeginNode? && Depth(ts, |ts| - 1) == 0
    && forall k :: 0 < k < |ts| ==> Depth(ts, k) >= 1 || (Depth(ts, k) == 0 && (ts[k].Nop? || ts[k].End?))
  }

  lemma {:induction false} SameDepth(ts: seq<Token>, i: nat, e: nat)
    requires i < e <= |ts| && forall j :: i < j < e ==> ts[j].Prop? || ts[j].Nop?
    ensures Depth(ts, e) == Depth(ts, i + 1)
    decreases e - i
  {
    if i + 1 < e {
      SameDepth(ts, i, e - 1);
    }
  }

  lemma InNode(ts: seq<Token>, node: nat)
    requires IsTree(ts) && node < |ts| && ts[node].BeginNode?
    ensures Depth(ts, node + 1) >= 1 && node + 1 < |ts|
  {}

  lemma StopsInNode(ts: seq<Token>, strings: seq<byte>, node: nat, name: seq<byte>, e: nat)
    requires IsTree(ts) && node < |ts| && ts[node].BeginNode? && Passes(ts, strings, node, name, e)
    ensures e < |ts| && ts[e] != End
  {
    InNode(ts, node);
    SameDepth(ts, node, e);
    hide StringAt;
    assert ts[|ts| - 1] == End;
    hide Depth;
  }

  /** In a tree a node either has a property of that name or lacks it. */
  lemma HasOrLacks(ts: seq<Token>, strings: seq<byte>, node: nat, name: seq<byte>)
    requires IsTree(ts) && node < |ts| && ts[node].BeginNode?
    ensures Lacks(ts, strings, node, name) <==> forall val :: !HasValue(ts, strings, node, name, val)
  {
    hide FindProp, StringAt, IsTree;
    var e := LookupStops(ts, strings, node, name);
    StopsInNode(ts, strings, node, name, e);
    FindPropExact(ts, strings, node, name);
    if ts[e].Prop? {
      assert HasAt(ts, strings, node, name, e);
      assert HasValue(ts, strings, node, name, ts[e].value);
    } else {
      assert Lacks(ts, strings, node, name);
    }
  }

  // ----- fdt_next_node -----

  /** Where fdt_next_node stops: at a node, behind the end of the starting node's ancestor, or at an error. */
  datatype Step = Node(i: nat, depth: int) | Left(i: nat, depth: int) | Stop(code: int, depth: int)

  /** The loop of fdt_next_node from token `k` with `depth`. */
  function NextNode(ts: seq<Token>, k: nat, depth: int): (r: Step)
    ensures r.Node? ==> k <= r.i < |ts| && ts[r.i].BeginNode?
    ensures r.Left? ==> k < r.i <= |ts| && r.depth < 0
    ensures r.Stop? ==> r.code < 0
    decreases |ts| - k
  {
    if k >= |ts| then Stop(-FDT_ERR_TRUNCATED, depth)
    else match ts[k]
      case BeginNode(_, _) => Node(k, depth + 1)
      case EndNode => if depth - 1 < 0 then Left(k + 1, depth - 1) else NextNode(ts, k + 1, depth - 1)
      case End => Stop(-FDT_ERR_NOTFOUND, depth)
      case _ => NextNode(ts, k + 1, depth)
  }

  /** No node begins at or behind token `k`, before token `i`. */
  predicate NoNode(ts: seq<Token>, k: nat, i: nat)
    requires i <= |ts|
  {
    forall x :: k <= x < i ==> !ts[x].BeginNode?
  }

  /**
   fdt_next_node stops at the first node, unless the depth falls below zero or the list ends before it. Its depth
   changes as that of the tokens does.
   */
  lemma {:induction false} NextNodeExact(ts: seq<Token>, k: nat, depth: int)
    requires EndsOnce(ts) && k < |ts| && depth >= 0
    ensures var s := NextNode(ts, k, depth);
            match s
            case Node(i, d) => NoNode(ts, k, i) && d == depth + 1 + Depth(ts, i) - Depth(ts, k) >= 1
            case Left(i, d) =>
              NoNode(ts, k, i) && ts[i - 1].EndNode? && d == depth + Depth(ts, i) - Depth(ts, k) == -1
            case Stop(c, d) =>
              NoNode(ts, k, |ts|) && c == -FDT_ERR_NOTFOUND && d == depth + Depth(ts, |ts| - 1) - Depth(ts, k) >= 0
    decreases |ts| - k
  {
    assert Depth(ts, k + 1) == Depth(ts, k) + Delta(ts[k]);
    if !ts[k].BeginNode? && !ts[k].End? && depth + Delta(ts[k]) >= 0 {
      hide Depth;
      NextNodeExact(ts, k + 1, depth + Delta(ts[k]));
    }
  }

  // ----- the end of a node -----

  /** _fdt_node_end_offset from token `k` on: the token behind the end of the node that is `depth` levels up. */
  function NodeEnd(ts: seq<Token>, k: nat, depth: int): (r: Found)
    ensures r.At? ==> k < r.i <= |ts|
    ensures r.Error? ==> r.code < 0
    decreases |ts| - k
  {
    if k >= |ts| then Error(-FDT_ERR_TRUNCATED)
    else match ts[k]
      case BeginNode(_, _) => NodeEnd(ts, k + 1, depth + 1)
      case EndNode => if depth - 1 < 0 then At(k + 1) else NodeEnd(ts, k + 1, depth - 1)
      case End => Error(-FDT_ERR_NOTFOUND)
      case _ => NodeEnd(ts, k + 1, depth)
  }

  /** The scan node by node comes to the same end. */
  lemma {:induction false} NodeEndByNodes(ts: seq<Token>, k: nat, depth: int)
    requires depth >= 0
    ensures var s := NextNode(ts, k, depth);
            NodeEnd(ts, k, depth) == match s
              case Node(i, d) => NodeEnd(ts, i + 1, d)
              case Left(i, _) => At(i)
              case Stop(c, _) => Error(c)
    decreases |ts| - k
  {
    if k < |ts| {
      match ts[k]
      case BeginNode(_, _) =>
      case EndNode => if depth > 0 { NodeEndByNodes(ts, k + 1, depth - 1); }
      case End =>
      case _ => NodeEndByNodes(ts, k + 1, depth);
    }
  }

  /** Token `e` is behind the end of node `i`: the first place where the depth is back at that of the node. */
  ghost predicate EndsAt(ts: seq<Token>, i: nat, e: nat) {
    && i < e <= |ts| && ts[i].BeginNode? && ts[e - 1].EndNode? && Depth(ts, e) == Depth(ts, i)
    && forall k :: i < k < e ==> Depth(ts, k) > Depth(ts, i)
  }

  lemma {:induction false} NodeEndScan(ts: seq<Token>, k: nat, depth: int, base: int)
    requires EndsOnce(ts) && k < |ts| && depth >= 0 && Depth(ts, k) == base + 1 + depth
    requires Depth(ts, |ts| - 1) <= base
    ensures var r := NodeEnd(ts, k, depth);
            && r.At? && r.i < |ts| && ts[r.i - 1].EndNode? && Depth(ts, r.i) == base
            && forall j :: k < j < r.i ==> Depth(ts, j) > base
    decreases |ts| - k
  {
    if ts[k].BeginNode? {
      NodeEndScan(ts, k + 1, depth + 1, base);
    } else if ts[k].EndNode? {
      if depth > 0 {
        NodeEndScan(ts, k + 1, depth - 1, base);
      }
    } else if ts[k] != End {
      NodeEndScan(ts, k + 1, depth, base);
    }
  }

  lemma DepthAtNode(ts: seq<Token>, i: nat)
    requires IsTree(ts) && i < |ts| && ts[i].BeginNode?
    ensures Depth(ts, i) >= 0 && i + 1 < |ts| && Depth(ts, i + 1) == Depth(ts, i) + 1 && (i > 0 ==> Depth(ts, i) >= 1)
  {
  }

  /** In a tree every node ends, where _fdt_node_end_offset says. */
  lemma NodeEndIs(ts: seq<Token>, i: nat)
    requires IsTree(ts) && i < |ts| && ts[i].BeginNode?
    ensures NodeEnd(ts, i + 1, 0).At? && EndsAt(ts, i, NodeEnd(ts, i + 1, 0).i) && NodeEnd(ts, i + 1, 0).i < |ts|
  {
    hide NodeEnd, Depth, EndsOnce;
    DepthAtNode(ts, i);
    NodeEndScan(ts, i + 1, 0, Depth(ts, i));
  }

  // ----- children -----

  /** Node `j` is a child of node `i`. */
  ghost predicate Child(ts: seq<Token>, i: nat, j: nat) {
    && i < j < |ts| && ts[i].BeginNode? && ts[j].BeginNode? && Depth(ts, j) == Depth(ts, i) + 1
    && forall k :: i < k <= j ==> Depth(ts, k) > Depth(ts, i)
  }

  /** The loops of fdt_first_subnode (depth 0) and fdt_next_subnode (depth 1) from token `k`. */
  function Subnode(ts: seq<Token>, k: nat, depth: int): (r: Option<nat>)
    ensures r.Some? ==> k <= r.value < |ts|
    decreases |ts| - k
  {
    if k >= |ts| then None
    else match ts[k]
      case BeginNode(_, _) => if depth + 1 == 1 then Some(k) else Subnode(ts, k + 1, depth + 1)
      case EndNode => if depth - 1 < 0 then None else Subnode(ts, k + 1, depth - 1)
      case End => None
      case _ => Subnode(ts, k + 1, depth)
  }

  /** The next node at depth `level`, before the depth falls below it. */
  ghost predicate NextAtLevel(ts: seq<Token>, k: nat, level: int, j: nat) {
    && k <= j < |ts| && ts[j].BeginNode? && Depth(ts, j) == level
    && forall x :: k <= x <= j ==> Depth(ts, x) >= level
  }

  lemma Narrow(ts: seq<Token>, k: nat, level: int)
    requires k + 1 < |ts| && Depth(ts, k) >= level
    ensures forall j: nat :: NextAtLevel(ts, k + 1, level, j) ==> NextAtLevel(ts, k, level, j)
    ensures forall j: nat :: NextAtLevel(ts, k, level, j) && j != k ==> NextAtLevel(ts, k + 1, level, j)
  {
    hide Depth;
  }

  lemma {:induction false} SubnodeScan(ts: seq<Token>, k: nat, depth: int, level: int)
    requires EndsOnce(ts) && k < |ts| && depth >= 0 && Depth(ts, k) == level + depth
    ensures var r := Subnode(ts, k, depth);
            && (r.Some? ==> NextAtLevel(ts, k, level, r.value))
            && (forall j: nat :: NextAtLevel(ts, k, level, j) ==> r.Some? && r.value <= j)
    decreases |ts| - k
  {
    if ts[k].BeginNode? {
      if depth > 0 {
        SubnodeScan(ts, k + 1, depth + 1, level);
        Narrow(ts, k, level);
      }
    } else if ts[k].EndNode? {
      if depth > 0 {
        SubnodeScan(ts, k + 1, depth - 1, level);
        Narrow(ts, k, level);
      } else if k + 1 < |ts| {
        assert Depth(ts, k + 1) < level;
      }
    } else if ts[k] != End {
      SubnodeScan(ts, k + 1, depth, level);
      Narrow(ts, k, level);
    }
  }

  /** fdt_first_subnode gives the first child, if there is one. */
  lemma FirstChild(ts: seq<Token>, i: nat)
    requires IsTree(ts) && i < |ts| && ts[i].BeginNode?
    ensures var r := Subnode(ts, i + 1, 0);
            && (r.Some? ==> Child(ts, i, r.value))
            && (forall j: nat :: Child(ts, i, j) ==> r.Some? && r.value <= j)
  {
    hide Subnode, Depth, EndsOnce;
    DepthAtNode(ts, i);
    SubnodeScan(ts, i + 1, 0, Depth(ts, i) + 1);
    forall j: nat | Child(ts, i, j)
      ensures NextAtLevel(ts, i + 1, Depth(ts, i) + 1, j)
    {
    }
  }

  /** fdt_next_subnode gives the next child of the same parent, if there is one. */
  lemma NextChild(ts: seq<Token>, i: nat, j: nat)
    requires IsTree(ts) && Child(ts, i, j)
    ensures var r := Subnode(ts, j + 1, 1);
            && (r.Some? ==> Child(ts, i, r.value) && r.value > j)
            && (forall x: nat :: Child(ts, i, x) && x > j ==> r.Some? && r.value <= x)
  {
    hide Subnode, Depth, EndsOnce;
    DepthAtNode(ts, j);
    SubnodeScan(ts, j + 1, 1, Depth(ts, j));
    forall x: nat | Child(ts, i, x) && x > j
      ensures NextAtLevel(ts, j + 1, Depth(ts, j), x)
    {
    }
  }

  predicate Ascending(c: seq<nat>) { forall a, b :: 0 <= a < b < |c| ==> c[a] < c[b] }

  /** The nodes found by fdt_first_subnode and then fdt_next_subnode, from the node found first. */
  function Siblings(ts: seq<Token>, first: Option<nat>): seq<nat>
    decreases if first.Some? && first.value <= |ts| then |ts| - first.value + 1 else 0
  {
    if first.None? || first.value >= |ts| then []
    else [first.value] + Siblings(ts, Subnode(ts, first.value + 1, 1))
  }

  lemma ChildBound(ts: seq<Token>, i: nat, j: nat)
    requires Child(ts, i, j)
    ensures j < |ts|
  {}

  lemma {:induction false} SiblingsFrom(ts: seq<Token>, i: nat, first: Option<nat>)
    requires IsTree(ts) && (first.Some? ==> Child(ts, i, first.value))
    ensures forall j: nat :: j in Siblings(ts, first) <==> first.Some? && Child(ts, i, j) && j >= first.value
    decreases if first.Some? && first.value <= |ts| then |ts| - first.value + 1 else 0
  {
    hide IsTree, Child, Subnode;
    if first.Some? {
      ChildBound(ts, i, first.value);
      NextChild(ts, i, first.value);
      SiblingsFrom(ts, i, Subnode(ts, first.value + 1, 1));
    }
  }

  lemma Prepend(j: nat, c: seq<nat>)
    requires (forall x <- c :: j < x) && Ascending(c)
    ensures Ascending([j] + c)
  {
    var all := [j] + c;
    forall a, b | 0 <= a < b < |all|
      ensures all[a] < all[b]
    {
      assert all[b] == c[b - 1] && c[b - 1] in c;
    }
  }

  lemma SiblingsStep(ts: seq<Token>, first: Option<nat>)
    ensures first.None? ==> Siblings(ts, first) == []
    ensures first.Some? && first.value < |ts| ==>
              Siblings(ts, first) == [first.value] + Siblings(ts, Subnode(ts, first.value + 1, 1))
  {
    hide Subnode;
  }

  lemma NextSiblings(ts: seq<Token>, i: nat, j: nat)
    requires IsTree(ts) && Child(ts, i, j)
    ensures j < |ts|
    ensures var next := Subnode(ts, j + 1, 1);
            (next.Some? ==> Child(ts, i, next.value) && j < next.value) && forall x <- Siblings(ts, next) :: j < x
  {
    hide IsTree, Child, Subnode, Siblings;
    ChildBound(ts, i, j);
    NextChild(ts, i, j);
    var next := Subnode(ts, j + 1, 1);
    SiblingsFrom(ts, i, next);
    forall x | x in Siblings(ts, next)
      ensures j < x
    {
    }
  }

  lemma {:induction false} SiblingsAscend(ts: seq<Token>, i: nat, first: Option<nat>)
    requires IsTree(ts) && (first.Some? ==> Child(ts, i, first.value))
    ensures Ascending(Siblings(ts, first))
    decreases if first.Some? && first.value <= |ts| then |ts| - first.value + 1 else 0
  {
    assert Ascending([]);
    hide IsTree, Child, Subnode, Ascending, Siblings;
    SiblingsStep(ts, first);
    if first.Some? {
      var j := first.value;
      NextSiblings(ts, i, j);
      var next := Subnode(ts, j + 1, 1);
      SiblingsAscend(ts, i, next);
      Prepend(j, Siblings(ts, next));
    }
  }

  /** fdt_first_subnode and fdt_next_subnode enumerate exactly the children, in order. */
  lemma ChildrenEnumerated(ts: seq<Token>, i: nat)
    requires IsTree(ts) && i < |ts| && ts[i].BeginNode?
    ensures var c := Siblings(ts, Subnode(ts, i + 1, 0));
            && (forall j: nat :: j in c <==> Child(ts, i, j))
            && Ascending(c)
  {
    hide IsTree, Child, Subnode, Ascending;
    FirstChild(ts, i);
    var first := Subnode(ts, i + 1, 0);
    SiblingsFrom(ts, i, first);
    SiblingsAscend(ts, i, first);
  }

  // ----- parents -----

  /** fdt_supernode_atdepth_offset's scan: the last node of depth `level` among tokens [k, stop], or else `last`. */
  function LastAt(ts: seq<Token>, k: nat, stop: nat, level: int, last: Option<nat>): (r: Option<nat>)
    requires stop < |ts|
    ensures r == last || (r.Some? && k <= r.value <= stop && ts[r.value].BeginNode? && Depth(ts, r.value) == level)
    decreases stop + 1 - k
  {
    if k > stop then last
    else LastAt(ts, k + 1, stop, level, if ts[k].BeginNode? && Depth(ts, k) == level then Some(k) else last)
  }

  /** Since the last node of depth `level` was opened, the depth has stayed above `level`, if it is above now. */
  lemma {:induction false} LastAtIsOpen(ts: seq<Token>, k: nat, stop: nat, level: int, last: Option<nat>)
    requires k <= stop < |ts| && level >= 0
    requires last.None? ==> forall x :: 0 <= x <= k ==> Depth(ts, x) <= level
    requires last.Some? ==> last.value < k && ts[last.value].BeginNode? && Depth(ts, last.value) == level
    requires last.Some? && Depth(ts, k) > level ==> forall x :: last.value < x <= k ==> Depth(ts, x) > level
    requires last.None? ==> Depth(ts, k) <= level
    requires Depth(ts, stop) > level
    ensures var r := LastAt(ts, k, stop, level, last);
            r.Some? && r.value < stop && ts[r.value].BeginNode? && Depth(ts, r.value) == level
            && forall x :: r.value < x <= stop ==> Depth(ts, x) > level
    decreases stop - k
  {
    if k < stop {
      var last' := if ts[k].BeginNode? && Depth(ts, k) == level then Some(k) else last;
      LastAtIsOpen(ts, k + 1, stop, level, last');
    }
  }

  lemma DepthZero(ts: seq<Token>)
    ensures Depth(ts, 0) == 0
  {}

  /** fdt_parent_offset: the last node before `j` that is one level up is its parent. */
  lemma ParentIs(ts: seq<Token>, j: nat)
    requires IsTree(ts) && 0 < j < |ts| && ts[j].BeginNode?
    ensures var p := LastAt(ts, 0, j, Depth(ts, j) - 1, None); p.Some? && Child(ts, p.value, j)
  {
    hide LastAt, Depth, IsTree;
    DepthAtNode(ts, j);
    DepthZero(ts);
    LastAtIsOpen(ts, 0, j, Depth(ts, j) - 1, None);
  }

  /** A node has one parent. */
  lemma OneParent(ts: seq<Token>, i: nat, i': nat, j: nat)
    requires Child(ts, i, j) && Child(ts, i', j)
    ensures i == i'
  {
    hide Depth;
  }
}
