/**
 What edits of a blob do to its tree: a tree stays a tree, and children, parents and the names on the way from the
 root stay what they were (lib/libfdt/fdt_rw.c).
 */
module FdtEdits {
  import opened Memory
  import opened FdtFormat
  import opened FdtSwSpec
  import opened FdtTokens
  import opened FdtTree
  import opened FdtPathSpec
  import opened FdtRwSpec
  import opened FdtRw

  /** Tokens that open as many nodes as they close, and close none that they have not opened. */
  ghost predicate Closed(mid: seq<Token>) {
    Depth(mid, |mid|) == 0 && forall x :: 0 <= x <= |mid| ==> Depth(mid, x) >= 0
  }

  /** Where token `k` is after `n` tokens were put in at `at`. */
  function Shift(k: nat, at: nat, n: nat): nat { if k < at then k else k + n }

  // ----- depth -----

  lemma {:induction false} DepthInFront(ts: seq<Token>, ts': seq<Token>, k: nat)
    requires k <= |ts| && k <= |ts'| && ts[..k] == ts'[..k]
    ensures Depth(ts', k) == Depth(ts, k)
  {
    if k > 0 {
      assert ts[..k - 1] == ts[..k][..k - 1] && ts'[..k - 1] == ts'[..k][..k - 1];
      assert ts[k - 1] == ts[..k][k - 1] && ts'[k - 1] == ts'[..k][k - 1];
      DepthInFront(ts, ts', k - 1);
    }
  }

  /** Depth adds up along a list. */
  lemma {:induction false} DepthPart(ts: seq<Token>, i: nat, mid: seq<Token>, x: nat)
    requires i + |mid| <= |ts| && ts[i..i + |mid|] == mid && x <= |mid|
    ensures Depth(ts, i + x) == Depth(ts, i) + Depth(mid, x)
  {
    if x > 0 {
      DepthPart(ts, i, mid, x - 1);
      assert ts[i + x - 1] == ts[i..i + |mid|][x - 1];
    }
  }

  /** The depth of each token, old or new, after closed tokens were put in. */
  lemma DepthAround(ts: seq<Token>, at: nat, mid: seq<Token>, k: nat)
    requires at <= |ts| && Closed(mid) && k <= |ts|
    ensures var ts' := Replace(ts, at, at, mid);
            && |ts'| == |ts| + |mid| && Depth(ts', Shift(k, at, |mid|)) == Depth(ts, k)
            && forall x :: 0 <= x <= |mid| ==> Depth(ts', at + x) == Depth(ts, at) + Depth(mid, x)
  {
    hide Depth;
    var ts' := Replace(ts, at, at, mid);
    assert ts'[..at] == ts[..at];
    DepthInFront(ts, ts', at);
    forall x | 0 <= x <= |mid|
      ensures Depth(ts', at + x) == Depth(ts, at) + Depth(mid, x)
    {
      DepthPart(ts', at, mid, x);
    }
    if k < at {
      assert ts'[..k] == ts'[..at][..k] && ts[..k] == ts[..at][..k];
      DepthInFront(ts, ts', k);
    } else {
      var tail := ts[at..];
      DepthPart(ts, at, tail, k - at);
      DepthPart(ts', at + |mid|, tail, k - at);
    }
  }

  lemma DepthsAround(ts: seq<Token>, at: nat, mid: seq<Token>)
    requires at <= |ts| && Closed(mid)
    ensures var ts' := Replace(ts, at, at, mid);
            && |ts'| == |ts| + |mid|
            && (forall k: nat :: k < at ==> Depth(ts', k) == Depth(ts, k))
            && (forall x :: 0 <= x <= |mid| ==> Depth(ts', at + x) == Depth(ts, at) + Depth(mid, x))
            && (forall k: nat :: at <= k <= |ts| ==> Depth(ts', k + |mid|) == Depth(ts, k))
  {
    hide Depth, Closed, Replace;
    DepthAround(ts, at, mid, at);
    forall k: nat | k <= |ts|
      ensures Depth(Replace(ts, at, at, mid), Shift(k, at, |mid|)) == Depth(ts, k)
    {
      DepthAround(ts, at, mid, k);
    }
    assert forall k: nat :: k < at ==> Shift(k, at, |mid|) == k;
    assert forall k: nat :: at <= k <= |ts| ==> Shift(k, at, |mid|) == k + |mid|;
  }

  // ----- trees -----

  lemma TokensAround(ts: seq<Token>, at: nat, mid: seq<Token>)
    requires at <= |ts|
    ensures var ts' := Replace(ts, at, at, mid);
            && |ts'| == |ts| + |mid| && (forall k: nat :: k < at ==> ts'[k] == ts[k])
            && (forall k: nat :: at <= k < at + |mid| ==> ts'[k] in mid)
            && (forall k: nat :: at + |mid| <= k < |ts'| ==> ts'[k] == ts[k - |mid|])
  {}

  lemma EndsAround(ts: seq<Token>, at: nat, mid: seq<Token>)
    requires at < |ts| && End !in mid
    ensures EndsOnce(Replace(ts, at, at, mid)) <==> EndsOnce(ts)
  {
    hide Replace;
    var ts', n := Replace(ts, at, at, mid), |mid|;
    TokensAround(ts, at, mid);
    if EndsOnce(ts') {
      forall k | 0 <= k < |ts| - 1
        ensures ts[k] != End
      {
        assert if k < at then ts[k] == ts'[k] else ts[k] == ts'[k + n];
      }
    }
  }

  /** What IsTree asks of each token. */
  ghost predicate InRoot(ts: seq<Token>, k: nat)
    requires k < |ts|
  {
    Depth(ts, k) >= 1 || (Depth(ts, k) == 0 && (ts[k].Nop? || ts[k].End?))
  }

  lemma TreeIs(ts: seq<Token>)
    requires |ts| > 0
    ensures IsTree(ts) <==>
              && EndsOnce(ts) && ts[0].BeginNode? && Depth(ts, |ts| - 1) == 0
              && forall k: nat :: 0 < k < |ts| ==> InRoot(ts, k)
  {
    hide EndsOnce, Depth;
    assert forall k: nat :: 0 < k < |ts| ==> (InRoot(ts, k) <==>
        Depth(ts, k) >= 1 || (Depth(ts, k) == 0 && (ts[k].Nop? || ts[k].End?)));
  }

  lemma FirstKept(ts: seq<Token>, at: nat, mid: seq<Token>)
    requires 0 < at < |ts|
    ensures var ts' := Replace(ts, at, at, mid); |ts'| > 0 && ts'[0] == ts[0]
  {}

  lemma InRootAround(ts: seq<Token>, at: nat, mid: seq<Token>)
    requires 0 < at < |ts| && Depth(ts, at) >= 1 && Closed(mid)
    ensures var ts' := Replace(ts, at, at, mid);
            && |ts'| == |ts| + |mid|
            && (forall k: nat :: k < |ts| ==> (InRoot(ts', Shift(k, at, |mid|)) <==> InRoot(ts, k)))
            && (forall k: nat :: at <= k < at + |mid| ==> InRoot(ts', k))
  {
    var ts' := Replace(ts, at, at, mid);
    DepthsAround(ts, at, mid);
    hide Depth;
    forall k: nat | at <= k < at + |mid|
      ensures InRoot(ts', k)
    {
      assert Depth(ts', at + (k - at)) == Depth(ts, at) + Depth(mid, k - at);
    }
  }

  /** A list is a tree if and only if it is one without closed tokens that stand inside its root. */
  lemma InsideTree(ts: seq<Token>, at: nat, mid: seq<Token>)
    requires 0 < at < |ts| && Depth(ts, at) >= 1 && Closed(mid) && End !in mid
    ensures IsTree(Replace(ts, at, at, mid)) <==> IsTree(ts)
  {
    hide Depth, EndsOnce, IsTree, InRoot, Closed, Replace;
    var ts', n := Replace(ts, at, at, mid), |mid|;
    DepthAround(ts, at, mid, |ts| - 1);
    EndsAround(ts, at, mid);
    InRootAround(ts, at, mid);
    FirstKept(ts, at, mid);
    assert Shift(|ts| - 1, at, n) == |ts'| - 1;
    TreeIs(ts);
    TreeIs(ts');
    if IsTree(ts) {
      forall k: nat | 0 < k < |ts'|
        ensures InRoot(ts', k)
      {
        if k < at {
          assert Shift(k, at, n) == k;
        } else if k >= at + n {
          assert Shift(k - n, at, n) == k;
        }
      }
    }
  }

  lemma TokenAround(ts: seq<Token>, at: nat, mid: seq<Token>, k: nat)
    requires at <= |ts| && k < |ts|
    ensures var ts', k' := Replace(ts, at, at, mid), Shift(k, at, |mid|); k' < |ts'| && ts'[k'] == ts[k]
  {}

  lemma ChildAfter(ts: seq<Token>, at: nat, mid: seq<Token>, i: nat, j: nat)
    requires at <= |ts| && Closed(mid) && Child(ts, i, j)
    ensures Child(Replace(ts, at, at, mid), Shift(i, at, |mid|), Shift(j, at, |mid|))
  {
    hide Depth, Replace;
    var ts', n := Replace(ts, at, at, mid), |mid|;
    DepthsAround(ts, at, mid);
    TokenAround(ts, at, mid, i);
    TokenAround(ts, at, mid, j);
    forall k | Shift(i, at, n) < k <= Shift(j, at, n)
      ensures Depth(ts', k) > Depth(ts, i)
    {
      if k >= at + n {
        assert Depth(ts', k - n + n) == Depth(ts, k - n);
      } else if k >= at {
        assert Depth(ts', at + (k - at)) == Depth(ts, at) + Depth(mid, k - at);
      }
    }
  }

  lemma ChildBefore(ts: seq<Token>, at: nat, mid: seq<Token>, i: nat, j: nat)
    requires at <= |ts| && Closed(mid) && i < |ts| && j < |ts|
    requires Child(Replace(ts, at, at, mid), Shift(i, at, |mid|), Shift(j, at, |mid|))
    ensures Child(ts, i, j)
  {
    hide Depth, Replace;
    var ts', n := Replace(ts, at, at, mid), |mid|;
    DepthsAround(ts, at, mid);
    TokenAround(ts, at, mid, i);
    TokenAround(ts, at, mid, j);
    forall k | i < k <= j
      ensures Depth(ts, k) > Depth(ts, i)
    {
      assert Depth(ts', Shift(k, at, n)) == Depth(ts, k);
    }
  }

  /** Putting in closed tokens changes no child of any node. */
  lemma ChildAround(ts: seq<Token>, at: nat, mid: seq<Token>, i: nat, j: nat)
    requires at <= |ts| && Closed(mid) && i < |ts| && j < |ts|
    ensures Child(Replace(ts, at, at, mid), Shift(i, at, |mid|), Shift(j, at, |mid|)) <==> Child(ts, i, j)
  {
    hide Child, Closed, Replace;
    if Child(ts, i, j) {
      ChildAfter(ts, at, mid, i, j);
    } else if Child(Replace(ts, at, at, mid), Shift(i, at, |mid|), Shift(j, at, |mid|)) {
      ChildBefore(ts, at, mid, i, j);
    }
  }

  /** Node `j` of a tree is node `j'` of another tree, with the same name and the same names on the way to it. */
  ghost predicate Kept(ts: seq<Token>, j: nat, ts': seq<Token>, j': nat)
    requires IsTree(ts) && j < |ts| && ts[j].BeginNode?
    ensures Kept(ts, j, ts', j') ==> IsTree(ts') && j' < |ts'| && ts'[j'].BeginNode? && (j > 0 ==> j' > 0)
  {
    && IsTree(ts') && j' < |ts'| && ts'[j'] == ts[j] && NamesTo(ts', j') == NamesTo(ts, j) && (j == 0 <==> j' == 0)
  }

  ghost predicate HasParent(ts: seq<Token>, j: nat, p: nat) {
    IsTree(ts) && 0 < j < |ts| && ts[j].BeginNode? && Parent(ts, j) == p
  }

  /** Parents, and the names on the way from the root, stay what they were. */
  lemma {:induction false} NamesAround(ts: seq<Token>, at: nat, mid: seq<Token>, j: nat)
    requires 0 < at < |ts| && Depth(ts, at) >= 1 && Closed(mid) && End !in mid
    requires IsTree(ts) && j < |ts| && ts[j].BeginNode?
    ensures Kept(ts, j, Replace(ts, at, at, mid), Shift(j, at, |mid|))
    ensures j > 0 ==> HasParent(Replace(ts, at, at, mid), Shift(j, at, |mid|), Shift(Parent(ts, j), at, |mid|))
    decreases j
  {
    hide Depth, Closed, IsTree, Child, Parent, Replace;
    var ts', j' := Replace(ts, at, at, mid), Shift(j, at, |mid|);
    InsideTree(ts, at, mid);
    TokenAround(ts, at, mid, j);
    if j > 0 {
      var p := Parent(ts, j);
      NamesAround(ts, at, mid, p);
      ChildAround(ts, at, mid, p, j);
      OneParent(ts', Parent(ts', j'), Shift(p, at, |mid|), j');
    }
  }

  // ----- the edits -----

  lemma PropIsClosed(t: Token)
    requires t.Prop?
    ensures Closed([t]) && End !in [t]
  {
    assert Depth([t], 1) == 0;
  }

  /** Inside the root there is a place behind every node's token. */
  lemma BehindNode(ts: seq<Token>, node: nat)
    requires IsTree(ts) && node < |ts| && ts[node].BeginNode?
    ensures node + 1 < |ts| && Depth(ts, node + 1) >= 1
  {
    DepthAtNode(ts, node);
  }

  /** A new value of a property changes nothing in the tree. */
  lemma {:induction false} ValueKeepsDepth(ts: seq<Token>, p: nat, t: Token, k: nat)
    requires p < |ts| && ts[p].Prop? && t.Prop? && k <= |ts|
    ensures Depth(ts[p := t], k) == Depth(ts, k)
  {
    if k > 0 {
      ValueKeepsDepth(ts, p, t, k - 1);
    }
  }

  lemma ValueKeepsChild(ts: seq<Token>, p: nat, t: Token, i: nat, j: nat)
    requires p < |ts| && ts[p].Prop? && t.Prop?
    ensures Child(ts[p := t], i, j) <==> Child(ts, i, j)
  {
    hide Depth;
    var ts' := ts[p := t];
    forall k: nat | k <= |ts|
      ensures Depth(ts', k) == Depth(ts, k)
    {
      ValueKeepsDepth(ts, p, t, k);
    }
    assert i < |ts| ==> (ts'[i].BeginNode? <==> ts[i].BeginNode?);
    assert j < |ts| ==> (ts'[j].BeginNode? <==> ts[j].BeginNode?);
  }

  lemma ValueKeepsTree(ts: seq<Token>, p: nat, t: Token)
    requires IsTree(ts) && p < |ts| && ts[p].Prop? && t.Prop?
    ensures IsTree(ts[p := t])
  {
    hide Depth;
    var ts' := ts[p := t];
    forall k: nat | k <= |ts|
      ensures Depth(ts', k) == Depth(ts, k)
    {
      ValueKeepsDepth(ts, p, t, k);
    }
    assert forall k :: 0 <= k < |ts| ==> (ts'[k].Nop? <==> ts[k].Nop?) && (ts'[k].End? <==> ts[k].End?);
  }

  lemma {:induction false} ValueKeepsNames(ts: seq<Token>, p: nat, t: Token, j: nat)
    requires IsTree(ts) && p < |ts| && ts[p].Prop? && t.Prop? && j < |ts| && ts[j].BeginNode?
    ensures Kept(ts, j, ts[p := t], j)
    ensures j > 0 ==> HasParent(ts[p := t], j, Parent(ts, j))
    decreases j
  {
    ValueKeepsTree(ts, p, t);
    hide IsTree, Child, Parent;
    if j > 0 {
      ValueKeepsChild(ts, p, t, Parent(ts[p := t], j), j);
      OneParent(ts, Parent(ts, j), Parent(ts[p := t], j), j);
      ValueKeepsNames(ts, p, t, Parent(ts, j));
    }
  }

  /** After fdt_setprop the tree is what it was. */
  lemma SetpropKeepsTree(ts: seq<Token>, strings: seq<byte>, node: nat, name: seq<byte>, val: seq<byte>,
                         ts': seq<Token>, strings': seq<byte>, j: nat)
    requires IsTree(ts) && node < |ts| && ts[node].BeginNode? && j < |ts| && ts[j].BeginNode?
    requires PropSet(ts, strings, node, name, val, ts', strings')
    ensures Kept(ts, j, ts', NodeNow(ts, strings, node, name, j))
    ensures j > 0 ==>
        HasParent(ts', NodeNow(ts, strings, node, name, j), NodeNow(ts, strings, node, name, Parent(ts, j)))
  {
    hide FindProp, StringAt, IsTree, NamesTo, Parent, Depth, Replace;
    var p := FindProp(ts, strings, node + 1, name);
    if p.At? {
      ValueKeepsNames(ts, p.i, ts'[p.i], j);
    } else {
      PropIsClosed(ts'[node + 1]);
      BehindNode(ts, node);
      NamesAround(ts, node + 1, [ts'[node + 1]], j);
    }
  }

  lemma PutBack(ts: seq<Token>, i: nat, e: nat)
    requires i <= e <= |ts|
    ensures Replace(Replace(ts, i, e, []), i, i, ts[i..e]) == ts
  {
    var ts' := Replace(ts, i, e, []);
    assert ts'[..i] == ts[..i] && ts'[i..] == ts[e..];
  }

  lemma NoEndInside(ts: seq<Token>, i: nat, e: nat)
    requires IsTree(ts) && i <= e < |ts|
    ensures End !in ts[i..e]
  {
    hide Depth;
    forall x | 0 <= x < e - i
      ensures ts[i..e][x] != End
    {
      assert ts[i..e][x] == ts[i + x];
    }
  }

  lemma CutFacts(ts: seq<Token>, i: nat, e: nat, j: nat)
    requires 0 < i <= e < |ts| && j < |ts| && (j < i || e <= j)
    ensures var ts', j' := Replace(ts, i, e, []), Pulled(j, i, e);
            && i < |ts'| && j' < |ts'| && ts'[j'] == ts[j] && Shift(j', i, e - i) == j && Depth(ts', i) == Depth(ts, i)
  {
    hide Depth;
    var ts' := Replace(ts, i, e, []);
    assert ts'[..i] == ts[..i];
    DepthInFront(ts, ts', i);
  }

  /** With tokens [i, e) cut out, node `j` keeps its name, the names on the way to it, and its parent. */
  ghost predicate CutKept(ts: seq<Token>, i: nat, e: nat, j: nat)
    requires IsTree(ts) && i <= e <= |ts| && j < |ts| && ts[j].BeginNode? && (j < i || e <= j)
  {
    && Kept(ts, j, Replace(ts, i, e, []), Pulled(j, i, e))
    && (j > 0 ==> var p := Parent(ts, j);
                  (p < i || e <= p) && HasParent(Replace(ts, i, e, []), Pulled(j, i, e), Pulled(p, i, e)))
  }

  /** Closed tokens cut out from inside the root: what is left keeps its parents and names. */
  lemma CutKeepsTree(ts: seq<Token>, i: nat, e: nat, j: nat)
    requires IsTree(ts) && 0 < i <= e < |ts| && Depth(ts, i) >= 1 && Closed(ts[i..e])
    requires j < |ts| && ts[j].BeginNode? && (j < i || e <= j)
    ensures CutKept(ts, i, e, j)
  {
    hide Depth, IsTree, NamesTo, Parent, Closed, Replace;
    PutBack(ts, i, e);
    NoEndInside(ts, i, e);
    CutFacts(ts, i, e, j);
    InsideTree(Replace(ts, i, e, []), i, ts[i..e]);
    NamesAround(Replace(ts, i, e, []), i, ts[i..e], Pulled(j, i, e));
  }

  lemma PropInside(ts: seq<Token>, p: nat)
    requires IsTree(ts) && p < |ts| && ts[p].Prop?
    ensures 0 < p < |ts| - 1 && Depth(ts, p) >= 1 && Closed(ts[p..p + 1])
  {
    assert ts[p..p + 1] == [ts[p]];
    PropIsClosed(ts[p]);
    hide Depth;
  }

  /** After fdt_delprop the tree is what it was. */
  lemma DelpropKeepsTree(ts: seq<Token>, p: nat, j: nat)
    requires IsTree(ts) && p < |ts| && ts[p].Prop? && j < |ts| && ts[j].BeginNode?
    ensures j != p && CutKept(ts, p, p + 1, j)
  {
    hide Depth, IsTree, NamesTo, Parent, Closed, Replace, CutKept;
    PropInside(ts, p);
    CutKeepsTree(ts, p, p + 1, j);
  }

  lemma NodeIsClosed(ts: seq<Token>, i: nat, e: nat)
    requires EndsAt(ts, i, e)
    ensures Closed(ts[i..e])
  {
    hide Depth;
    var mid := ts[i..e];
    forall x | 0 <= x <= |mid|
      ensures Depth(mid, x) == Depth(ts, i + x) - Depth(ts, i)
    {
      DepthPart(ts, i, mid, x);
    }
    assert Depth(mid, |mid|) == 0;
  }

  /** After fdt_del_node of a node other than the root the tree is what it was, without that node and those below it. */
  lemma DelNodeKeepsTree(ts: seq<Token>, i: nat, j: nat)
    requires IsTree(ts) && 0 < i < |ts| && ts[i].BeginNode? && j < |ts| && ts[j].BeginNode?
    ensures NodeEnd(ts, i + 1, 0).At?
    ensures var e := NodeEnd(ts, i + 1, 0).i;
            j < i || e <= j ==> CutKept(ts, i, e, j)
  {
    hide Depth, IsTree, NamesTo, Parent, Closed, Replace, NodeEnd, CutKept;
    NodeEndIs(ts, i);
    var e := NodeEnd(ts, i + 1, 0).i;
    NodeIsClosed(ts, i, e);
    DepthAtNode(ts, i);
    if j < i || e <= j {
      CutKeepsTree(ts, i, e, j);
    }
  }

  /** Without its root a list is no tree. */
  lemma DelRoot(ts: seq<Token>)
    requires IsTree(ts)
    ensures NodeEnd(ts, 1, 0).At? && !IsTree(Replace(ts, 0, NodeEnd(ts, 1, 0).i, []))
  {
    NodeEndIs(ts, 0);
    var e := NodeEnd(ts, 1, 0).i;
    assert Depth(ts, e) == 0;
    assert Replace(ts, 0, e, [])[0] == ts[e];
  }

  lemma EmptyNodeIsClosed(name: seq<byte>)
    ensures Closed(EmptyNode(name)) && End !in EmptyNode(name)
  {
    hide Zeros, TagAlign;
    var mid := EmptyNode(name);
    assert Depth(mid, 0) == 0 && Depth(mid, 1) == 1;
    assert Depth(mid, 2) == 0;
  }

  lemma {:induction false} LevelAlong(ts: seq<Token>, a: nat, k: nat)
    requires a <= k <= |ts| && forall x :: a <= x < k ==> ts[x].Prop? || ts[x].Nop?
    ensures Depth(ts, k) == Depth(ts, a)
  {
    if a < k {
      LevelAlong(ts, a, k - 1);
    }
  }

  /** The place of a new subnode is inside its parent, with nothing but properties and NOPs in between. */
  lemma SubnodePlace(ts: seq<Token>, i: nat)
    requires IsTree(ts) && i < |ts| && ts[i].BeginNode?
    ensures var k := PropsEnd(ts, i + 1);
            && i < k < |ts| && Depth(ts, k) == Depth(ts, i) + 1 >= 1
            && forall x :: i < x <= k ==> Depth(ts, x) == Depth(ts, i) + 1
  {
    hide PropsEnd;
    DepthAtNode(ts, i);
    var k := PropsEnd(ts, i + 1);
    assert k < |ts| by {
      assert ts[|ts| - 1] == End;
    }
    hide Depth, IsTree;
    forall x | i < x <= k
      ensures Depth(ts, x) == Depth(ts, i) + 1
    {
      LevelAlong(ts, i + 1, x);
    }
  }

  /** After fdt_add_subnode every node keeps its parent and names, and the new node has the parent asked for. */
  lemma AddSubnodeKeepsTree(ts: seq<Token>, i: nat, name: seq<byte>, j: nat)
    requires IsTree(ts) && i < |ts| && ts[i].BeginNode? && j < |ts| && ts[j].BeginNode?
    ensures var k := PropsEnd(ts, i + 1);
            && k <= |ts| && Kept(ts, j, Replace(ts, k, k, EmptyNode(name)), Shift(j, k, 2))
            && (j > 0 ==> HasParent(Replace(ts, k, k, EmptyNode(name)), Shift(j, k, 2), Shift(Parent(ts, j), k, 2)))
  {
    hide Depth, IsTree, NamesTo, Parent, Closed, Replace, PropsEnd;
    SubnodePlace(ts, i);
    EmptyNodeIsClosed(name);
    NamesAround(ts, PropsEnd(ts, i + 1), EmptyNode(name), j);
  }

  lemma NewTokens(ts: seq<Token>, i: nat, k: nat, name: seq<byte>)
    requires i < k < |ts|
    ensures var ts' := Replace(ts, k, k, EmptyNode(name));
            k < |ts'| && ts'[i] == ts[i] && ts'[k].BeginNode? && ts'[k].name == name
  {
    hide Zeros, TagAlign;
  }

  lemma NewChild(ts: seq<Token>, i: nat, name: seq<byte>)
    requires IsTree(ts) && i < |ts| && ts[i].BeginNode?
    ensures PropsEnd(ts, i + 1) < |ts|
    ensures Child(Replace(ts, PropsEnd(ts, i + 1), PropsEnd(ts, i + 1), EmptyNode(name)), i, PropsEnd(ts, i + 1))
  {
    hide IsTree, PropsEnd, Depth, Closed, Replace, EmptyNode;
    var k, mid := PropsEnd(ts, i + 1), EmptyNode(name);
    SubnodePlace(ts, i);
    EmptyNodeIsClosed(name);
    NewTokens(ts, i, k, name);
    DepthsAround(ts, k, mid);
    DepthZero(mid);
    assert Depth(Replace(ts, k, k, mid), k + 0) == Depth(ts, k) + Depth(mid, 0);
  }

  /** The new node is a child of its parent, and its name is the last one on the way from the root. */
  lemma NewNode(ts: seq<Token>, i: nat, name: seq<byte>)
    requires IsTree(ts) && i < |ts| && ts[i].BeginNode?
    ensures var k := PropsEnd(ts, i + 1);
            && 0 < k < |ts| && HasParent(Replace(ts, k, k, EmptyNode(name)), k, i)
            && NamesTo(Replace(ts, k, k, EmptyNode(name)), k) == NamesTo(ts, i) + [name]
  {
    hide Depth, IsTree, Parent, PropsEnd, Replace, Child, EmptyNode;
    var k := PropsEnd(ts, i + 1);
    SubnodePlace(ts, i);
    NewChild(ts, i, name);
    AddSubnodeKeepsTree(ts, i, name, i);
    NewTokens(ts, i, k, name);
    OneParent(Replace(ts, k, k, EmptyNode(name)), i, Parent(Replace(ts, k, k, EmptyNode(name)), k), k);
  }
}
