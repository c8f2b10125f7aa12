/**
 NOPs carry no meaning: children, parents and paths of a list of tokens are those of the list without its NOPs
 (lib/libfdt/fdt_ro.c, lib/libfdt/fdt_wip.c).
 */
module FdtNops {
  import opened Wrappers
  import opened Memory
  import opened FdtFormat
  import opened FdtTokens
  import opened FdtTree
  import opened FdtNav
  import opened FdtPathSpec
  import opened FdtRw

  /** Where token `k` is in the list without NOPs. */
  function Rank(ts: seq<Token>, k: nat): nat
    requires k <= |ts|
  {
    |Strip(ts[..k])|
  }

  lemma RankEnds(ts: seq<Token>)
    ensures Rank(ts, 0) == 0 && Rank(ts, |ts|) == |Strip(ts)|
  {
    assert ts[..|ts|] == ts;
  }

  lemma RankStep(ts: seq<Token>, k: nat)
    requires k < |ts|
    ensures Rank(ts, k + 1) == Rank(ts, k) + if ts[k].Nop? then 0 else 1
    ensures !ts[k].Nop? ==> Rank(ts, k) < |Strip(ts)| && Strip(ts)[Rank(ts, k)] == ts[k]
  {
    var one := [ts[k]];
    assert Strip(one) == if ts[k].Nop? then [] else one;
    assert ts[..k + 1] == ts[..k] + one;
    StripConcat(ts[..k], one);
    assert ts == ts[..k + 1] + ts[k + 1..];
    StripConcat(ts[..k + 1], ts[k + 1..]);
  }

  lemma {:induction false} RankMono(ts: seq<Token>, a: nat, b: nat)
    requires a <= b <= |ts|
    ensures Rank(ts, a) <= Rank(ts, b)
  {
    hide Rank;
    if a < b {
      RankMono(ts, a, b - 1);
      RankStep(ts, b - 1);
    }
  }

  lemma {:induction false} DepthRanked(ts: seq<Token>, k: nat)
    requires k <= |ts|
    ensures Rank(ts, k) <= |Strip(ts)| && Depth(Strip(ts), Rank(ts, k)) == Depth(ts, k)
  {
    hide Rank, Strip;
    RankEnds(ts);
    if k > 0 {
      DepthRanked(ts, k - 1);
      RankStep(ts, k - 1);
    }
  }

  /** Every token of the list without NOPs is one of the list. */
  lemma {:induction false} Unranked(ts: seq<Token>, x: nat, n: nat) returns (k: nat)
    requires n <= |ts| && x < Rank(ts, n)
    ensures k < n && !ts[k].Nop? && Rank(ts, k) == x
  {
    hide Rank, Strip;
    RankEnds(ts);
    RankStep(ts, n - 1);
    if x < Rank(ts, n - 1) {
      k := Unranked(ts, x, n - 1);
    } else {
      k := n - 1;
    }
  }

  /** Without its NOPs a tree is a tree. */
  lemma StripIsTree(ts: seq<Token>)
    requires IsTree(ts)
    ensures IsTree(Strip(ts))
  {
    var r, last := Strip(ts), |ts| - 1;
    hide Depth, Strip, Rank;
    RankEnds(ts);
    RankStep(ts, 0);
    RankStep(ts, last);
    DepthRanked(ts, last);
    forall x | 0 <= x < |r|
      ensures x < |r| - 1 ==> r[x] != End
      ensures 0 < x ==> Depth(r, x) >= 1 || (Depth(r, x) == 0 && (r[x].Nop? || r[x].End?))
    {
      var k := Unranked(ts, x, |ts|);
      RankStep(ts, k);
      DepthRanked(ts, k);
    }
  }

  // ----- children -----

  function RankedNode(ts: seq<Token>, r: Option<nat>): Option<nat>
    requires r.Some? ==> r.value <= |ts|
  {
    if r.Some? then Some(Rank(ts, r.value)) else None
  }

  /** fdt_first_subnode and fdt_next_subnode find the same nodes. */
  lemma {:induction false} SubnodeRanked(ts: seq<Token>, k: nat, depth: int)
    requires k <= |ts|
    ensures Subnode(Strip(ts), Rank(ts, k), depth) == RankedNode(ts, Subnode(ts, k, depth))
    decreases |ts| - k
  {
    hide Rank, Strip;
    RankEnds(ts);
    if k < |ts| {
      RankStep(ts, k);
      match ts[k]
      case BeginNode(_, _) => if depth != 0 { SubnodeRanked(ts, k + 1, depth + 1); }
      case EndNode => if depth > 0 { SubnodeRanked(ts, k + 1, depth - 1); }
      case End =>
      case _ => SubnodeRanked(ts, k + 1, depth);
    }
  }

  // ----- parents -----

  lemma {:induction false} LastRanked(ts: seq<Token>, k: nat, stop: nat, level: int, last: Option<nat>)
    requires k <= stop + 1 <= |ts| && !ts[stop].Nop? && (last.Some? ==> last.value <= |ts|)
    ensures Rank(ts, stop) < |Strip(ts)|
    ensures LastAt(Strip(ts), Rank(ts, k), Rank(ts, stop), level, RankedNode(ts, last)) ==
              RankedNode(ts, LastAt(ts, k, stop, level, last))
    decreases stop + 1 - k
  {
    hide Rank, Strip, Depth;
    RankStep(ts, stop);
    if k <= stop {
      RankStep(ts, k);
      RankMono(ts, k, stop);
      DepthRanked(ts, k);
      LastRanked(ts, k + 1, stop, level, if ts[k].BeginNode? && Depth(ts, k) == level then Some(k) else last);
    }
  }

  /** fdt_parent_offset finds the same node. */
  lemma ParentRanked(ts: seq<Token>, j: nat)
    requires IsTree(ts) && 0 < j < |ts| && ts[j].BeginNode?
    ensures IsTree(Strip(ts)) && 0 < Rank(ts, j) < |Strip(ts)| && Strip(ts)[Rank(ts, j)] == ts[j]
    ensures Parent(Strip(ts), Rank(ts, j)) == Rank(ts, Parent(ts, j))
  {
    StripIsTree(ts);
    ParentIs(ts, j);
    hide Rank, Strip, Depth, LastAt;
    RankEnds(ts);
    RankStep(ts, 0);
    RankMono(ts, 1, j);
    RankStep(ts, j);
    DepthRanked(ts, j);
    LastRanked(ts, 0, j, Depth(ts, j) - 1, None);
  }

  /** The names from the root to a node are the same. */
  lemma {:induction false} NamesRanked(ts: seq<Token>, j: nat)
    requires IsTree(ts) && j < |ts| && ts[j].BeginNode?
    ensures IsTree(Strip(ts)) && Rank(ts, j) < |Strip(ts)| && Strip(ts)[Rank(ts, j)] == ts[j]
    ensures NamesTo(Strip(ts), Rank(ts, j)) == NamesTo(ts, j)
    decreases j
  {
    hide Rank, Strip, IsTree, Parent;
    if j == 0 {
      StripIsTree(ts);
      RankEnds(ts);
      RankStep(ts, 0);
    } else {
      ParentRanked(ts, j);
      NamesRanked(ts, Parent(ts, j));
    }
  }

  // ----- paths -----

  function Ranked(ts: seq<Token>, r: Found): Found
    requires r.At? ==> r.i <= |ts|
  {
    if r.At? then At(Rank(ts, r.i)) else r
  }

  /** fdt_subnode_offset finds the same node, or fails with the same error. */
  lemma {:induction false} SubnodeNamedRanked(ts: seq<Token>, k: nat, depth: int, s: seq<byte>)
    requires k <= |ts|
    ensures SubnodeNamed(Strip(ts), Rank(ts, k), depth, s) == Ranked(ts, SubnodeNamed(ts, k, depth, s))
    decreases |ts| - k
  {
    hide Rank, Strip, NameMatches;
    RankEnds(ts);
    if k < |ts| {
      RankStep(ts, k);
      match ts[k]
      case BeginNode(name, _) => if depth != 0 || !NameMatches(name, s) { SubnodeNamedRanked(ts, k + 1, depth + 1, s); }
      case EndNode => if depth > 0 { SubnodeNamedRanked(ts, k + 1, depth - 1, s); }
      case End =>
      case _ => SubnodeNamedRanked(ts, k + 1, depth, s);
    }
  }

  /** fdt_path_offset finds the same node, or fails with the same error. */
  lemma {:induction false} PathRanked(ts: seq<Token>, node: nat, path: seq<byte>, p: nat)
    requires node < |ts| && ts[node].BeginNode? && p <= |path|
    ensures var r := PathFrom(ts, node, path, p); r.At? ==> r.i < |ts| && ts[r.i].BeginNode?
    ensures PathFrom(Strip(ts), Rank(ts, node), path, p) == Ranked(ts, PathFrom(ts, node, path, p))
    decreases |path| - p
  {
    hide Rank, Strip, SubnodeNamed, SkipSlashes, ComponentEnd;
    var q := SkipSlashes(path, p);
    if q < |path| {
      var e := ComponentEnd(path, q);
      RankStep(ts, node);
      SubnodeNamedRanked(ts, node + 1, 0, path[q..e]);
      var c := SubnodeNamed(ts, node + 1, 0, path[q..e]);
      if c.At? {
        PathRanked(ts, c.i, path, e);
      }
    }
  }

  /** After either way of deleting a node, a path leads to the same node or fails with the same error. */
  lemma DeletionsFindAlike(ts: seq<Token>, i: nat, j: nat, path: seq<byte>)
    requires AllOk(ts) && 0 < i <= j <= |ts| && ts[0].BeginNode?
    ensures var a, b := NoppedOut(ts, i, j), Replace(ts, i, j, []);
            && var x, y := PathFrom(a, 0, path, 0), PathFrom(b, 0, path, 0);
               && (x.At? ==> x.i < |a|) && (y.At? ==> y.i < |b|) && Ranked(a, x) == Ranked(b, y)
               && (x.At? ==> a[x.i] == b[y.i])
  {
    DeletionsAgree(ts, i, j, 0);
    var a, b := NoppedOut(ts, i, j), Replace(ts, i, j, []);
    assert a[0] == ts[0] == b[0];
    hide PathFrom, Rank, Strip, NoppedOut, Replace;
    RankEnds(a);
    RankEnds(b);
    PathRanked(a, 0, path, 0);
    PathRanked(b, 0, path, 0);
    var x, y := PathFrom(a, 0, path, 0), PathFrom(b, 0, path, 0);
    if x.At? {
      RankStep(a, x.i);
      RankStep(b, y.i);
    }
  }
}
