/**
 Parents and paths of nodes (lib/libfdt/fdt_ro.c).
 */
module FdtPathSpec {
  import opened Wrappers
  import opened Memory
  import opened FdtFormat
  import opened FdtSwSpec
  import opened FdtTokens
  import opened FdtTree
  import opened FdtNav

  const SLASH: byte := 0x2f

  // ----- the first child with a name -----

  /** A node at depth `level`, before the depth falls below it, whose name matches. */
  ghost predicate MatchAtLevel(ts: seq<Token>, k: nat, level: int, s: seq<byte>, j: nat) {
    NextAtLevel(ts, k, level, j) && NameMatches(ts[j].name, s)
  }

  lemma AtLevel(ts: seq<Token>, k: nat, level: int)
    ensures NextAtLevel(ts, k, level, k) ==> k < |ts| && ts[k].BeginNode? && Depth(ts, k) == level
  {}

  lemma NarrowMatch(ts: seq<Token>, k: nat, level: int, s: seq<byte>)
    requires k + 1 < |ts| && Depth(ts, k) >= level
    requires !(ts[k].BeginNode? && Depth(ts, k) == level && NameMatches(ts[k].name, s))
    ensures forall j: nat :: MatchAtLevel(ts, k + 1, level, s, j) <==> MatchAtLevel(ts, k, level, s, j)
  {
    hide Depth, NameMatches, NextAtLevel;
    Narrow(ts, k, level);
    forall j: nat
      ensures MatchAtLevel(ts, k + 1, level, s, j) <==> MatchAtLevel(ts, k, level, s, j)
    {
      AtLevel(ts, k, level);
    }
  }

  lemma {:induction false} SubnodeNamedScan(ts: seq<Token>, k: nat, depth: int, level: int, s: seq<byte>)
    requires EndsOnce(ts) && k < |ts| && depth >= 0 && Depth(ts, k) == level + depth
    ensures var r := SubnodeNamed(ts, k, depth, s);
            && (if r.At? then MatchAtLevel(ts, k, level, s, r.i) else r.code == -FDT_ERR_NOTFOUND)
            && (forall j: nat :: MatchAtLevel(ts, k, level, s, j) ==> r.At? && r.i <= j)
    decreases |ts| - k
  {
    hide NameMatches;
    if ts[k].BeginNode? {
      if !(depth == 0 && NameMatches(ts[k].name, s)) {
        SubnodeNamedScan(ts, k + 1, depth + 1, level, s);
        NarrowMatch(ts, k, level, s);
      }
    } else if ts[k].EndNode? {
      if depth > 0 {
        SubnodeNamedScan(ts, k + 1, depth - 1, level, s);
        NarrowMatch(ts, k, level, s);
      } else if k + 1 < |ts| {
        assert Depth(ts, k + 1) < level;
      }
    } else if ts[k] != End {
      SubnodeNamedScan(ts, k + 1, depth, level, s);
      NarrowMatch(ts, k, level, s);
    }
  }

  /** fdt_subnode_offset_namelen gives the first child whose name matches, and NOTFOUND exactly if there is none. */
  lemma NamedChild(ts: seq<Token>, i: nat, s: seq<byte>)
    requires IsTree(ts) && i < |ts| && ts[i].BeginNode?
    ensures var r := SubnodeNamed(ts, i + 1, 0, s);
            && (if r.At? then Child(ts, i, r.i) && NameMatches(ts[r.i].name, s) else r.code == -FDT_ERR_NOTFOUND)
            && (forall j: nat :: Child(ts, i, j) && NameMatches(ts[j].name, s) ==> r.At? && r.i <= j)
  {
    hide SubnodeNamed, Depth, EndsOnce, NameMatches;
    DepthAtNode(ts, i);
    SubnodeNamedScan(ts, i + 1, 0, Depth(ts, i) + 1, s);
    forall j: nat | Child(ts, i, j) && NameMatches(ts[j].name, s)
      ensures MatchAtLevel(ts, i + 1, Depth(ts, i) + 1, s, j)
    {
    }
  }

  // ----- names from the root -----

  /** The parent of a node other than the root: what fdt_parent_offset returns. */
  ghost function Parent(ts: seq<Token>, j: nat): (p: nat)
    requires IsTree(ts) && 0 < j < |ts| && ts[j].BeginNode?
    ensures Child(ts, p, j) && p < j && ts[p].BeginNode?
  {
    ParentIs(ts, j);
    LastAt(ts, 0, j, Depth(ts, j) - 1, None).value
  }

  /** The names on the way from the root, which has no name, to node `j`. */
  ghost function NamesTo(ts: seq<Token>, j: nat): seq<seq<byte>>
    requires IsTree(ts) && j < |ts| && ts[j].BeginNode?
  {
    if j == 0 then [] else NamesTo(ts, Parent(ts, j)) + [ts[j].name]
  }

  /** The node that a list of names leads to, from `node`. */
  function Resolve(ts: seq<Token>, node: nat, names: seq<seq<byte>>): Found
    decreases |names|
  {
    if names == [] then At(node)
    else
      var c := SubnodeNamed(ts, node + 1, 0, names[0]);
      if c.Error? then c else Resolve(ts, c.i, names[1..])
  }

  lemma {:induction false} ResolveLast(ts: seq<Token>, node: nat, names: seq<seq<byte>>, last: seq<byte>)
    ensures Resolve(ts, node, names + [last]) ==
              var b := Resolve(ts, node, names); if b.Error? then b else SubnodeNamed(ts, b.i + 1, 0, last)
    decreases |names|
  {
    hide SubnodeNamed;
    if names == [] {
      assert (names + [last])[1..] == [];
    } else {
      assert (names + [last])[1..] == names[1..] + [last] && (names + [last])[0] == names[0];
      var c := SubnodeNamed(ts, node + 1, 0, names[0]);
      if c.At? {
        ResolveLast(ts, c.i, names[1..], last);
      }
    }
  }

  lemma {:induction false} ResolveIsNode(ts: seq<Token>, node: nat, names: seq<seq<byte>>)
    requires node < |ts| && ts[node].BeginNode?
    ensures var b := Resolve(ts, node, names); b.At? ==> b.i < |ts| && ts[b.i].BeginNode?
    decreases |names|
  {
    hide SubnodeNamed;
    if names != [] {
      var c := SubnodeNamed(ts, node + 1, 0, names[0]);
      if c.At? {
        ResolveIsNode(ts, c.i, names[1..]);
      }
    }
  }

  /** No child of `p` before `j` has a name that matches the name of `j`. */
  ghost predicate FirstMatch(ts: seq<Token>, p: nat, j: nat)
    requires j < |ts| && ts[j].BeginNode?
  {
    forall c: nat :: Child(ts, p, c) && c < j ==> !NameMatches(ts[c].name, ts[j].name)
  }

  /** No earlier sibling of `j`, or of one of its ancestors, matches the name of the later one. */
  ghost predicate Unambiguous(ts: seq<Token>, j: nat)
    requires IsTree(ts) && j < |ts| && ts[j].BeginNode?
  {
    j == 0 || (Unambiguous(ts, Parent(ts, j)) && FirstMatch(ts, Parent(ts, j), j))
  }

  lemma SelfMatch(s: seq<byte>)
    ensures NameMatches(s, s)
  {}

  /**
   Whatever node the search starts from, it finds `j` just when it starts at the parent and nothing matches earlier.
   */
  lemma FindsChild(ts: seq<Token>, b: nat, j: nat)
    requires IsTree(ts) && 0 < j < |ts| && ts[j].BeginNode? && b < |ts| && ts[b].BeginNode?
    ensures SubnodeNamed(ts, b + 1, 0, ts[j].name) == At(j) <==> b == Parent(ts, j) && FirstMatch(ts, b, j)
  {
    var p, s := Parent(ts, j), ts[j].name;
    hide SubnodeNamed, Parent, NameMatches, Child, IsTree;
    SelfMatch(s);
    NamedChild(ts, b, s);
    if SubnodeNamed(ts, b + 1, 0, s) == At(j) {
      OneParent(ts, b, p, j);
    }
  }

  lemma RootFirst(ts: seq<Token>)
    requires IsTree(ts)
    ensures |ts| > 0 && ts[0].BeginNode?
  {}

  /** The names of a node lead back to it if and only if no earlier sibling on the way matches. */
  lemma {:induction false} NamesLeadBack(ts: seq<Token>, j: nat)
    requires IsTree(ts) && j < |ts| && ts[j].BeginNode?
    ensures Resolve(ts, 0, NamesTo(ts, j)) == At(j) <==> Unambiguous(ts, j)
    decreases j
  {
    hide SubnodeNamed, Parent, FirstMatch, Child, IsTree;
    if j > 0 {
      var p, s := Parent(ts, j), ts[j].name;
      NamesLeadBack(ts, p);
      RootFirst(ts);
      ResolveLast(ts, 0, NamesTo(ts, p), s);
      ResolveIsNode(ts, 0, NamesTo(ts, p));
      var b := Resolve(ts, 0, NamesTo(ts, p));
      if b.At? {
        FindsChild(ts, b.i, j);
      }
    }
  }

  // ----- the names that are open at a token -----

  /** The names of the nodes that are open before token `k`, outermost first. */
  function Stack(ts: seq<Token>, k: nat): seq<seq<byte>>
    requires k <= |ts|
  {
    if k == 0 then []
    else
      var s := Stack(ts, k - 1);
      match ts[k - 1]
      case BeginNode(name, _) => s + [name]
      case EndNode => if s == [] then [] else s[..|s| - 1]
      case _ => s
  }

  lemma {:induction false} StackSize(ts: seq<Token>, k: nat)
    requires IsTree(ts) && k < |ts|
    ensures |Stack(ts, k)| == Depth(ts, k)
  {
    if k > 0 {
      StackSize(ts, k - 1);
    }
  }

  lemma StackStep(ts: seq<Token>, k: nat, d: nat)
    requires 0 < k <= |ts| && |Stack(ts, k - 1)| >= d && |Stack(ts, k)| >= d
    ensures Stack(ts, k)[..d] == Stack(ts, k - 1)[..d]
  {
    var s := Stack(ts, k - 1);
    match ts[k - 1]
    case BeginNode(name, _) => assert (s + [name])[..d] == s[..d];
    case EndNode => assert s != [] ==> s[..|s| - 1][..d] == s[..d];
    case _ =>
  }

  /** While the depth stays at `d` or above, the outer `d` names stay. */
  lemma {:induction false} StackKept(ts: seq<Token>, a: nat, k: nat, d: nat)
    requires IsTree(ts) && a <= k < |ts| && forall x :: a <= x <= k ==> Depth(ts, x) >= d
    ensures |Stack(ts, a)| >= d && |Stack(ts, k)| >= d && Stack(ts, k)[..d] == Stack(ts, a)[..d]
    decreases k - a
  {
    hide IsTree, Depth, Stack;
    StackSize(ts, a);
    StackSize(ts, k);
    if a < k {
      StackSize(ts, k - 1);
      StackKept(ts, a, k - 1, d);
      StackStep(ts, k, d);
    }
  }

  lemma StackOfChild(ts: seq<Token>, p: nat, j: nat)
    requires IsTree(ts) && Child(ts, p, j)
    ensures Stack(ts, j) == Stack(ts, p + 1)
  {
    hide Depth, EndsOnce, Stack;
    var d := Depth(ts, p) + 1;
    DepthAtNode(ts, p);
    StackKept(ts, p + 1, j, d);
    StackSize(ts, j);
    StackSize(ts, p + 1);
  }

  /** With a nameless root, the open names are those that lead to the node. */
  lemma {:induction false} StackIsNames(ts: seq<Token>, j: nat)
    requires IsTree(ts) && j < |ts| && ts[j].BeginNode?
    ensures Stack(ts, j + 1) == [ts[0].name] + NamesTo(ts, j)
    decreases j
  {
    if j == 0 {
      assert Stack(ts, 0) == [];
    } else {
      var p := Parent(ts, j);
      StackIsNames(ts, p);
      StackOfChild(ts, p, j);
    }
  }

  // ----- paths as strings -----

  /** Each name, followed by a slash. */
  function Render(names: seq<seq<byte>>): seq<byte> {
    if names == [] then [] else Render(names[..|names| - 1]) + names[|names| - 1] + [SLASH]
  }

  lemma RenderAppend(names: seq<seq<byte>>, n: seq<byte>)
    ensures Render(names + [n]) == Render(names) + n + [SLASH]
  {
    assert (names + [n])[..|names|] == names;
  }

  lemma {:induction false} RenderPrefix(names: seq<seq<byte>>, k: nat)
    requires k <= |names|
    ensures |Render(names[..k])| + (|names| - k) <= |Render(names)|
    decreases |names|
  {
    if k < |names| {
      var front := names[..|names| - 1];
      RenderPrefix(front, k);
      assert front[..k] == names[..k];
    } else {
      assert names[..k] == names;
    }
  }

  /** Each name, preceded by a slash. */
  function Join(names: seq<seq<byte>>): seq<byte> {
    if names == [] then [] else [SLASH] + names[0] + Join(names[1..])
  }

  /** The path of the node that the names lead to. */
  function PathString(names: seq<seq<byte>>): seq<byte> {
    if names == [] then [SLASH] else Join(names)
  }

  /** "/", "/a" and "/a/b". */
  lemma PathText()
    ensures PathString([]) == [0x2f] && PathString([[0x61]]) == [0x2f, 0x61]
    ensures PathString([[0x61], [0x62]]) == [0x2f, 0x61, 0x2f, 0x62]
  {
    assert [[0x61], [0x62]][1..] == [[0x62]];
    assert Join([[0x62]]) == [0x2f, 0x62];
  }

  lemma {:induction false} RenderFront(x: seq<byte>, names: seq<seq<byte>>)
    ensures Render([x] + names) == x + [SLASH] + Render(names)
    decreases |names|
  {
    if names == [] {
      RenderAppend([], x);
      assert [] + [x] == [x] + names;
    } else {
      var front, n := names[..|names| - 1], names[|names| - 1];
      assert [x] + names == ([x] + front) + [n];
      RenderAppend([x] + front, n);
      RenderFront(x, front);
      assert x + [SLASH] + Render(front) + n + [SLASH] == x + [SLASH] + (Render(front) + n + [SLASH]);
    }
  }

  lemma {:induction false} RenderJoin(names: seq<seq<byte>>)
    ensures [SLASH] + Render(names) == Join(names) + [SLASH]
    decreases |names|
  {
    if names != [] {
      hide Render;
      RenderFront(names[0], names[1..]);
      assert names == [names[0]] + names[1..];
      RenderJoin(names[1..]);
      assert [SLASH] + (names[0] + [SLASH] + Render(names[1..])) == [SLASH] + names[0] + ([SLASH] + Render(names[1..]));
      assert [SLASH] + names[0] + (Join(names[1..]) + [SLASH]) == [SLASH] + names[0] + Join(names[1..]) + [SLASH];
    }
  }

  /** What fdt_get_path writes is the path and, except for the root, one more slash. */
  lemma RenderIsPath(names: seq<seq<byte>>)
    ensures Render([[]] + names) == (if names == [] then [SLASH] else Join(names) + [SLASH])
  {
    RenderFront([], names);
    RenderJoin(names);
    assert [] + [SLASH] + Render(names) == [SLASH] + Render(names);
  }

  // ----- fdt_path_offset -----

  function SkipSlashes(path: seq<byte>, p: nat): (q: nat)
    requires p <= |path|
    ensures p <= q <= |path| && (q < |path| ==> path[q] != SLASH)
    decreases |path| - p
  {
    if p < |path| && path[p] == SLASH then SkipSlashes(path, p + 1) else p
  }

  /** The end of the component at `p`: the next slash or the end of the path. */
  function ComponentEnd(path: seq<byte>, p: nat): (q: nat)
    requires p <= |path|
    ensures p <= q <= |path|
    ensures p < |path| && path[p] != SLASH ==> p < q
    decreases |path| - p
  {
    if p < |path| && path[p] != SLASH then ComponentEnd(path, p + 1) else p
  }

  /** The loop of fdt_path_offset from position `p` of `path` and node `node`. */
  function PathFrom(ts: seq<Token>, node: nat, path: seq<byte>, p: nat): (r: Found)
    requires p <= |path|
    ensures r.Error? ==> r.code < 0
    decreases |path| - p
  {
    var q := SkipSlashes(path, p);
    if q == |path| then At(node)
    else
      var e := ComponentEnd(path, q);
      var c := SubnodeNamed(ts, node + 1, 0, path[q..e]);
      if c.Error? then c else PathFrom(ts, c.i, path, e)
  }

  /** Names that a path can hold: not empty and without a slash. */
  predicate PathNames(names: seq<seq<byte>>) {
    forall i :: 0 <= i < |names| ==> names[i] != [] && SLASH !in names[i]
  }

  lemma {:induction false} ComponentEndIs(path: seq<byte>, q: nat, n: seq<byte>)
    requires SLASH !in n && q + |n| <= |path| && path[q..q + |n|] == n && (q + |n| < |path| ==> path[q + |n|] == SLASH)
    ensures ComponentEnd(path, q) == q + |n|
    decreases |n|
  {
    if n != [] {
      assert path[q] == path[q..q + |n|][0] == n[0] && n[0] in n;
      assert path[q + 1..q + 1 + |n[1..]|] == path[q..q + |n|][1..] == n[1..];
      ComponentEndIs(path, q + 1, n[1..]);
    }
  }

  lemma PathFromEnd(ts: seq<Token>, node: nat, path: seq<byte>, p: nat)
    requires p <= |path| && path[p..] == []
    ensures PathFrom(ts, node, path, p) == At(node)
  {
    assert p == |path|;
  }

  lemma PathFromStep(ts: seq<Token>, node: nat, path: seq<byte>, p: nat, n: seq<byte>)
    requires p + 1 + |n| <= |path| && n != [] && path[p + 1..p + 1 + |n|] == n
    requires SkipSlashes(path, p) == p + 1 && ComponentEnd(path, p + 1) == p + 1 + |n|
    ensures PathFrom(ts, node, path, p) ==
              var c := SubnodeNamed(ts, node + 1, 0, n); if c.Error? then c else PathFrom(ts, c.i, path, p + 1 + |n|)
  {
    hide SubnodeNamed, ComponentEnd, SkipSlashes;
  }

  lemma JoinStart(names: seq<seq<byte>>)
    ensures Join(names) != [] ==> Join(names)[0] == SLASH
  {}

  /** Past the slash at `p`, the next component is `n`. */
  lemma NextComponent(path: seq<byte>, p: nat, n: seq<byte>, rest: seq<seq<byte>>)
    requires n != [] && SLASH !in n && p + 1 + |n| <= |path| && path[p] == SLASH && path[p + 1..p + 1 + |n|] == n
    requires path[p + 1] == n[0] && path[p + 1 + |n|..] == Join(rest)
    ensures SkipSlashes(path, p) == p + 1 && ComponentEnd(path, p + 1) == p + 1 + |n|
  {
    assert n[0] in n;
    JoinStart(rest);
    assert p + 1 + |n| < |path| ==> path[p + 1 + |n|] == path[p + 1 + |n|..][0];
    ComponentEndIs(path, p + 1, n);
  }

  lemma JoinParts(path: seq<byte>, p: nat, n: seq<byte>, rest: seq<byte>)
    requires p <= |path| && path[p..] == [SLASH] + n + rest && n != []
    ensures p + 1 + |n| <= |path| && path[p] == SLASH && path[p + 1..p + 1 + |n|] == n && path[p + 1 + |n|..] == rest
    ensures path[p + 1] == n[0]
  {
    var all := [SLASH] + n + rest;
    assert |path| - p == |all|;
    assert path[p] == path[p..][0];
    assert path[p + 1] == path[p..][1];
    assert path[p + 1..p + 1 + |n|] == path[p..][1..1 + |n|];
    assert path[p + 1 + |n|..] == path[p..][1 + |n|..];
  }

  /** The loop over a path finds the node that its names lead to. */
  lemma {:induction false} PathFromJoin(ts: seq<Token>, node: nat, path: seq<byte>, p: nat, names: seq<seq<byte>>)
    requires PathNames(names) && p <= |path| && path[p..] == Join(names)
    ensures PathFrom(ts, node, path, p) == Resolve(ts, node, names)
    decreases |names|
  {
    hide SubnodeNamed, ComponentEnd, SkipSlashes, PathFrom;
    if names == [] {
      PathFromEnd(ts, node, path, p);
    } else {
      var n, rest := names[0], names[1..];
      JoinParts(path, p, n, Join(rest));
      NextComponent(path, p, n, rest);
      PathFromStep(ts, node, path, p, n);
      var c := SubnodeNamed(ts, node + 1, 0, n);
      if c.At? {
        PathFromJoin(ts, c.i, path, p + 1 + |n|, rest);
      }
    }
  }

  /** fdt_path_offset of the path of `j` is `j` if and only if no earlier sibling on the way matches. */
  lemma PathLeadsBack(ts: seq<Token>, j: nat)
    requires IsTree(ts) && j < |ts| && ts[j].BeginNode? && PathNames(NamesTo(ts, j))
    ensures PathFrom(ts, 0, PathString(NamesTo(ts, j)), 0) == At(j) <==> Unambiguous(ts, j)
  {
    var names := NamesTo(ts, j);
    var path := PathString(names);
    NamesLeadBack(ts, j);
    hide IsTree, NamesTo, Unambiguous, SubnodeNamed;
    if names == [] {
      assert path == [SLASH];
      assert SkipSlashes(path, 0) == SkipSlashes(path, 1) == 1;
    } else {
      assert path[0..] == Join(names);
      PathFromJoin(ts, 0, path, 0, names);
    }
  }

  /** A root with the children "a@1" and "a". */
  const TWINS: seq<Token> :=
    [BeginNode([], [0, 0, 0]), BeginNode([0x61, AT_SIGN, 0x31], []), EndNode,
     BeginNode([0x61], [0, 0]), EndNode, EndNode, End]

  lemma TwinsOk()
    ensures AllOk(TWINS)
  {}

  lemma TwinsTree()
    ensures IsTree(TWINS) && Child(TWINS, 0, 3)
  {
    var ts := TWINS;
    assert Depth(ts, 0) == 0 && Depth(ts, 1) == 1 && Depth(ts, 2) == 2;
    assert Depth(ts, 3) == 1;
    assert Depth(ts, 4) == 2;
    assert Depth(ts, 5) == 1;
    assert Depth(ts, 6) == 0;
  }

  /** The path of the second child leads to the first, which matches without its unit address. */
  lemma PathAstray()
    ensures AllOk(TWINS) && IsTree(TWINS) && NamesTo(TWINS, 3) == [[0x61]] && PathNames(NamesTo(TWINS, 3))
    ensures PathFrom(TWINS, 0, PathString(NamesTo(TWINS, 3)), 0) == At(1) && !Unambiguous(TWINS, 3)
  {
    var ts, a: seq<byte> := TWINS, [0x61];
    TwinsOk();
    TwinsTree();
    OneParent(ts, 0, Parent(ts, 3), 3);
    assert NameMatches(ts[1].name, a);
    assert SubnodeNamed(ts, 1, 0, a) == At(1);
    assert NamesTo(ts, 0) == [] && NamesTo(ts, 3) == [a];
    hide IsTree, AllOk, Child, NameMatches, SubnodeNamed, NamesTo, Depth, Unambiguous;
    var path := PathString([a]);
    assert [a][1..] == [] && path[0..] == Join([a]);
    PathFromJoin(ts, 0, path, 0, [a]);
    assert Resolve(ts, 1, []) == At(1);
    PathLeadsBack(ts, 3);
  }
}
