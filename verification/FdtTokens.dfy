/**
 A structure block as a list of tokens: property lookup, and what edits of the list do
 to the bytes and to lookups (lib/libfdt/fdt_ro.c, lib/libfdt/fdt_rw.c, lib/libfdt/fdt_wip.c).
 */
module FdtTokens {
  import opened Wrappers
  import opened Memory
  import opened FdtFormat
  import opened FdtSwSpec

  // ----- looking up a property -----

  /** The position of a token, or a negative error. */
  datatype Found = At(i: nat) | Error(code: int)

  /** _nextprop: the first property at or after token `k` of the same node. */
  function NextProp(ts: seq<Token>, k: nat): (r: Found)
    ensures r.At? ==> k <= r.i < |ts| && ts[r.i].Prop?
    ensures r.At? ==> forall j :: k <= j < r.i ==> ts[j].Nop?
    ensures r.Error? ==> r.code < 0
    decreases |ts| - k
  {
    if k >= |ts| then Error(-FDT_ERR_TRUNCATED)
    else match ts[k]
      case Prop(_, _, _) => At(k)
      case Nop => NextProp(ts, k + 1)
      case End => Error(-FDT_ERR_BADSTRUCTURE)
      case _ => Error(-FDT_ERR_NOTFOUND)
  }

  /** fdt_get_property_namelen from token `k` on: the first property called `name`. */
  function FindProp(ts: seq<Token>, strings: seq<byte>, k: nat, name: seq<byte>): (r: Found)
    ensures r.At? ==> k <= r.i < |ts| && ts[r.i].Prop? && StringAt(strings, ts[r.i].nameoff) == name
    ensures r.Error? ==> r.code < 0
    decreases |ts| - k
  {
    var p := NextProp(ts, k);
    if p.Error? then p
    else if StringAt(strings, ts[p.i].nameoff) == name then p
    else FindProp(ts, strings, p.i + 1, name)
  }

  /** fdt_getprop on the node whose token is `node`. */
  function PropValue(ts: seq<Token>, strings: seq<byte>, node: nat, name: seq<byte>): Option<seq<byte>> {
    var p := FindProp(ts, strings, node + 1, name);
    if p.At? then Some(ts[p.i].value) else None
  }

  /** Names that can be read: each ends inside the strings block. */
  predicate NamesOk(ts: seq<Token>, strings: seq<byte>) {
    forall i :: 0 <= i < |ts| && ts[i].Prop? ==> IsCString(strings, ts[i].nameoff, StringAt(strings, ts[i].nameoff))
  }

  // ----- what a lookup finds, by the tokens behind the node -----

  /** Behind the node and before token `e` are only NOPs and properties of other names. */
  predicate Passes(ts: seq<Token>, strings: seq<byte>, node: nat, name: seq<byte>, e: nat) {
    && node < e <= |ts|
    && forall j :: node < j < e ==> ts[j].Nop? || (ts[j].Prop? && StringAt(strings, ts[j].nameoff) != name)
  }

  /** Token `p` is the node's first property of that name. */
  predicate HasAt(ts: seq<Token>, strings: seq<byte>, node: nat, name: seq<byte>, p: nat) {
    Passes(ts, strings, node, name, p) && p < |ts| && ts[p].Prop? && StringAt(strings, ts[p].nameoff) == name
  }

  /** The node has a property of that name, and the first one has value `val`. */
  ghost predicate HasValue(ts: seq<Token>, strings: seq<byte>, node: nat, name: seq<byte>, val: seq<byte>) {
    exists p: nat :: HasAt(ts, strings, node, name, p) && ts[p].value == val
  }

  /** The node's properties, none of them of that name, go up to the begin or the end of a node. */
  ghost predicate Lacks(ts: seq<Token>, strings: seq<byte>, node: nat, name: seq<byte>) {
    exists e: nat :: Passes(ts, strings, node, name, e) && e < |ts| && (ts[e].BeginNode? || ts[e].EndNode?)
  }

  lemma {:induction false} FindPropPasses(ts: seq<Token>, strings: seq<byte>, k: nat, name: seq<byte>, e: nat)
    requires k <= e <= |ts|
    requires forall j :: k <= j < e ==> ts[j].Nop? || (ts[j].Prop? && StringAt(strings, ts[j].nameoff) != name)
    ensures FindProp(ts, strings, k, name) == FindProp(ts, strings, e, name)
    decreases e - k
  {
    hide StringAt;
    if k < e {
      assert ts[k].Nop? ==> NextProp(ts, k) == NextProp(ts, k + 1);
      FindPropPasses(ts, strings, k + 1, name, e);
    }
  }

  /** What the token says at which a lookup stops. */
  lemma FindPropStops(ts: seq<Token>, strings: seq<byte>, node: nat, name: seq<byte>, e: nat)
    requires Passes(ts, strings, node, name, e)
    ensures var r := FindProp(ts, strings, node + 1, name);
            if e == |ts| then r == Error(-FDT_ERR_TRUNCATED)
            else
              && (ts[e].Prop? && StringAt(strings, ts[e].nameoff) == name ==> r == At(e))
              && (ts[e].BeginNode? || ts[e].EndNode? ==> r == Error(-FDT_ERR_NOTFOUND))
              && (ts[e].End? ==> r == Error(-FDT_ERR_BADSTRUCTURE))
  {
    hide StringAt;
    FindPropPasses(ts, strings, node + 1, name, e);
  }

  /** Every lookup stops somewhere. */
  lemma LookupStops(ts: seq<Token>, strings: seq<byte>, node: nat, name: seq<byte>) returns (e: nat)
    requires node < |ts|
    ensures Passes(ts, strings, node, name, e)
    ensures e < |ts| ==> !ts[e].Nop? && (ts[e].Prop? ==> StringAt(strings, ts[e].nameoff) == name)
  {
    hide StringAt;
    e := node + 1;
    while e < |ts| && (ts[e].Nop? || (ts[e].Prop? && StringAt(strings, ts[e].nameoff) != name))
      invariant Passes(ts, strings, node, name, e)
    {
      e := e + 1;
    }
  }

  /** A lookup gives the node's first property of that name, and NOTFOUND exactly when the node lacks it. */
  lemma FindPropExact(ts: seq<Token>, strings: seq<byte>, node: nat, name: seq<byte>)
    requires node < |ts|
    ensures forall p: nat :: FindProp(ts, strings, node + 1, name) == At(p) <==> HasAt(ts, strings, node, name, p)
    ensures FindProp(ts, strings, node + 1, name) == Error(-FDT_ERR_NOTFOUND) <==> Lacks(ts, strings, node, name)
  {
    var e := LookupStops(ts, strings, node, name);
    FindPropStops(ts, strings, node, name, e);
    hide StringAt, FindProp;
    forall p: nat | HasAt(ts, strings, node, name, p)
      ensures FindProp(ts, strings, node + 1, name) == At(p)
    {
      FindPropStops(ts, strings, node, name, p);
    }
    if Lacks(ts, strings, node, name) {
      var b: nat :| Passes(ts, strings, node, name, b) && b < |ts| && (ts[b].BeginNode? || ts[b].EndNode?);
      FindPropStops(ts, strings, node, name, b);
    }
  }

  /** fdt_getprop gives the value of the node's first property of that name. */
  lemma PropValueExact(ts: seq<Token>, strings: seq<byte>, node: nat, name: seq<byte>, val: seq<byte>)
    requires node < |ts|
    ensures PropValue(ts, strings, node, name) == Some(val) <==> HasValue(ts, strings, node, name, val)
  {
    FindPropExact(ts, strings, node, name);
    hide StringAt, FindProp, HasAt;
    if HasValue(ts, strings, node, name, val) {
      var p: nat :| HasAt(ts, strings, node, name, p) && ts[p].value == val;
      assert FindProp(ts, strings, node + 1, name) == At(p);
    }
  }

  // ----- edits of the list -----

  /** The list with tokens [i, j) replaced by `mid`. */
  function Replace(ts: seq<Token>, i: nat, j: nat, mid: seq<Token>): seq<Token>
    requires i <= j <= |ts|
  {
    ts[..i] + mid + ts[j..]
  }

  lemma ReplaceBytes(ts: seq<Token>, i: nat, j: nat, mid: seq<Token>)
    requires AllOk(ts) && AllOk(mid) && i <= j <= |ts|
    ensures AllOk(Replace(ts, i, j, mid)) && Offset(ts, i) <= Offset(ts, j) <= |EncodeAll(ts)|
    ensures EncodeAll(Replace(ts, i, j, mid)) ==
              EncodeAll(ts)[..Offset(ts, i)] + EncodeAll(mid) + EncodeAll(ts)[Offset(ts, j)..]
  {
    hide TokenOk, EncodeAll;
    OffsetMono(ts, i, j);
    EncodeConcat(ts[..i], ts[i..]);
    EncodeConcat(ts[..j], ts[j..]);
    assert ts == ts[..i] + ts[i..] == ts[..j] + ts[j..];
    EncodeConcat(ts[..i], mid);
    EncodeConcat(ts[..i] + mid, ts[j..]);
  }

  /** Tokens before the edit keep their offsets. */
  lemma ReplaceOffsetBefore(ts: seq<Token>, i: nat, j: nat, mid: seq<Token>, k: nat)
    requires AllOk(ts) && AllOk(mid) && k <= i <= j <= |ts|
    ensures AllOk(Replace(ts, i, j, mid))
    ensures Offset(Replace(ts, i, j, mid), k) == Offset(ts, k)
  {
    hide TokenOk, EncodeAll;
    assert Replace(ts, i, j, mid)[..k] == ts[..k];
  }

  /** Tokens behind the edit move together. */
  lemma ReplaceOffsetBehind(ts: seq<Token>, i: nat, j: nat, mid: seq<Token>, k: nat)
    requires AllOk(ts) && AllOk(mid) && i <= j <= k <= |ts|
    ensures AllOk(Replace(ts, i, j, mid))
    ensures Offset(Replace(ts, i, j, mid), i + |mid| + (k - j)) ==
            Offset(ts, k) - (Offset(ts, j) - Offset(ts, i)) + |EncodeAll(mid)|
  {
    hide TokenOk, EncodeAll;
    var front, tail := ts[..i] + mid, ts[j..k];
    assert Replace(ts, i, j, mid)[..i + |mid| + (k - j)] == front + tail;
    EncodeConcat(ts[..i], mid);
    EncodeConcat(front, tail);
    assert ts[..k] == ts[..j] + tail;
    EncodeConcat(ts[..j], tail);
  }

  // ----- lookups after an edit -----

  lemma {:induction false} NextPropSameKinds(ts: seq<Token>, ts': seq<Token>, k: nat)
    requires |ts| == |ts'|
    requires forall j :: k <= j < |ts| ==> ts'[j] == ts[j] || (ts[j].Prop? && ts'[j].Prop?)
    ensures NextProp(ts', k) == NextProp(ts, k)
    decreases |ts| - k
  {
    if k < |ts| {
      NextPropSameKinds(ts, ts', k + 1);
    }
  }

  /** A change of values alone changes no lookup. */
  lemma {:induction false} FindPropSameNames(ts: seq<Token>, ts': seq<Token>, strings: seq<byte>, k: nat,
                                             name: seq<byte>)
    requires |ts| == |ts'|
    requires forall j :: k <= j < |ts| ==>
        ts'[j] == ts[j] || (ts[j].Prop? && ts'[j].Prop? && ts'[j].nameoff == ts[j].nameoff)
    ensures FindProp(ts', strings, k, name) == FindProp(ts, strings, k, name)
    decreases |ts| - k
  {
    hide NextProp, StringAt;
    NextPropSameKinds(ts, ts', k);
    var p := NextProp(ts, k);
    if p.At? {
      FindPropSameNames(ts, ts', strings, p.i + 1, name);
    }
  }

  function Shifted(r: Found, d: nat): Found {
    if r.At? then At(r.i + d) else r
  }

  lemma {:induction false} NextPropShift(ts: seq<Token>, ts': seq<Token>, k: nat, d: nat)
    requires |ts'| == |ts| + d && forall j :: k <= j < |ts| ==> ts'[j + d] == ts[j]
    ensures NextProp(ts', k + d) == Shifted(NextProp(ts, k), d)
    decreases |ts| - k
  {
    if k < |ts| {
      NextPropShift(ts, ts', k + 1, d);
    }
  }

  /** Two lists that agree behind `k` and `k + d` find the same behind them. */
  lemma {:induction false} FindPropShift(ts: seq<Token>, ts': seq<Token>, strings: seq<byte>, k: nat, d: nat,
                                         name: seq<byte>)
    requires |ts'| == |ts| + d && forall j :: k <= j < |ts| ==> ts'[j + d] == ts[j]
    ensures FindProp(ts', strings, k + d, name) == Shifted(FindProp(ts, strings, k, name), d)
    decreases |ts| - k
  {
    hide NextProp, StringAt;
    NextPropShift(ts, ts', k, d);
    var p := NextProp(ts, k);
    if p.At? {
      FindPropShift(ts, ts', strings, p.i + 1, d, name);
    }
  }

  lemma StringAtMore(strings: seq<byte>, more: seq<byte>, off: nat)
    requires IsCString(strings, off, StringAt(strings, off))
    ensures StringAt(strings + more, off) == StringAt(strings, off)
    ensures IsCString(strings + more, off, StringAt(strings, off))
  {
    var n := |StringAt(strings, off)| + 1;
    assert (strings + more)[off..off + n] == strings[off..off + n];
    StringAtIs(strings + more, off, StringAt(strings, off));
  }

  /** Strings added behind a block change no name that ends inside it. */
  lemma {:induction false} FindPropMoreStrings(ts: seq<Token>, strings: seq<byte>, more: seq<byte>, k: nat,
                                               name: seq<byte>)
    requires NamesOk(ts, strings)
    ensures FindProp(ts, strings + more, k, name) == FindProp(ts, strings, k, name)
    decreases |ts| - k
  {
    hide NextProp, StringAt;
    var p := NextProp(ts, k);
    if p.At? {
      StringAtMore(strings, more, ts[p.i].nameoff);
      FindPropMoreStrings(ts, strings, more, p.i + 1, name);
    }
  }

  // ----- lookups by the tokens behind a node -----

  /** fdt_getprop from the first token of a list on. */
  function Lookup(ts: seq<Token>, strings: seq<byte>, name: seq<byte>): Option<seq<byte>> {
    var p := FindProp(ts, strings, 0, name);
    if p.At? then Some(ts[p.i].value) else None
  }

  lemma LookupFrom(ts: seq<Token>, strings: seq<byte>, k: nat, name: seq<byte>)
    requires k <= |ts|
    ensures Lookup(ts[k..], strings, name) ==
              var p := FindProp(ts, strings, k, name); if p.At? then Some(ts[p.i].value) else None
  {
    hide FindProp;
    FindPropShift(ts[k..], ts, strings, 0, k, name);
  }

  lemma LookupStep(ts: seq<Token>, strings: seq<byte>, name: seq<byte>)
    requires ts != []
    ensures ts[0].Nop? ==> Lookup(ts, strings, name) == Lookup(ts[1..], strings, name)
    ensures ts[0].Prop? ==>
        Lookup(ts, strings, name) == (if StringAt(strings, ts[0].nameoff) == name then Some(ts[0].value)
                                                          else Lookup(ts[1..], strings, name))
    ensures !ts[0].Nop? && !ts[0].Prop? ==> Lookup(ts, strings, name) == None
  {
    hide StringAt;
    LookupFrom(ts, strings, 1, name);
    if ts[0].Nop? {
      assert NextProp(ts, 0) == NextProp(ts, 1);
    } else if ts[0].Prop? {
      assert NextProp(ts, 0) == At(0);
    }
  }

  lemma NoneFrom(ts: seq<Token>, strings: seq<byte>, name: seq<byte>)
    requires ts != [] ==> !ts[0].Prop? && !ts[0].Nop?
    ensures Lookup(ts, strings, name) == None
  {}

  /** Nothing but properties and NOPs: a lookup that finds nothing here goes on behind. */
  predicate Open(ts: seq<Token>) {
    forall j :: 0 <= j < |ts| ==> ts[j].Prop? || ts[j].Nop?
  }

  lemma {:induction false} LookupConcat(a: seq<Token>, b: seq<Token>, strings: seq<byte>, name: seq<byte>)
    ensures Lookup(a + b, strings, name) ==
              if Open(a) && Lookup(a, strings, name) == None then Lookup(b, strings, name) else Lookup(a, strings, name)
  {
    if a == [] {
      assert a + b == b;
    } else {
      hide Lookup, StringAt;
      LookupStep(a, strings, name);
      LookupStep(a + b, strings, name);
      assert (a + b)[1..] == a[1..] + b;
      LookupConcat(a[1..], b, strings, name);
      assert Open(a) <==> (a[0].Prop? || a[0].Nop?) && Open(a[1..]) by {
        if Open(a[1..]) {
          assert forall j :: 1 <= j < |a| ==> a[j] == a[1..][j - 1];
        }
      }
    }
  }

  /** A lookup in a node is one in the tokens up to `at` and, if these leave it open, one from `at` on. */
  lemma ValueAround(ts: seq<Token>, strings: seq<byte>, node: nat, at: nat, name: seq<byte>)
    requires node < at <= |ts|
    ensures PropValue(ts, strings, node, name) ==
              var a := ts[node + 1..at];
              if Open(a) && Lookup(a, strings, name) == None then Lookup(ts[at..], strings, name)
                else Lookup(a, strings, name)
  {
    hide FindProp;
    LookupFrom(ts, strings, node + 1, name);
    assert ts[node + 1..] == ts[node + 1..at] + ts[at..];
    LookupConcat(ts[node + 1..at], ts[at..], strings, name);
  }

  /** Lookups in the nodes behind a replacement are as before. */
  lemma ValueBehind(ts: seq<Token>, strings: seq<byte>, i: nat, j: nat, mid: seq<Token>, node: nat, name: seq<byte>)
    requires i <= j <= node < |ts|
    ensures PropValue(Replace(ts, i, j, mid), strings, node - j + i + |mid|, name) == PropValue(ts, strings, node, name)
  {
    hide FindProp;
    var ts', node' := Replace(ts, i, j, mid), node - j + i + |mid|;
    LookupFrom(ts, strings, node + 1, name);
    LookupFrom(ts', strings, node' + 1, name);
    assert ts'[node' + 1..] == ts[node + 1..];
  }

  // ----- setting a property -----

  /** Between a node and a property that was found for it are properties and NOPs only. */
  lemma {:induction false} FoundInNode(ts: seq<Token>, strings: seq<byte>, k: nat, name: seq<byte>)
    requires FindProp(ts, strings, k, name).At?
    ensures forall j :: k <= j < FindProp(ts, strings, k, name).i ==> ts[j].Prop? || ts[j].Nop?
    decreases |ts| - k
  {
    hide NextProp, StringAt;
    var p := NextProp(ts, k);
    if StringAt(strings, ts[p.i].nameoff) != name {
      FoundInNode(ts, strings, p.i + 1, name);
    }
  }

  /** A property is found from one node and under one name only. */
  lemma FoundOnce(ts: seq<Token>, strings: seq<byte>, node: nat, name: seq<byte>, node': nat, name': seq<byte>)
    requires node < |ts| && node' < |ts| && ts[node].BeginNode? && ts[node'].BeginNode?
    requires FindProp(ts, strings, node + 1, name).At?
    requires FindProp(ts, strings, node' + 1, name') == FindProp(ts, strings, node + 1, name)
    ensures node' == node && name' == name
  {
    hide FindProp, StringAt;
    FoundInNode(ts, strings, node + 1, name);
    FoundInNode(ts, strings, node' + 1, name');
  }

  /** A property given a new value: its lookup gives that value, every other lookup is as before. */
  lemma ValueReplaced(ts: seq<Token>, strings: seq<byte>, node: nat, name: seq<byte>, p: nat, t: Token, node': nat,
                      name': seq<byte>)
    requires node < |ts| && ts[node].BeginNode? && node' < |ts| && ts[node'].BeginNode?
    requires FindProp(ts, strings, node + 1, name) == At(p) && p < |ts| && ts[p].Prop? && t.Prop?
    requires t.nameoff == ts[p].nameoff
    ensures PropValue(ts[p := t], strings, node', name') ==
              if node' == node && name' == name then Some(t.value) else PropValue(ts, strings, node', name')
  {
    hide FindProp, StringAt;
    FindPropSameNames(ts, ts[p := t], strings, node' + 1, name');
    if FindProp(ts, strings, node' + 1, name') == At(p) {
      FoundOnce(ts, strings, node, name, node', name');
    }
  }

  /** Where a token of the list is after an insertion behind token `at`. */
  function Pushed(k: nat, at: nat, n: nat): nat { if k <= at then k else k + n }

  /** A property inserted behind a node: its lookup gives it, every other lookup is as before. */
  lemma PropertyInserted(ts: seq<Token>, ts': seq<Token>, strings: seq<byte>, node: nat, t: Token, node': nat,
                         name': seq<byte>)
    requires node < |ts| && ts[node].BeginNode? && node' < |ts| && ts[node'].BeginNode? && t.Prop?
    requires ts' == Replace(ts, node + 1, node + 1, [t])
    ensures PropValue(ts', strings, Pushed(node', node, 1), name') ==
              if node' == node && name' == StringAt(strings, t.nameoff) then Some(t.value)
                else PropValue(ts, strings, node', name')
  {
    hide FindProp, StringAt, Lookup, PropValue;
    if node' > node {
      ValueBehind(ts, strings, node + 1, node + 1, [t], node', name');
    } else {
      var a := ts[node' + 1..node + 1];
      ValueAround(ts, strings, node', node + 1, name');
      ValueAround(ts', strings, node', node + 1, name');
      assert ts'[node' + 1..node + 1] == a && ts'[node + 1..][1..] == ts[node + 1..];
      LookupStep(ts'[node + 1..], strings, name');
      if node' < node {
        assert a[node - node' - 1] == ts[node];
      } else {
        NoneFrom(a, strings, name');
      }
    }
  }

  // ----- cutting out and putting in -----

  /** Where a token outside [i, j) is after these tokens are cut out. */
  function Pulled(k: nat, i: nat, j: nat): nat
    requires i <= j && (k < i || j <= k)
  {
    if k < i then k else k - (j - i)
  }

  /** No property before the one that was found has its name. */
  lemma {:induction false} FoundFirst(ts: seq<Token>, strings: seq<byte>, k: nat, name: seq<byte>)
    requires FindProp(ts, strings, k, name).At?
    ensures forall j :: k <= j < FindProp(ts, strings, k, name).i && ts[j].Prop? ==>
        StringAt(strings, ts[j].nameoff) != name
    decreases |ts| - k
  {
    var p := NextProp(ts, k);
    if StringAt(strings, ts[p.i].nameoff) != name {
      hide StringAt;
      FoundFirst(ts, strings, p.i + 1, name);
    }
  }

  lemma OpenUpTo(ts: seq<Token>, strings: seq<byte>, node: nat, name: seq<byte>, p: nat, node': nat)
    requires node < |ts| && ts[node].BeginNode? && node' < p && node' < |ts| && ts[node'].BeginNode?
    requires FindProp(ts, strings, node + 1, name) == At(p) && p < |ts| && Open(ts[node' + 1..p])
    ensures node' == node && Lookup(ts[node + 1..p], strings, name) == None
  {
    hide FindProp, StringAt;
    FoundInNode(ts, strings, node + 1, name);
    FoundFirst(ts, strings, node + 1, name);
    assert forall j :: node' < j < p ==> ts[j] == ts[node' + 1..p][j - node' - 1];
    var a := ts[node + 1..p];
    assert forall j :: 0 <= j < |a| ==> a[j] == ts[node + 1 + j];
  }

  /**
   A property cut out: the next one of the same name shows, if the node has one, and every other property of
   every node reads as before.
   */
  lemma PropertyCut(ts: seq<Token>, strings: seq<byte>, node: nat, name: seq<byte>, p: nat, node': nat,
                    name': seq<byte>)
    requires node < |ts| && ts[node].BeginNode? && node' < |ts| && ts[node'].BeginNode?
    requires FindProp(ts, strings, node + 1, name) == At(p)
    ensures p < |ts| && node' != p
    ensures PropValue(Replace(ts, p, p + 1, []), strings, Pulled(node', p, p + 1), name') ==
              if node' == node && name' == name then Lookup(ts[p + 1..], strings, name)
                else PropValue(ts, strings, node', name')
  {
    hide FindProp, StringAt, Lookup, PropValue;
    assert ts[p].Prop? && StringAt(strings, ts[p].nameoff) == name;
    var ts' := Replace(ts, p, p + 1, []);
    if node' > p {
      ValueBehind(ts, strings, p, p + 1, [], node', name');
    } else {
      var a := ts[node' + 1..p];
      ValueAround(ts, strings, node', p, name');
      ValueAround(ts', strings, node', p, name');
      assert ts'[node' + 1..p] == a && ts'[p..] == ts[p + 1..];
      LookupStep(ts[p..], strings, name');
      FoundInNode(ts, strings, node + 1, name);
      if Open(a) {
        OpenUpTo(ts, strings, node, name, p, node');
      }
    }
  }

  /**
   Tokens from a node's first one up to `e` cut out: every property of every node outside reads as before, except
   that a lookup that ran up to the cut without success goes on behind it.
   */
  lemma NodeCut(ts: seq<Token>, strings: seq<byte>, i: nat, e: nat, node: nat, name: seq<byte>)
    requires i < e <= |ts| && ts[i].BeginNode? && node < |ts| && (node < i || e <= node)
    ensures PropValue(Replace(ts, i, e, []), strings, Pulled(node, i, e), name) ==
              if node < i && Open(ts[node + 1..i]) && PropValue(ts, strings, node, name) == None
              then Lookup(ts[e..], strings, name) else PropValue(ts, strings, node, name)
  {
    hide Lookup, PropValue;
    var ts' := Replace(ts, i, e, []);
    if node >= e {
      ValueBehind(ts, strings, i, e, [], node, name);
    } else {
      ValueAround(ts, strings, node, i, name);
      ValueAround(ts', strings, node, i, name);
      assert ts'[node + 1..i] == ts[node + 1..i] && ts'[i..] == ts[e..];
      LookupStep(ts[i..], strings, name);
    }
  }

  /** Exactly when a lookup elsewhere is kept: unless it ran up to the node in vain and finds something behind it. */
  lemma NodeCutExact(ts: seq<Token>, strings: seq<byte>, i: nat, e: nat, node: nat, name: seq<byte>)
    requires i < e <= |ts| && ts[i].BeginNode? && node < |ts| && (node < i || e <= node)
    ensures (PropValue(Replace(ts, i, e, []), strings, Pulled(node, i, e), name) ==
               PropValue(ts, strings, node, name)) <==>
              !(node < i && Open(ts[node + 1..i]) && PropValue(ts, strings, node, name) == None
                && Lookup(ts[e..], strings, name) != None)
  {
    hide Lookup, PropValue, Open;
    NodeCut(ts, strings, i, e, node, name);
  }

  /** Where no property follows the node that is cut out, every lookup elsewhere is as before. */
  lemma NodeCutKeeps(ts: seq<Token>, strings: seq<byte>, i: nat, e: nat, node: nat, name: seq<byte>)
    requires i < e <= |ts| && ts[i].BeginNode? && node < |ts| && (node < i || e <= node)
    requires NextProp(ts, e).Error?
    ensures PropValue(Replace(ts, i, e, []), strings, Pulled(node, i, e), name) == PropValue(ts, strings, node, name)
  {
    hide NextProp, PropValue, StringAt;
    NodeCut(ts, strings, i, e, node, name);
    LookupFrom(ts, strings, e, name);
  }

  /** A node put in behind the properties of another: every lookup elsewhere is as before, and the new node has none. */
  lemma NodePutIn(ts: seq<Token>, strings: seq<byte>, k: nat, mid: seq<Token>, node: nat, name: seq<byte>)
    requires k <= |ts| && (k < |ts| ==> !ts[k].Prop? && !ts[k].Nop?) && |mid| == 2 && mid[0].BeginNode?
    requires mid[1].EndNode?
    ensures node < |ts| ==>
              PropValue(Replace(ts, k, k, mid), strings, if node < k then node else node + 2, name) ==
                PropValue(ts, strings, node, name)
    ensures PropValue(Replace(ts, k, k, mid), strings, k, name) == None
  {
    var ts' := Replace(ts, k, k, mid);
    LookupFrom(ts', strings, k + 1, name);
    assert ts'[k] == mid[0] && ts'[k + 1] == mid[1];
    hide Lookup, PropValue;
    LookupStep(ts'[k + 1..], strings, name);
    if k <= node < |ts| {
      ValueBehind(ts, strings, k, k, mid, node, name);
    } else if node < |ts| {
      ValueAround(ts, strings, node, k, name);
      ValueAround(ts', strings, node, k, name);
      assert ts'[node + 1..k] == ts[node + 1..k];
      LookupStep(ts'[k..], strings, name);
      NoneFrom(ts[k..], strings, name);
    }
  }

  /** A node of name "a", and behind it a property "x" of the root. */
  const LATE: seq<Token> :=
    [BeginNode([], [0, 0, 0]), BeginNode([0x61], [0, 0]), EndNode, Prop(0, [1, 2, 3, 4], []), EndNode, End]

  /** A property behind a node is not found until that node is deleted. */
  lemma PropertyAdopted()
    ensures var strings, name: seq<byte> := [0x78, 0], [0x78];
            && AllOk(LATE) && PropValue(LATE, strings, 0, name) == None
            && PropValue(Replace(LATE, 1, 3, []), strings, 0, name) == Some([1, 2, 3, 4])
  {
    var strings, name: seq<byte> := [0x78, 0], [0x78];
    assert StringAt(strings, 0) == name by {
      StringAtIs(strings, 0, name);
    }
    hide StringAt;
    var cut := Replace(LATE, 1, 3, []);
    assert cut[1] == Prop(0, [1, 2, 3, 4], []) && NextProp(cut, 1) == At(1);
    assert NextProp(LATE, 1) == Error(-FDT_ERR_NOTFOUND);
  }

  // ----- NOPs -----

  /** The tokens that are not NOPs. */
  function Strip(ts: seq<Token>): seq<Token> {
    if ts == [] then [] else (if ts[0].Nop? then [] else [ts[0]]) + Strip(ts[1..])
  }

  lemma {:induction false} StripConcat(a: seq<Token>, b: seq<Token>)
    ensures Strip(a + b) == Strip(a) + Strip(b)
  {
    if a == [] {
      assert a + b == b;
    } else {
      var x := if a[0].Nop? then [] else [a[0]];
      assert (a + b)[0] == a[0] && (a + b)[1..] == a[1..] + b;
      StripConcat(a[1..], b);
      assert Strip(a + b) == x + (Strip(a[1..]) + Strip(b));
    }
  }

  function Nops(n: nat): (r: seq<Token>)
    ensures |r| == n && AllOk(r) && forall i :: 0 <= i < n ==> r[i] == Nop
  {
    seq(n, _ => Nop)
  }

  lemma {:induction false} StripNops(n: nat)
    ensures Strip(Nops(n)) == [] && |EncodeAll(Nops(n))| == 4 * n
  {
    if n > 0 {
      StripNops(n - 1);
      assert Nops(n)[1..] == Nops(n - 1);
    }
  }

  /** Overwriting tokens [i, j) with NOPs and cutting them out leave the same NOP-free stream. */
  lemma NopOutIsCutOut(ts: seq<Token>, i: nat, j: nat, n: nat)
    requires i <= j <= |ts|
    ensures Strip(Replace(ts, i, j, Nops(n))) == Strip(Replace(ts, i, j, []))
  {
    StripNops(n);
    StripConcat(ts[..i] + Nops(n), ts[j..]);
    StripConcat(ts[..i], Nops(n));
    StripConcat(ts[..i] + [], ts[j..]);
    StripConcat(ts[..i], []);
  }

  /** A lookup reads the NOP-free stream. */
  lemma {:induction false} LookupIgnoresNops(ts: seq<Token>, strings: seq<byte>, name: seq<byte>)
    ensures Lookup(Strip(ts), strings, name) == Lookup(ts, strings, name)
  {
    hide Lookup, StringAt;
    if ts == [] {
    } else {
      LookupStep(ts, strings, name);
      LookupIgnoresNops(ts[1..], strings, name);
      if ts[0].Nop? {
        assert Strip(ts) == Strip(ts[1..]);
      } else {
        assert Strip(ts)[1..] == Strip(ts[1..]);
        LookupStep(Strip(ts), strings, name);
      }
    }
  }
}
