/**
 The waits-for graph of lib/arm/smp.c: each CPU has the mask of the CPUs that wait for it, and a CPU
 that starts to wait looks for a deadlock first.
 */
module SmpDeadlock {
  import opened Wrappers

  /** For each CPU, the CPUs that wait for it. */
  type Graph = seq<set<nat>>

  ghost predicate InBounds(g: Graph) {
    forall c: nat, i: nat :: c < |g| && i in g[c] ==> i < |g|
  }

  /** A list of CPUs, each of which waits for the one before it. */
  ghost predicate Walk(g: Graph, p: seq<nat>) {
    && p != [] && (forall k: nat :: k < |p| ==> p[k] < |g|)
    && forall k: nat :: k + 1 < |p| ==> p[k + 1] in g[p[k]]
  }

  ghost predicate Path(g: Graph, a: nat, b: nat, p: seq<nat>) {
    Walk(g, p) && |p| >= 2 && p[0] == a && p[|p| - 1] == b
  }

  /** `b` waits for `a`, directly or through others. */
  ghost predicate WaitsFor(g: Graph, b: nat, a: nat) {
    exists p :: Path(g, a, b, p)
  }

  ghost predicate Acyclic(g: Graph) {
    forall a: nat :: !WaitsFor(g, a, a)
  }

  lemma Edge(g: Graph, a: nat, b: nat)
    requires InBounds(g) && a < |g| && b in g[a]
    ensures WaitsFor(g, b, a)
  {
    assert Path(g, a, b, [a, b]);
  }

  lemma Trans(g: Graph, a: nat, b: nat, c: nat)
    requires WaitsFor(g, b, a) && WaitsFor(g, c, b)
    ensures WaitsFor(g, c, a)
  {
    var p :| Path(g, a, b, p);
    var q :| Path(g, b, c, q);
    var r := p + q[1..];
    forall k: nat | k + 1 < |r|
      ensures r[k + 1] in g[r[k]]
    {
      if k + 1 < |p| {
        assert r[k] == p[k] && r[k + 1] == p[k + 1];
      } else {
        var j := k + 1 - |p|;
        assert r[k + 1] == q[j + 1] && r[k] == q[j];
      }
    }
    assert Path(g, a, c, r);
  }

  /** The first step of a path. */
  lemma FirstStep(g: Graph, a: nat, b: nat, p: seq<nat>)
    requires Path(g, a, b, p)
    ensures a < |g| && |p| >= 2 && p[1] in g[a] && p[1] < |g| && (|p| == 2 ==> p[1] == b)
    ensures (|p| > 2 ==> Path(g, p[1], b, p[1..]))
  {
    assert p[0 + 1] in g[p[0]];
    if |p| > 2 {
      forall k: nat | k + 1 < |p[1..]|
        ensures p[1..][k + 1] in g[p[1..][k]]
      {
        assert p[k + 2] in g[p[k + 1]];
      }
    }
  }

  ghost predicate Within(g: Graph, h: Graph) {
    |g| == |h| && forall c: nat :: c < |g| ==> g[c] <= h[c]
  }

  lemma WaitsWithin(g: Graph, h: Graph, b: nat, a: nat)
    requires Within(g, h) && WaitsFor(g, b, a)
    ensures WaitsFor(h, b, a)
  {
    var p :| Path(g, a, b, p);
    assert Path(h, a, b, p);
  }

  lemma AcyclicWithin(g: Graph, h: Graph)
    requires Within(g, h) && Acyclic(h)
    ensures Acyclic(g)
  {
    forall a: nat
      ensures !WaitsFor(g, a, a)
    {
      if WaitsFor(g, a, a) {
        WaitsWithin(g, h, a, a);
      }
    }
  }

  // ----- one more edge -----

  function Insert(g: Graph, me: nat, cpu: nat): Graph
    requires cpu < |g|
  {
    g[cpu := g[cpu] + {me}]
  }

  ghost predicate Star(g: Graph, b: nat, a: nat) {
    a == b || WaitsFor(g, b, a)
  }

  lemma StarStep(g: Graph, x: nat, z: nat, y: nat)
    requires InBounds(g) && x < |g| && z in g[x] && Star(g, y, z)
    ensures WaitsFor(g, y, x)
  {
    Edge(g, x, z);
    if z != y {
      Trans(g, x, z, y);
    }
  }

  /** Whoever waits after the insertion waited before, or waits through the new edge. */
  lemma {:induction false} ThroughEdge(g: Graph, me: nat, cpu: nat, x: nat, y: nat, p: seq<nat>)
    requires InBounds(g) && cpu < |g| && Path(Insert(g, me, cpu), x, y, p)
    ensures WaitsFor(g, y, x) || (Star(g, cpu, x) && Star(g, y, me))
    decreases |p|
  {
    hide WaitsFor, Path;
    var h := Insert(g, me, cpu);
    FirstStep(h, x, y, p);
    var z := p[1];
    if |p| > 2 {
      ThroughEdge(g, me, cpu, z, y, p[1..]);
    }
    if z in g[x] {
      if |p| == 2 || WaitsFor(g, y, z) {
        StarStep(g, x, z, y);
      } else {
        StarStep(g, x, z, cpu);
      }
    }
  }

  lemma NoCycle(g: Graph, me: nat, cpu: nat, a: nat)
    requires InBounds(g) && Acyclic(g) && me < |g| && cpu < |g| && me != cpu && !WaitsFor(g, cpu, me)
    ensures !WaitsFor(Insert(g, me, cpu), a, a)
  {
    hide Path;
    if WaitsFor(Insert(g, me, cpu), a, a) {
      var p :| Path(Insert(g, me, cpu), a, a, p);
      ThroughEdge(g, me, cpu, a, a, p);
      if a != cpu && a != me {
        Trans(g, me, a, cpu);
      }
    }
  }

  /** An edge closes a cycle if and only if the CPU waited for is already waiting, directly or not. */
  lemma ClosesCycle(g: Graph, me: nat, cpu: nat)
    requires InBounds(g) && Acyclic(g) && me < |g| && cpu < |g| && me != cpu
    ensures Acyclic(Insert(g, me, cpu)) <==> !WaitsFor(g, cpu, me)
  {
    hide WaitsFor, Path;
    var h := Insert(g, me, cpu);
    if WaitsFor(g, cpu, me) {
      WaitsWithin(g, h, cpu, me);
      Edge(h, cpu, me);
      Trans(h, me, cpu, me);
    } else {
      forall a: nat
        ensures !WaitsFor(h, a, a)
      {
        NoCycle(g, me, cpu, a);
      }
    }
  }

  // ----- the search -----

  /** What the search looks at: it does not go on from the CPU that it looks for. */
  ghost function Cut(g: Graph, cpu: nat): Graph
    requires cpu < |g|
  {
    g[cpu := {}]
  }

  /** On the way to `cpu` nothing is lost by stopping there. */
  lemma {:induction false} CutPath(g: Graph, cpu: nat, a: nat, p: seq<nat>)
    requires InBounds(g) && cpu < |g| && a != cpu && Path(g, a, cpu, p)
    ensures WaitsFor(Cut(g, cpu), cpu, a)
    decreases |p|
  {
    hide WaitsFor, Path;
    var h := Cut(g, cpu);
    FirstStep(g, a, cpu, p);
    Edge(h, a, p[1]);
    if p[1] != cpu {
      CutPath(g, cpu, p[1], p[1..]);
      Trans(h, a, p[1], cpu);
    }
  }

  lemma CutWaits(g: Graph, cpu: nat, a: nat)
    requires InBounds(g) && cpu < |g| && a != cpu
    ensures WaitsFor(Cut(g, cpu), cpu, a) <==> WaitsFor(g, cpu, a)
  {
    if WaitsFor(g, cpu, a) {
      var p :| Path(g, a, cpu, p);
      CutPath(g, cpu, a, p);
    } else if WaitsFor(Cut(g, cpu), cpu, a) {
      WaitsWithin(Cut(g, cpu), g, cpu, a);
    }
  }

  /** None of those who wait for `node`, directly or through others, waits for itself. */
  ghost predicate NoLoop(g: Graph, node: nat) {
    forall a: nat :: Star(g, a, node) ==> !WaitsFor(g, a, a)
  }

  lemma {:induction false} WalkStar(g: Graph, p: seq<nat>, k: nat)
    requires Walk(g, p) && k < |p|
    ensures Star(g, p[k], p[0])
  {
    if k > 0 {
      var q := p[..k + 1];
      assert forall j: nat :: j + 1 < |q| ==> p[j + 1] in g[p[j]];
      assert Path(g, p[0], p[k], q);
    }
  }

  /** Where nobody waits for itself, a walk does not come back. */
  lemma NoReturn(g: Graph, p: seq<nat>, i: nat)
    requires InBounds(g) && Walk(g, p) && NoLoop(g, p[0]) && i in g[p[|p| - 1]]
    ensures i !in p && Walk(g, p + [i])
  {
    if i in p {
      var at :| 0 <= at < |p| && p[at] == i;
      WalkStar(g, p, at);
      var k :| 0 <= k < |p| && p[k] == i;
      var q := p[k..] + [i];
      forall j: nat | j + 1 < |q|
        ensures q[j + 1] in g[q[j]]
      {
        assert j + 1 < |p[k..]| ==> p[k + j + 1] in g[p[k + j]];
      }
      assert Path(g, i, i, q);
      assert WaitsFor(g, i, i);
    }
    forall k: nat | k + 1 < |p + [i]|
      ensures (p + [i])[k + 1] in g[(p + [i])[k]]
    {
      assert k + 1 < |p| ==> p[k + 1] in g[p[k]];
    }
  }

  /** Who waits for `node` decides whether `cpu` does. */
  lemma NodeWaits(g: Graph, cpu: nat, node: nat)
    requires InBounds(g) && cpu < |g| && node < |g|
    ensures WaitsFor(g, cpu, node) <==> exists i: nat :: i in g[node] && Star(g, cpu, i)
  {
    if WaitsFor(g, cpu, node) {
      var p :| Path(g, node, cpu, p);
      FirstStep(g, node, cpu, p);
      assert p[1] in g[node] && Star(g, cpu, p[1]);
    } else {
      forall i: nat | i in g[node]
        ensures !Star(g, cpu, i)
      {
        if Star(g, cpu, i) {
          StarStep(g, node, i, cpu);
        }
      }
    }
  }

  ghost function Unvisited(n: nat, path: seq<nat>): set<nat> {
    set c: nat | c < n && c !in path
  }

  /**
   __deadlock_check: does `cpu` wait for `node`? `path` is the way from the start of the search to `node`, which
   does not come back to a CPU that it has passed if no loop can be reached from the start.
   */
  method DeadlockCheckFrom(g: Graph, cpu: nat, node: nat, ghost path: seq<nat>) returns (found: bool)
    requires InBounds(g) && cpu < |g| && node < |g| && node != cpu
    requires Walk(Cut(g, cpu), path) && path[|path| - 1] == node && NoLoop(Cut(g, cpu), path[0])
    ensures found <==> WaitsFor(g, cpu, node)
    decreases Unvisited(|g|, path)
  {
    assert path != [];
    hide Walk, WaitsFor, NoLoop;
    ghost var h := Cut(g, cpu);
    CutWaits(g, cpu, node);
    NodeWaits(h, cpu, node);
    for i := 0 to |g|
      invariant forall j: nat :: j < i && j in g[node] ==> !Star(h, cpu, j)
    {
      if i in g[node] {
        if i == cpu {
          assert i in h[node] && Star(h, cpu, i);
          return true;
        }
        NoReturn(h, path, i);
        CutWaits(g, cpu, i);
        assert i in Unvisited(|g|, path) && i !in Unvisited(|g|, path + [i]);
        found := DeadlockCheckFrom(g, cpu, i, path + [i]);
        if found {
          assert i in h[node] && Star(h, cpu, i);
          return true;
        }
      }
    }
    found := false;
  }

  lemma AcyclicNoLoop(g: Graph, node: nat)
    requires Acyclic(g)
    ensures NoLoop(g, node)
  {}

  lemma OneWalk(g: Graph, a: nat)
    requires a < |g|
    ensures Walk(g, [a])
  {}

  // ----- one wait for each CPU -----

  /** No CPU waits for two: what cpu_wait gives, and on_cpus does not. */
  ghost predicate OneWait(g: Graph) {
    forall c: nat, d: nat, i: nat :: c < |g| && d < |g| && i in g[c] && i in g[d] ==> c == d
  }

  /** The last step of a path. */
  lemma LastStep(g: Graph, a: nat, b: nat, p: seq<nat>)
    requires Path(g, a, b, p)
    ensures var x := p[|p| - 2]; x < |g| && b in g[x] && Star(g, x, a)
  {
    var k := |p| - 2;
    assert p[k + 1] in g[p[k]];
    WalkStar(g, p, k);
  }

  lemma LoopPath(g: Graph, b: nat)
    requires WaitsFor(g, b, b)
    ensures exists p :: Path(g, b, b, p)
  {}

  /** Who waits for a CPU directly, and is in a loop, has that CPU in the loop. */
  lemma LoopGoesOn(g: Graph, x: nat, b: nat)
    requires InBounds(g) && OneWait(g) && x < |g| && b in g[x] && WaitsFor(g, b, b)
    ensures WaitsFor(g, x, x)
  {
    hide WaitsFor;
    assert exists p :: Path(g, b, b, p) by {
      LoopPath(g, b);
    }
    hide Path;
    var p :| Path(g, b, b, p);
    LastStep(g, b, b, p);
    Edge(g, x, b);
    if x != b {
      Trans(g, x, b, x);
    }
  }

  /** If anyone who waits for `node` is in a loop, then `node` is. */
  lemma {:induction false} LoopReaches(g: Graph, node: nat, a: nat, p: seq<nat>)
    requires InBounds(g) && OneWait(g) && Path(g, node, a, p) && WaitsFor(g, a, a)
    ensures WaitsFor(g, node, node)
    decreases |p|
  {
    hide WaitsFor, Path;
    FirstStep(g, node, a, p);
    if |p| > 2 {
      LoopReaches(g, p[1], a, p[1..]);
    }
    LoopGoesOn(g, node, p[1]);
  }

  /**
   With one wait for each CPU the search of a CPU that has just started to wait ends, whatever loops there are: it
   could only run into a loop that it is itself part of, and then it comes to the CPU that it waits for.
   */
  lemma SearchEnds(g: Graph, me: nat, cpu: nat)
    requires InBounds(g) && OneWait(g) && cpu < |g| && me in g[cpu]
    ensures NoLoop(Cut(g, cpu), me)
  {
    var h := Cut(g, cpu);
    assert OneWait(h) && InBounds(h);
    forall a: nat | Star(h, a, me)
      ensures !WaitsFor(h, a, a)
    {
      if WaitsFor(h, a, a) {
        if a != me {
          var p :| Path(h, me, a, p);
          LoopReaches(h, me, a, p);
        }
        var q :| Path(h, me, me, q);
        LastStep(h, me, me, q);
      }
    }
  }

  /** The recursion of __deadlock_check with at most `depth` nested calls, from waiter `i` of `node` on. */
  function Scan(g: Graph, cpu: nat, node: nat, i: nat, depth: nat): Option<bool>
    requires node < |g|
    decreases depth, |g| - i
  {
    if i >= |g| then Some(false)
    else if i !in g[node] then Scan(g, cpu, node, i + 1, depth)
    else if i == cpu then Some(true)
    else if depth == 0 then None
    else
      match Scan(g, cpu, i, 0, depth - 1)
      case None => None
      case Some(found) => if found then Some(true) else Scan(g, cpu, node, i + 1, depth)
  }

  predicate Failed(r: Option<bool>) { r.Some? && !r.value }

  /** What the recursion has looked at when it ends: the CPU looked for was found on the way, or nowhere. */
  lemma {:induction false} ScanSound(g: Graph, cpu: nat, node: nat, i: nat, depth: nat)
    requires InBounds(g) && cpu < |g| && node < |g|
    ensures Scan(g, cpu, node, i, depth).Some? && Scan(g, cpu, node, i, depth).value ==> WaitsFor(g, cpu, node)
    ensures Failed(Scan(g, cpu, node, i, depth)) ==>
        forall j: nat :: i <= j && j in g[node] ==> j != cpu && depth > 0 && Failed(Scan(g, cpu, j, 0, depth - 1))
    decreases depth, |g| - i
  {
    hide WaitsFor;
    if i < |g| {
      if i in g[node] && i == cpu {
        Edge(g, node, cpu);
      } else if i in g[node] && depth > 0 {
        ScanSound(g, cpu, i, 0, depth - 1);
        if Scan(g, cpu, i, 0, depth - 1).Some? && Scan(g, cpu, i, 0, depth - 1).value {
          StarStep(g, node, i, cpu);
        }
      }
      ScanSound(g, cpu, node, i + 1, depth);
    }
  }

  /** The first step from `node` into a loop at `a`, from which the loop can still be reached. */
  lemma FirstWaiter(g: Graph, node: nat, a: nat) returns (i: nat)
    requires InBounds(g) && Star(g, a, node) && WaitsFor(g, a, a)
    ensures node < |g| && i in g[node] && Star(g, a, i)
  {
    assert WaitsFor(g, a, node);
    var p :| Path(g, node, a, p);
    FirstStep(g, node, a, p);
    i := p[1];
    if |p| > 2 {
      assert Path(g, i, a, p[1..]);
    }
  }

  /** A search that ends without success has met no loop. */
  lemma {:induction false} ScanMetNoLoop(g: Graph, cpu: nat, node: nat, depth: nat)
    requires InBounds(g) && cpu < |g| && node < |g| && Failed(Scan(g, cpu, node, 0, depth))
    ensures NoLoop(Cut(g, cpu), node)
    decreases depth
  {
    hide WaitsFor, Path;
    var h := Cut(g, cpu);
    ScanSound(g, cpu, node, 0, depth);
    forall a: nat | Star(h, a, node)
      ensures !WaitsFor(h, a, a)
    {
      if WaitsFor(h, a, a) {
        var i := FirstWaiter(h, node, a);
        ScanMetNoLoop(g, cpu, i, depth - 1);
      }
    }
  }

  lemma Fewer(n: nat, path: seq<nat>, i: nat)
    requires i < n && i !in path
    ensures |Unvisited(n, path + [i])| + 1 == |Unvisited(n, path)|
  {
    assert Unvisited(n, path + [i]) == Unvisited(n, path) - {i};
  }

  /** A search from which no loop can be reached ends, at a depth of no more than the CPUs not yet passed. */
  lemma {:induction false} ScanEnds(g: Graph, cpu: nat, node: nat, i: nat, path: seq<nat>, depth: nat)
    requires InBounds(g) && cpu < |g| && node < |g| && node != cpu && depth >= |Unvisited(|g|, path)|
    requires Walk(Cut(g, cpu), path) && path[|path| - 1] == node && NoLoop(Cut(g, cpu), path[0])
    ensures Scan(g, cpu, node, i, depth).Some?
    decreases depth, |g| - i
  {
    assert path != [];
    hide Walk, NoLoop;
    if i < |g| {
      if i in g[node] && i != cpu {
        NoReturn(Cut(g, cpu), path, i);
        assert i in Unvisited(|g|, path);
        Fewer(|g|, path, i);
        ScanEnds(g, cpu, i, 0, path + [i], depth - 1);
      }
      ScanEnds(g, cpu, node, i + 1, path, depth);
    }
  }

  /** Exactly when a search that has nothing to find ends. */
  lemma SearchEndsExactly(g: Graph, cpu: nat, node: nat)
    requires InBounds(g) && cpu < |g| && node < |g| && node != cpu && !WaitsFor(g, cpu, node)
    ensures (exists depth: nat :: Scan(g, cpu, node, 0, depth).Some?) <==> NoLoop(Cut(g, cpu), node)
  {
    hide WaitsFor, NoLoop, Walk;
    if depth: nat :| Scan(g, cpu, node, 0, depth).Some? {
      ScanSound(g, cpu, node, 0, depth);
      ScanMetNoLoop(g, cpu, node, depth);
    }
    if NoLoop(Cut(g, cpu), node) {
      OneWalk(Cut(g, cpu), node);
      ScanEnds(g, cpu, node, 0, [node], |Unvisited(|g|, [node])|);
    }
  }

  /** CPU 1 is in on_cpus and waits for CPUs 0 and 2; CPU 2 waits for CPU 1. */
  const LOOP_ASIDE: Graph := [{1}, {2}, {1}, {0}]

  /** With two waits of one CPU the search of CPU 0, which has started to wait for CPU 3, does not end at any depth. */
  lemma {:induction false} SearchRunsOn(node: nat, depth: nat)
    requires node < 3
    ensures Scan(LOOP_ASIDE, 3, node, 0, depth) == None
    decreases depth
  {
    var g, i := LOOP_ASIDE, if node == 1 then 2 else 1;
    assert Scan(g, 3, node, 0, depth) == Scan(g, 3, node, 1, depth);
    assert Scan(g, 3, node, 1, depth) == Scan(g, 3, node, i, depth);
    if depth > 0 {
      SearchRunsOn(i, depth - 1);
    }
  }

  // ----- waits that overlap -----

  /** A CPU that runs, has entered its wait, has found no deadlock, or has found one. */
  datatype Phase = Running | Entered(cpu: nat) | Checked(cpu: nat) | Reported(cpu: nat)

  datatype State = State(g: Graph, phase: seq<Phase>)

  datatype Step = Enter(me: nat, cpu: nat) | Check(me: nat) | Leave(me: nat)

  ghost predicate Enabled(st: State, e: Step) {
    match e
    case Enter(me, cpu) => me < |st.phase| && cpu < |st.phase| == |st.g| && me != cpu && st.phase[me].Running?
    case Check(me) => me < |st.phase| && st.phase[me].Entered?
    case Leave(me) => me < |st.phase| == |st.g| && st.phase[me].Checked? && st.phase[me].cpu < |st.g|
  }

  /** The steps of cpu_wait: entering the edge, the check of the graph as it is then, and taking the edge out. */
  ghost function Apply(st: State, e: Step): State
    requires Enabled(st, e)
  {
    match e
    case Enter(me, cpu) => State(Insert(st.g, me, cpu), st.phase[me := Entered(cpu)])
    case Check(me) =>
      var cpu := st.phase[me].cpu;
      st.(phase := st.phase[me := if WaitsFor(st.g, cpu, me) then Reported(cpu) else Checked(cpu)])
    case Leave(me) =>
      var cpu := st.phase[me].cpu;
      State(st.g[cpu := st.g[cpu] - {me}], st.phase[me := Running])
  }

  ghost predicate Init(st: State) {
    |st.g| == |st.phase| && forall c: nat :: c < |st.g| ==> st.g[c] == {} && st.phase[c] == Running
  }

  ghost predicate Run(states: seq<State>, steps: seq<Step>) {
    && |states| == |steps| + 1 && Init(states[0])
    && forall i: nat :: i < |steps| ==> Enabled(states[i], steps[i]) && states[i + 1] == Apply(states[i], steps[i])
  }

  ghost predicate InWait(phase: seq<Phase>, i: nat, c: nat) {
    i < |phase| && !phase[i].Running? && phase[i].cpu == c
  }

  /** The waiters of each CPU are those that have entered a wait for it and not left it. */
  ghost predicate EdgesOk(st: State) {
    && |st.g| == |st.phase|
    && (forall i: nat :: i < |st.phase| && !st.phase[i].Running? ==> st.phase[i].cpu < |st.g| && st.phase[i].cpu != i)
    && (forall c: nat, i: nat :: c < |st.g| ==> (i in st.g[c] <==> InWait(st.phase, i, c)))
  }

  /** Those that wait for `c` and have found no deadlock. */
  ghost function Trusting(phase: seq<Phase>, c: int): set<nat> {
    set i: nat | i < |phase| && phase[i].Checked? && phase[i].cpu == c
  }

  /** The edges of those that have found no deadlock. */
  ghost function Trusted(st: State): (h: Graph)
    ensures |h| == |st.phase| && forall c: nat :: c < |h| ==> h[c] == Trusting(st.phase, c)
  {
    seq(|st.phase|, c => Trusting(st.phase, c))
  }

  ghost predicate Inv(st: State) {
    EdgesOk(st) && Acyclic(Trusted(st))
  }

  lemma TrustedWithin(st: State)
    requires EdgesOk(st)
    ensures InBounds(st.g) && OneWait(st.g) && InBounds(Trusted(st)) && Within(Trusted(st), st.g)
  {
    var g, h := st.g, Trusted(st);
    forall c: nat, i: nat | c < |h| && i in h[c]
      ensures i < |h| && i in g[c]
    {
      assert h[c] == Trusting(st.phase, c);
      assert InWait(st.phase, i, c);
    }
    forall c: nat, i: nat | c < |g| && i in g[c]
      ensures InWait(st.phase, i, c)
    {
    }
    assert forall c: nat :: c < |h| ==> h[c] <= g[c];
  }

  lemma EdgesKept(st: State, e: Step)
    requires EdgesOk(st) && Enabled(st, e)
    ensures EdgesOk(Apply(st, e))
  {
    hide WaitsFor;
    var st', me := Apply(st, e), e.me;
    forall c: nat, i: nat | c < |st'.g|
      ensures i in st'.g[c] <==> InWait(st'.phase, i, c)
    {
      assert i in st.g[c] <==> InWait(st.phase, i, c);
    }
  }

  lemma SameTrusted(st: State, st': State)
    requires |st.phase| == |st'.phase|
    requires forall i: nat :: i < |st.phase| ==>
        st'.phase[i] == st.phase[i] || !(st.phase[i].Checked? || st'.phase[i].Checked?)
    ensures Trusted(st') == Trusted(st)
  {
    forall c: nat | c < |st.phase|
      ensures Trusted(st')[c] == Trusted(st)[c]
    {
    }
  }

  /** A check that finds nothing adds an edge that closes no cycle of edges that were checked before. */
  lemma CheckKeeps(st: State, me: nat)
    requires Inv(st) && Enabled(st, Check(me))
    ensures Acyclic(Trusted(Apply(st, Check(me))))
  {
    hide Acyclic, WaitsFor;
    TrustedWithin(st);
    var cpu, h, st' := st.phase[me].cpu, Trusted(st), Apply(st, Check(me));
    if WaitsFor(st.g, cpu, me) {
      SameTrusted(st, st');
    } else {
      if WaitsFor(h, cpu, me) {
        WaitsWithin(h, st.g, cpu, me);
      }
      ClosesCycle(h, me, cpu);
      forall c: nat | c < |h|
        ensures Trusted(st')[c] == Insert(h, me, cpu)[c]
      {
      }
      assert Trusted(st') == Insert(h, me, cpu);
    }
  }

  lemma StepKeeps(st: State, e: Step)
    requires Inv(st) && Enabled(st, e)
    ensures Inv(Apply(st, e))
  {
    hide Acyclic, WaitsFor;
    EdgesKept(st, e);
    match e
    case Enter(me, cpu) => SameTrusted(st, Apply(st, e));
    case Check(me) => CheckKeeps(st, me);
    case Leave(me) =>
      AcyclicWithin(Trusted(Apply(st, e)), Trusted(st));
  }

  lemma InitInv(st: State)
    requires Init(st)
    ensures Inv(st)
  {
    var h := Trusted(st);
    forall a: nat
      ensures !WaitsFor(h, a, a)
    {
      if WaitsFor(h, a, a) {
        var p :| Path(h, a, a, p);
        FirstStep(h, a, a, p);
      }
    }
  }

  lemma {:induction false} RunKeeps(states: seq<State>, steps: seq<Step>, i: nat)
    requires Run(states, steps) && i < |states|
    ensures Inv(states[i])
  {
    hide Inv, Apply, Enabled;
    if i > 0 {
      RunKeeps(states, steps, i - 1);
      StepKeeps(states[i - 1], steps[i - 1]);
    } else {
      InitInv(states[0]);
    }
  }

  /**
   However the waits of all CPUs overlap: when none of them is between entering and checking, there is a cycle only if
   one of them has reported.
   */
  lemma CycleReported(states: seq<State>, steps: seq<Step>, i: nat)
    requires Run(states, steps) && i < |states| && !Acyclic(states[i].g)
    ensures exists c: nat :: c < |states[i].phase| && (states[i].phase[c].Entered? || states[i].phase[c].Reported?)
  {
    hide Acyclic;
    var st := states[i];
    RunKeeps(states, steps, i);
    if forall c: nat :: c < |st.phase| ==> !(st.phase[c].Entered? || st.phase[c].Reported?) {
      forall c: nat | c < |st.g|
        ensures st.g[c] == Trusted(st)[c]
      {
      }
      assert st.g == Trusted(st);
    }
  }

  lemma OwnLoop(g: Graph, me: nat, cpu: nat)
    requires InBounds(g) && OneWait(g) && cpu < |g| && me in g[cpu] && me != cpu
    ensures WaitsFor(g, cpu, me) <==> WaitsFor(g, me, me)
  {
    if WaitsFor(g, cpu, me) {
      Edge(g, cpu, me);
      Trans(g, me, cpu, me);
    } else if WaitsFor(g, me, me) {
      var p :| Path(g, me, me, p);
      LastStep(g, me, me, p);
    }
  }

  /** A check reports exactly when the CPU that checks is in a cycle of waits at that moment. */
  lemma ReportsExactly(states: seq<State>, steps: seq<Step>, i: nat)
    requires Run(states, steps) && i < |steps| && steps[i].Check?
    ensures var me, g := steps[i].me, states[i].g;
            && me < |states[i + 1].phase|
            && (states[i + 1].phase[me].Reported? <==> WaitsFor(g, me, me))
            && (states[i + 1].phase[me].Checked? <==> !WaitsFor(g, me, me))
            && (states[i + 1].phase[me].Reported? ==> !Acyclic(g))
  {
    RunKeeps(states, steps, i);
    var me, st := steps[i].me, states[i];
    TrustedWithin(st);
    assert InWait(st.phase, me, st.phase[me].cpu);
    hide WaitsFor;
    OwnLoop(st.g, me, st.phase[me].cpu);
  }

  /** Of two CPUs that wait for each other, not both have checked without a report. */
  lemma OneOfTwoReports(states: seq<State>, steps: seq<Step>, i: nat, a: nat, b: nat)
    requires Run(states, steps) && i < |states| && a < |states[i].phase| && b < |states[i].phase|
    ensures !(states[i].phase[a] == Checked(b) && states[i].phase[b] == Checked(a))
  {
    RunKeeps(states, steps, i);
    var st := states[i];
    if st.phase[a] == Checked(b) && st.phase[b] == Checked(a) {
      var h := Trusted(st);
      TrustedWithin(st);
      Edge(h, a, b);
      Edge(h, b, a);
      Trans(h, a, b, a);
    }
  }

  /** In every state of every run the search of a CPU that is about to check ends. */
  lemma CheckEnds(states: seq<State>, steps: seq<Step>, i: nat, me: nat)
    requires Run(states, steps) && i < |states| && me < |states[i].phase| && states[i].phase[me].Entered?
    ensures var st := states[i];
            st.phase[me].cpu < |st.g| && InBounds(st.g) && NoLoop(Cut(st.g, st.phase[me].cpu), me)
  {
    hide NoLoop;
    RunKeeps(states, steps, i);
    TrustedWithin(states[i]);
    SearchEnds(states[i].g, me, states[i].phase[me].cpu);
  }

  class WaitGraph {
    const waiters: array<set<nat>>

    constructor (cpus: nat)
      ensures Valid() && waiters.Length == cpus && fresh(waiters)
    {
      waiters := new set<nat>[cpus](_ => {});
      new;
      forall a: nat
        ensures !WaitsFor(waiters[..], a, a)
      {
        if WaitsFor(waiters[..], a, a) {
          var p :| Path(waiters[..], a, a, p);
          FirstStep(waiters[..], a, a, p);
        }
      }
    }

    ghost predicate Valid()
      reads this, waiters
    {
      InBounds(waiters[..]) && Acyclic(waiters[..])
    }

    /** deadlock_check, of a graph in which no loop can be reached: does the CPU waited for wait for `me`? */
    method DeadlockCheck(me: nat, cpu: nat) returns (deadlock: bool)
      requires me < waiters.Length && cpu < waiters.Length && me != cpu && InBounds(waiters[..])
      requires NoLoop(Cut(waiters[..], cpu), me)
      ensures deadlock <==> WaitsFor(waiters[..], cpu, me)
    {
      hide WaitsFor, NoLoop, Walk;
      OneWalk(Cut(waiters[..], cpu), me);
      deadlock := DeadlockCheckFrom(waiters[..], cpu, me, [me]);
    }

    /**
     The start of cpu_wait. The check runs after the edge is in the graph, and it reports a deadlock
     exactly when the edge has closed a cycle; otherwise the graph stays acyclic.
     */
    method StartWait(me: nat, cpu: nat) returns (deadlock: bool)
      requires Valid() && me < waiters.Length && cpu < waiters.Length
      modifies waiters
      ensures me == cpu ==> !deadlock && waiters[..] == old(waiters[..])
      ensures me != cpu ==> waiters[..] == Insert(old(waiters[..]), me, cpu)
      ensures deadlock <==> !Acyclic(waiters[..])
      ensures !deadlock ==> Valid()
      ensures me != cpu ==> (deadlock <==> WaitsFor(old(waiters[..]), cpu, me))
    {
      hide WaitsFor, Acyclic, Walk;
      if me == cpu {
        return false;
      }
      ClosesCycle(waiters[..], me, cpu);
      waiters[cpu] := waiters[cpu] + {me};
      ghost var g, h := old(waiters[..]), waiters[..];
      assert h == Insert(g, me, cpu);
      assert Cut(h, cpu) == Cut(g, cpu);
      AcyclicWithin(Cut(g, cpu), g);
      CutWaits(g, cpu, me);
      CutWaits(h, cpu, me);
      AcyclicNoLoop(Cut(h, cpu), me);
      deadlock := DeadlockCheck(me, cpu);
    }

    /** The waits of on_cpus: for every other CPU, with a check after each edge. */
    method StartWaitAll(me: nat) returns (deadlock: bool)
      requires Valid() && me < waiters.Length
      modifies waiters
      ensures deadlock <==> !Acyclic(waiters[..])
      ensures !deadlock ==>
                Valid() && forall c: nat :: c < waiters.Length ==>
                  waiters[c] == old(waiters[c]) + if c == me then {} else {me}
    {
      hide Acyclic;
      for cpu := 0 to waiters.Length
        invariant Valid()
        invariant forall c: nat :: c < waiters.Length ==>
            waiters[c] == old(waiters[c]) + if c == me || c >= cpu then {} else {me}
      {
        if cpu != me {
          ghost var before := waiters[..];
          deadlock := StartWait(me, cpu);
          if deadlock {
            return;
          }
          assert forall c: nat :: c < waiters.Length ==> waiters[c] == Insert(before, me, cpu)[c];
        }
      }
      deadlock := false;
    }

    /** The end of cpu_wait. */
    method EndWait(me: nat, cpu: nat)
      requires Valid() && cpu < waiters.Length
      modifies waiters
      ensures Valid() && waiters[..] == old(waiters[..])[cpu := old(waiters[cpu]) - {me}]
    {
      hide Acyclic;
      waiters[cpu] := waiters[cpu] - {me};
      AcyclicWithin(waiters[..], old(waiters[..]));
    }
  }
}
