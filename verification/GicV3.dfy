/**
 Sending an inter-processor interrupt to a set of CPUs (gicv3_ipi_send_mask in lib/arm/gic-v3.c): each
 write to the SGI register names a cluster and up to 16 CPUs of it.
 */
module GicV3 {
  import opened Words
  import opened Arith

  function Aff0(mpidr: nat): nat { mpidr % 256 }

  /** The affinity levels above Aff0. */
  function Cluster(mpidr: nat): nat { mpidr - mpidr % 256 }

  /** A write to the SGI register: the cluster, the interrupt and the bits of the 16-bit target list. */
  datatype SgiWrite = SgiWrite(cluster: nat, irq: nat, tlist: set<nat>)

  /** The CPUs that receive the interrupt of a write. */
  predicate Targets(w: SgiWrite, mpidr: nat) {
    Cluster(mpidr) == w.cluster && Aff0(mpidr) in w.tlist
  }

  // ----- the register word -----

  /** The levels above Aff0, as MPIDR_AFFINITY_LEVEL takes them from an MPIDR. */
  function Aff1(mpidr: nat): nat { mpidr / 0x100 % 256 }

  function Aff2(mpidr: nat): nat { mpidr / 0x1_0000 % 256 }

  function Aff3(mpidr: nat): nat { mpidr / 0x1_0000_0000 % 256 }

  /** No bits but those of the four levels: MPIDR_HWID_BITMASK. */
  predicate IsHwid(mpidr: nat) {
    mpidr == Aff3(mpidr) * 0x1_0000_0000 + Aff2(mpidr) * 0x1_0000 + Aff1(mpidr) * 0x100 + Aff0(mpidr)
  }

  /** The target list as the low `n` bits of a word. */
  function Bits(tlist: set<nat>, n: nat): (r: nat)
    ensures r < Pow2(n)
  {
    if n == 0 then 0 else Bits(tlist, n - 1) + if n - 1 in tlist then Pow2(n - 1) else 0
  }

  lemma {:induction false} Half(b: nat, n: nat) returns (k: nat)
    requires b < n
    ensures Pow2(n) == 2 * k * Pow2(b)
  {
    if b == n - 1 {
      k := 1;
    } else {
      var k1 := Half(b, n - 1);
      k := 2 * k1;
    }
  }

  /** Bit `b` of the list says whether CPU `b` of the cluster is a target. */
  lemma {:induction false} BitIs(tlist: set<nat>, n: nat, b: nat)
    requires b < n
    ensures Bits(tlist, n) / Pow2(b) % 2 == if b in tlist then 1 else 0
  {
    var low := Bits(tlist, n - 1);
    assert Bits(tlist, n) == low + if n - 1 in tlist then Pow2(n - 1) else 0;
    if b < n - 1 {
      BitIs(tlist, n - 1, b);
    }
    hide Bits, Pow2;
    if b == n - 1 {
      DivIs(Bits(tlist, n), if b in tlist then 1 else 0, Pow2(b));
    } else if n - 1 in tlist {
      var k := Half(b, n - 1);
      AddMul(low, 2 * k, Pow2(b));
      AddMul(low / Pow2(b), k, 2);
    }
  }

  /** The word that gicv3_ipi_send_mask writes to ICC_SGI1R_EL1. */
  function Sgi1r(w: SgiWrite): nat {
    Aff3(w.cluster) * 0x1_0000_0000_0000 + Aff2(w.cluster) * 0x1_0000_0000 + w.irq * 0x100_0000
    + Aff1(w.cluster) * 0x1_0000 + Bits(w.tlist, 16)
  }

  /** The CPUs that the word reaches: its affinity fields match, and the bit of their Aff0 is set in its low 16 bits. */
  predicate Receives(word: nat, mpidr: nat) {
    && word / 0x1_0000_0000_0000 % 256 == Aff3(mpidr) && word / 0x1_0000_0000 % 256 == Aff2(mpidr)
    && word / 0x1_0000 % 256 == Aff1(mpidr)
    && Aff0(mpidr) < 16 && word % 0x1_0000 / Pow2(Aff0(mpidr)) % 2 == 1
  }

  function Intid(word: nat): nat { word / 0x100_0000 % 16 }

  lemma FieldIs(hi: nat, v: nat, n: nat, lo: nat, s: nat)
    requires v < n && lo < s
    ensures ((hi * n + v) * s + lo) / s % n == v
  {
    DivIs((hi * n + v) * s + lo, hi * n + v, s);
    DivIs(hi * n + v, hi, n);
  }

  lemma FieldsIs(a3: nat, a2: nat, irq: nat, a1: nat, bits: nat)
    requires a3 < 256 && a2 < 256 && irq < 16 && a1 < 256 && bits < 0x1_0000
    ensures var word := a3 * 0x1_0000_0000_0000 + a2 * 0x1_0000_0000 + irq * 0x100_0000 + a1 * 0x1_0000 + bits;
            && word / 0x1_0000_0000_0000 % 256 == a3 && word / 0x1_0000_0000 % 256 == a2
            && word / 0x100_0000 % 16 == irq && word / 0x1_0000 % 256 == a1 && word % 0x1_0000 == bits
  {
    FieldIs(0, a3, 256, a2 * 0x1_0000_0000 + irq * 0x100_0000 + a1 * 0x1_0000 + bits, 0x1_0000_0000_0000);
    FieldIs(a3 * 0x100, a2, 256, irq * 0x100_0000 + a1 * 0x1_0000 + bits, 0x1_0000_0000);
    FieldIs(a3 * 0x10_0000 + a2 * 0x10, irq, 16, a1 * 0x1_0000 + bits, 0x100_0000);
    var hi := a3 * 0x100_0000 + a2 * 0x100 + irq;
    FieldIs(hi, a1, 256, bits, 0x1_0000);
    DivIs((hi * 256 + a1) * 0x1_0000 + bits, hi * 256 + a1, 0x1_0000);
  }

  lemma Sixteen()
    ensures Pow2(16) == 0x1_0000
  {
    assert Pow2(4) == 16;
    assert Pow2(8) == 16 * Pow2(4);
    assert Pow2(12) == 16 * Pow2(8);
    assert Pow2(16) == 16 * Pow2(12);
  }

  lemma UpperLevels(m: nat)
    ensures Aff1(Cluster(m)) == Aff1(m) && Aff2(Cluster(m)) == Aff2(m) && Aff3(Cluster(m)) == Aff3(m)
  {
    DivIs(Cluster(m), m / 256, 256);
    DivMul(m, 256, 256, 0x1_0000);
    DivMul(Cluster(m), 256, 256, 0x1_0000);
    DivMul(m, 256, 0x100_0000, 0x1_0000_0000);
    DivMul(Cluster(m), 256, 0x100_0000, 0x1_0000_0000);
  }

  /** The cluster of a hardware id has its upper levels, and these say which cluster it is. */
  lemma ClusterIs(m: nat, m': nat)
    requires IsHwid(m) && IsHwid(m')
    ensures Aff1(Cluster(m)) == Aff1(m) && Aff2(Cluster(m)) == Aff2(m) && Aff3(Cluster(m)) == Aff3(m)
    ensures Cluster(m) == Cluster(m') <==> Aff1(m) == Aff1(m') && Aff2(m) == Aff2(m') && Aff3(m) == Aff3(m')
  {
    UpperLevels(m);
    UpperLevels(m');
    assert Cluster(m) == m - Aff0(m) && Cluster(m') == m' - Aff0(m');
    hide Aff0, Aff1, Aff2, Aff3, Cluster;
  }

  lemma LevelsFit(m: nat)
    ensures Aff1(m) < 256 && Aff2(m) < 256 && Aff3(m) < 256
  {}

  /** The word carries the interrupt and reaches exactly the targets of the write. */
  lemma WordReaches(w: SgiWrite, from: nat, mpidr: nat)
    requires IsHwid(from) && IsHwid(mpidr) && w.cluster == Cluster(from) && w.irq < 16
    requires forall b :: b in w.tlist ==> b < 16
    ensures Intid(Sgi1r(w)) == w.irq && (Receives(Sgi1r(w), mpidr) <==> Targets(w, mpidr))
  {
    hide Aff0, Aff1, Aff2, Aff3, IsHwid, Cluster, Bits, Pow2;
    LevelsFit(w.cluster);
    Sixteen();
    FieldsIs(Aff3(w.cluster), Aff2(w.cluster), w.irq, Aff1(w.cluster), Bits(w.tlist, 16));
    ClusterIs(from, mpidr);
    if Aff0(mpidr) < 16 {
      BitIs(w.tlist, 16, Aff0(mpidr));
    }
  }

  // ----- how often the writes reach a CPU -----

  /** How often the writes reach a CPU. */
  function Hits(log: seq<nat>, mpidr: nat): nat {
    if log == [] then 0
    else Hits(log[..|log| - 1], mpidr) + if Receives(log[|log| - 1], mpidr) then 1 else 0
  }

  lemma HitsAppend(log: seq<nat>, word: nat, mpidr: nat)
    ensures Hits(log + [word], mpidr) == Hits(log, mpidr) + if Receives(word, mpidr) then 1 else 0
  {
    hide Receives;
    assert (log + [word])[..|log|] == log;
  }

  ghost predicate Distinct(cpus: seq<nat>) {
    forall i, j :: 0 <= i < j < |cpus| ==> cpus[i] != cpus[j]
  }

  /** CPUs of one cluster with the same Aff0 are the same CPU. */
  lemma SameCpu(cpus: seq<nat>, i: nat, j: nat)
    requires Distinct(cpus) && i < |cpus| && j < |cpus|
    requires Cluster(cpus[i]) == Cluster(cpus[j]) && Aff0(cpus[i]) == Aff0(cpus[j])
    ensures i == j
  {
    assert cpus[i] == Cluster(cpus[i]) + Aff0(cpus[i]) == cpus[j];
  }

  /** cpumask_next: the next CPU of the mask behind `cpu`, or the number of CPUs. */
  method CpumaskNext(cpu: int, mask: set<nat>, nrCpus: nat) returns (r: int)
    requires -1 <= cpu
    ensures cpu >= nrCpus ==> r == cpu
    ensures cpu < nrCpus ==> cpu < r <= nrCpus && (r < nrCpus ==> r in mask)
    ensures forall c: nat :: cpu < c < r ==> c !in mask
  {
    r := cpu;
    while r < nrCpus
      invariant cpu <= r && (cpu < nrCpus ==> r <= nrCpus) && (cpu >= nrCpus ==> r == cpu)
      invariant forall c: nat :: cpu < c <= r ==> c !in mask
    {
      r := r + 1;
      if r in mask {
        return;
      }
    }
  }

  /** CPUs of the mask from `start` up to `stop`, as far as a target list can name them. */
  ghost predicate Covered(cpus: seq<nat>, mask: set<nat>, start: nat, stop: int, c: nat)
    requires c < |cpus|
  {
    start <= c < stop && c in mask && Aff0(cpus[c]) < 16
  }

  /** The target list names exactly the CPUs of the mask between `start` and `stop`. */
  ghost predicate Lists(cpus: seq<nat>, mask: set<nat>, start: nat, stop: int, cluster: nat, tlist: set<nat>) {
    && (forall b :: b in tlist ==> b < 16)
    && forall c: nat :: c < |cpus| ==>
         (Covered(cpus, mask, start, stop, c) <==> Cluster(cpus[c]) == cluster && Aff0(cpus[c]) in tlist)
  }

  lemma ListsAdd(cpus: seq<nat>, mask: set<nat>, start: nat, cpu: nat, cluster: nat, tlist: set<nat>)
    requires Distinct(cpus) && Lists(cpus, mask, start, cpu, cluster, tlist) && start <= cpu < |cpus| && cpu in mask
    requires Cluster(cpus[cpu]) == cluster && Aff0(cpus[cpu]) < 16
    ensures Lists(cpus, mask, start, cpu + 1, cluster, tlist + {Aff0(cpus[cpu])})
  {
    hide Aff0, Cluster, Distinct;
    forall c: nat | c < |cpus| && Cluster(cpus[c]) == cluster && Aff0(cpus[c]) == Aff0(cpus[cpu])
      ensures c == cpu
    {
      SameCpu(cpus, c, cpu);
    }
  }

  lemma ListsSkip(cpus: seq<nat>, mask: set<nat>, start: nat, stop: int, stop': int, cluster: nat, tlist: set<nat>)
    requires Lists(cpus, mask, start, stop, cluster, tlist) && stop <= stop'
    requires forall c: nat :: c < |cpus| && stop <= c < stop' ==> c !in mask || Aff0(cpus[c]) >= 16
    ensures Lists(cpus, mask, start, stop', cluster, tlist)
  {
    hide Aff0, Cluster;
    forall c: nat | c < |cpus|
      ensures Covered(cpus, mask, start, stop', c) <==> Covered(cpus, mask, start, stop, c)
    {
    }
  }

  lemma ListsNone(cpus: seq<nat>, mask: set<nat>, start: nat, cluster: nat)
    ensures Lists(cpus, mask, start, start, cluster, {})
  {}

  /**
   The inner loop: the target list of the cluster of `start`, and the index at which the loop leaves
   off, rolled back by one where the next CPU belongs to another cluster.
   */
  method CollectPeers(cpus: seq<nat>, mask: set<nat>, start: nat) returns (cpu: int, tlist: set<nat>, ghost stop: int)
    requires Distinct(cpus) && start < |cpus| && start in mask
    ensures start < stop && stop - 1 <= cpu && Lists(cpus, mask, start, stop, Cluster(cpus[start]), tlist)
    ensures forall c: nat :: c < |cpus| && stop <= c <= cpu ==> c !in mask
    ensures cpu <= |cpus| && (cpu == |cpus| ==> stop <= cpu)
  {
    hide Aff0, Cluster, Distinct, Lists;
    cpu := start;
    var mpidr := cpus[cpu];
    var clusterId := Cluster(mpidr);
    tlist := {};
    ListsNone(cpus, mask, start, clusterId);
    while cpu < |cpus|
      invariant start <= cpu < |cpus| && cpu in mask && mpidr == cpus[cpu] && Cluster(mpidr) == clusterId
      invariant Lists(cpus, mask, start, cpu, clusterId, tlist)
      decreases |cpus| - cpu
    {
      if Aff0(mpidr) >= 16 {
        ListsSkip(cpus, mask, start, cpu, cpu + 1, clusterId, tlist);
        return cpu, tlist, cpu + 1;
      }
      ListsAdd(cpus, mask, start, cpu, clusterId, tlist);
      tlist := tlist + {Aff0(mpidr)};
      ghost var last := cpu;
      cpu := CpumaskNext(cpu, mask, |cpus|);
      ListsSkip(cpus, mask, start, last + 1, cpu, clusterId, tlist);
      if cpu >= |cpus| {
        return cpu, tlist, cpu;
      }
      mpidr := cpus[cpu];
      if clusterId != Cluster(mpidr) {
        stop := cpu;
        cpu := cpu - 1;
        return;
      }
    }
    stop := cpu;
  }

  /** The CPUs of the mask below `cpu` have been reached once, and no others. */
  ghost predicate Sent(cpus: seq<nat>, mask: set<nat>, cpu: int, log: seq<nat>) {
    forall c: nat :: c < |cpus| ==> Hits(log, cpus[c]) == if Covered(cpus, mask, 0, cpu, c) then 1 else 0
  }

  lemma SentNone(cpus: seq<nat>, mask: set<nat>, cpu: int)
    requires forall c: nat :: c < cpu ==> c !in mask
    ensures Sent(cpus, mask, cpu, [])
  {}

  lemma SentMore(cpus: seq<nat>, mask: set<nat>, start: nat, stop: int, log: seq<nat>, w: SgiWrite)
    requires Sent(cpus, mask, start, log) && start < stop && Lists(cpus, mask, start, stop, w.cluster, w.tlist)
    requires start < |cpus| && w.cluster == Cluster(cpus[start]) && w.irq < 16
    requires forall c: nat :: c < |cpus| ==> IsHwid(cpus[c])
    ensures Sent(cpus, mask, stop, log + [Sgi1r(w)])
  {
    hide Aff0, Cluster, Hits, IsHwid, Receives, Sgi1r;
    forall c: nat | c < |cpus|
      ensures Hits(log + [Sgi1r(w)], cpus[c]) == if Covered(cpus, mask, 0, stop, c) then 1 else 0
    {
      HitsAppend(log, Sgi1r(w), cpus[c]);
      WordReaches(w, cpus[start], cpus[c]);
      assert Covered(cpus, mask, start, stop, c) <==> Targets(w, cpus[c]);
    }
  }

  lemma SentSkip(cpus: seq<nat>, mask: set<nat>, stop: int, cpu: int, log: seq<nat>)
    requires Sent(cpus, mask, stop, log) && stop <= cpu && forall c: nat :: c < |cpus| && stop <= c < cpu ==> c !in mask
    ensures Sent(cpus, mask, cpu, log)
  {
    hide Aff0, Hits;
  }

  /**
   gicv3_ipi_send_mask: the words written reach each CPU of the mask whose Aff0 is below 16 exactly once,
   and no other CPU.
   */
  method IpiSendMask(irq: nat, cpus: seq<nat>, mask: set<nat>) returns (log: seq<nat>)
    requires irq < 16 && Distinct(cpus) && forall c: nat :: c < |cpus| ==> IsHwid(cpus[c])
    ensures forall c: nat :: c < |cpus| ==> Hits(log, cpus[c]) == if c in mask && Aff0(cpus[c]) < 16 then 1 else 0
    ensures forall word :: word in log ==> Intid(word) == irq
  {
    hide Aff0, Cluster, Distinct, Hits, IsHwid, Sgi1r, Intid, Receives;
    log := [];
    var cpu := CpumaskNext(-1, mask, |cpus|);
    SentNone(cpus, mask, cpu);
    while cpu < |cpus|
      invariant 0 <= cpu && (cpu < |cpus| ==> cpu in mask)
      invariant Sent(cpus, mask, cpu, log)
      invariant forall word :: word in log ==> Intid(word) == irq
      decreases |cpus| - cpu
    {
      var start := cpu;
      var tlist;
      ghost var stop;
      cpu, tlist, stop := CollectPeers(cpus, mask, start);
      var w := SgiWrite(Cluster(cpus[start]), irq, tlist);
      SentMore(cpus, mask, start, stop, log, w);
      WordReaches(w, cpus[start], cpus[start]);
      log := log + [Sgi1r(w)];
      cpu := CpumaskNext(cpu, mask, |cpus|);
      SentSkip(cpus, mask, stop, cpu, log);
    }
  }
}
