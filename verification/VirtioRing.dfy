/**
 The queues of a split virtqueue as sequences, and how they lie in rings that 16-bit indexes
 walk around (section 2.6 of VIRTIO 1.1, lib/virtio.c).
 */
module VirtioRing {
  import opened Words
  import opened Arith

  const VRING_DESC_F_NEXT: nat := 1

  datatype Desc = Desc(addr: nat, len: nat, flags: nat, next: nat)

  datatype UsedElem = UsedElem(id: nat, len: nat)

  /** Queue sizes: the powers of two that a 16-bit index can serve. */
  predicate QueueSize(num: nat) {
    num > 0 && TWO16 % num == 0
  }

  lemma QueueDivides(num: nat)
    requires QueueSize(num)
    ensures TWO16 == TWO16 / num * num && num <= TWO16
  {
    if num > TWO16 {
      DivIs(TWO16, 0, num);
    }
  }

  // ----- rings -----

  function Slot(start: nat, i: nat, num: nat): (s: nat)
    requires num > 0
    ensures s < num
  {
    (start + i) % num
  }

  /** A queue that lies in a ring from index `start` on. */
  ghost predicate InRing(ring: seq<nat>, start: nat, q: seq<nat>) {
    |q| <= |ring| && forall i: nat :: i < |q| ==> ring[Slot(start, i, |ring|)] == q[i]
  }

  /** Slots less than `num` apart are different. */
  lemma SlotApart(start: nat, i: nat, j: nat, num: nat)
    requires i < j < i + num
    ensures Slot(start, i, num) != Slot(start, j, num)
  {
    var q, r := (start + i) / num, (start + i) % num;
    if r + (j - i) < num {
      DivIs(start + j, q, num);
    } else {
      DivIs(start + j, q + 1, num);
    }
  }

  /** A 16-bit index that has wrapped around selects the same slot. */
  lemma SlotWrap(start: nat, i: nat, num: nat)
    requires QueueSize(num)
    ensures Slot(start % TWO16, i, num) == Slot(start, i, num)
  {
    QueueDivides(num);
    var m, k := TWO16 / num, start / TWO16;
    Regroup(k, m, 0, num);
    AddMul(start % TWO16 + i, k * m, num);
  }

  lemma RingWrap(ring: seq<nat>, start: nat, q: seq<nat>)
    requires QueueSize(|ring|)
    ensures InRing(ring, start % TWO16, q) <==> InRing(ring, start, q)
  {
    hide Slot;
    forall i: nat
      ensures Slot(start % TWO16, i, |ring|) == Slot(start, i, |ring|)
    {
      SlotWrap(start, i, |ring|);
    }
  }

  lemma RingPush(ring: seq<nat>, start: nat, q: seq<nat>, x: nat)
    requires InRing(ring, start, q) && |q| < |ring|
    ensures InRing(ring[Slot(start, |q|, |ring|) := x], start, q + [x])
  {
    hide Slot;
    var ring' := ring[Slot(start, |q|, |ring|) := x];
    forall i: nat | i < |q| + 1
      ensures ring'[Slot(start, i, |ring|)] == (q + [x])[i]
    {
      if i < |q| {
        SlotApart(start, i, |q|, |ring|);
      }
    }
  }

  lemma RingPop(ring: seq<nat>, start: nat, q: seq<nat>)
    requires InRing(ring, start, q) && q != []
    ensures ring[Slot(start, 0, |ring|)] == q[0] && InRing(ring, start + 1, q[1..])
  {
    forall i: nat | i < |q| - 1
      ensures ring[Slot(start + 1, i, |ring|)] == q[1..][i]
    {
      assert Slot(start + 1, i, |ring|) == Slot(start, i + 1, |ring|);
    }
  }

  // ----- the free chain -----

  /** The free descriptors, linked through their next fields. */
  ghost predicate FreeChain(desc: seq<Desc>, head: nat, free: seq<nat>) {
    && (free != [] ==> head == free[0])
    && (forall i: nat :: i < |free| ==> free[i] < |desc|)
    && (forall i: nat :: i + 1 < |free| ==> desc[free[i]].next == free[i + 1])
  }

  function Descs(num: nat): seq<nat> {
    seq(num, i => i)
  }

  /** Every descriptor is in exactly one of the four lists. */
  ghost predicate Conserved(num: nat, free: seq<nat>, offered: seq<nat>, held: seq<nat>, returned: seq<nat>) {
    multiset(free) + multiset(offered) + multiset(held) + multiset(returned) == multiset(Descs(num))
  }
}
