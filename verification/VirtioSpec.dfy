/** The states of a virtqueue and what every step of the driver and of the device keeps. */
module VirtioSpec {
  import opened Words
  import opened VirtioRing

  /** The memory and the registers of a virtqueue; `devAvail` is the device's own index into the available ring. */
  datatype Queue = Queue(desc: seq<Desc>, avail: seq<nat>, used: seq<UsedElem>, data: seq<nat>,
                         availIdx: nat, devAvail: nat, usedIdx: nat, lastUsed: nat, freeHead: nat, numFree: nat)

  /**
   Where each descriptor is: free, offered to the device, held by the device, or returned by the
   device and not yet reaped.
   */
  datatype Lists = Lists(free: seq<nat>, offered: seq<nat>, held: seq<nat>, returned: seq<nat>)

  /** A buffer as the driver gives it. */
  datatype Buf = Buf(addr: nat, len: nat)

  /** The buffers behind the offered, held and returned descriptors, and the lengths that came with the last ones. */
  datatype Buffers = Buffers(offered: seq<Buf>, held: seq<Buf>, returned: seq<Buf>, lens: seq<nat>)

  function Ids(used: seq<UsedElem>): (ids: seq<nat>)
    ensures |ids| == |used| && forall i :: 0 <= i < |used| ==> ids[i] == used[i].id
  {
    seq(|used|, i requires 0 <= i < |used| => used[i].id)
  }

  function Lens(used: seq<UsedElem>): (lens: seq<nat>)
    ensures |lens| == |used| && forall i :: 0 <= i < |used| ==> lens[i] == used[i].len
  {
    seq(|used|, i requires 0 <= i < |used| => used[i].len)
  }

  ghost predicate Sizes(v: Queue) {
    QueueSize(|v.desc|) && |v.avail| == |v.used| == |v.data| == |v.desc|
  }

  /** The two rings and their indexes, which wrap around at 16 bits. */
  ghost predicate Rings(v: Queue, l: Lists) {
    && InRing(v.avail, v.devAvail, l.offered) && v.availIdx == (v.devAvail + |l.offered|) % TWO16
    && InRing(Ids(v.used), v.lastUsed, l.returned) && v.usedIdx == (v.lastUsed + |l.returned|) % TWO16
    && v.devAvail < TWO16 && v.lastUsed < TWO16
  }

  ghost predicate InFlight(v: Queue, list: seq<nat>) {
    forall d :: d in list ==> d < |v.desc| == |v.data| && v.data[d] != 0 && v.desc[d].flags == 0
  }

  ghost predicate Ok(v: Queue, l: Lists) {
    && Sizes(v)
    && Conserved(|v.desc|, l.free, l.offered, l.held, l.returned)
    && FreeChain(v.desc, v.freeHead, l.free) && v.numFree == |l.free|
    && Rings(v, l)
    && InFlight(v, l.offered) && InFlight(v, l.held) && InFlight(v, l.returned)
  }

  /** What the device reads in each descriptor of a list is the buffer that the driver gave, and remembers. */
  ghost predicate Carries(v: Queue, list: seq<nat>, bufs: seq<Buf>) {
    && |bufs| == |list|
    && forall i: nat :: i < |list| ==>
         && list[i] < |v.desc| == |v.data| && v.desc[list[i]].addr == v.data[list[i]] == bufs[i].addr
         && v.desc[list[i]].len == bufs[i].len
  }

  ghost predicate Described(v: Queue, l: Lists, b: Buffers) {
    && Carries(v, l.offered, b.offered) && Carries(v, l.held, b.held) && Carries(v, l.returned, b.returned)
    && |b.lens| == |l.returned| && InRing(Lens(v.used), v.lastUsed, b.lens)
  }

  // ----- every descriptor in one place -----

  lemma {:induction false} CountOne(num: nat, x: nat)
    ensures multiset(Descs(num))[x] == if x < num then 1 else 0
  {
    if num > 0 {
      CountOne(num - 1, x);
      assert Descs(num) == Descs(num - 1) + [num - 1];
    }
  }

  /** A descriptor of one list is in no other list, and only once in its own. */
  lemma OnlyThere(num: nat, l: Lists, x: nat)
    requires Conserved(num, l.free, l.offered, l.held, l.returned)
    ensures multiset(l.free)[x] + multiset(l.offered)[x] + multiset(l.held)[x] + multiset(l.returned)[x] ==
              if x < num then 1 else 0
  {
    CountOne(num, x);
    assert (multiset(l.free) + multiset(l.offered) + multiset(l.held) + multiset(l.returned))[x] ==
      multiset(Descs(num))[x];
  }

  /** Free and in-flight descriptors add up to the size of the queue. */
  lemma AllCounted(num: nat, l: Lists)
    requires Conserved(num, l.free, l.offered, l.held, l.returned)
    ensures |l.free| + |l.offered| + |l.held| + |l.returned| == num
  {
    var all := l.free + l.offered + l.held + l.returned;
    assert multiset(all) == multiset(l.free) + multiset(l.offered) + multiset(l.held) + multiset(l.returned);
    assert |multiset(all)| == |all|;
    assert |multiset(Descs(num))| == |Descs(num)|;
  }

  lemma Pop(s: seq<nat>)
    requires s != []
    ensures s == [s[0]] + s[1..] && multiset(s) == multiset{s[0]} + multiset(s[1..])
  {
    assert s == [s[0]] + s[1..];
  }

  lemma Pick(s: seq<nat>, k: nat)
    requires k < |s|
    ensures multiset(s) == multiset(s[..k] + s[k + 1..]) + multiset{s[k]}
  {
    assert s == s[..k] + [s[k]] + s[k + 1..];
  }

  // ----- the steps -----

  /** virtqueue_add_outbuf with a free descriptor. */
  function Added(v: Queue, buf: nat, len: nat): Queue
    requires v.freeHead < |v.desc| == |v.avail| == |v.data| && v.numFree > 0
  {
    var head := v.freeHead;
    v.(desc := v.desc[head := Desc(buf, len, 0, v.desc[head].next)],
       freeHead := v.desc[head].next, numFree := v.numFree - 1, data := v.data[head := buf],
       avail := v.avail[v.availIdx % |v.avail| := head], availIdx := (v.availIdx + 1) % TWO16)
  }

  /** The device takes the next available descriptor. */
  function Fetched(v: Queue): Queue {
    v.(devAvail := (v.devAvail + 1) % TWO16)
  }

  /** The device publishes a descriptor that it has used. */
  function Published(v: Queue, d: nat, len: nat): Queue
    requires |v.used| > 0
  {
    v.(used := v.used[v.usedIdx % |v.used| := UsedElem(d, len)], usedIdx := (v.usedIdx + 1) % TWO16)
  }

  /** virtqueue_get_buf, for a buffer of one descriptor. */
  function Reaped(v: Queue, id: nat): Queue
    requires id < |v.desc| == |v.data|
  {
    v.(data := v.data[id := 0], desc := v.desc[id := v.desc[id].(next := v.freeHead)], freeHead := id,
       numFree := v.numFree + 1, lastUsed := (v.lastUsed + 1) % TWO16)
  }

  lemma NextSlot(start: nat, n: nat, num: nat)
    requires QueueSize(num)
    ensures (start + n) % TWO16 % num == Slot(start, n, num)
    ensures ((start + n) % TWO16 + 1) % TWO16 == (start + n + 1) % TWO16
  {
    SlotWrap(start + n, 0, num);
  }

  // ----- what the device reads -----

  lemma CarriesFrame(v: Queue, w: Queue, list: seq<nat>, bufs: seq<Buf>, d: nat)
    requires Carries(v, list, bufs) && d !in list && |w.desc| == |v.desc| && |w.data| == |v.data|
    requires forall i: nat :: i < |v.desc| && i != d ==> w.desc[i] == v.desc[i]
    requires forall i: nat :: i < |v.data| && i != d ==> w.data[i] == v.data[i]
    ensures Carries(w, list, bufs)
  {
    assert forall i: nat :: i < |list| ==> list[i] in list;
  }

  function AddedLists(l: Lists): Lists
    requires l.free != []
  {
    l.(free := l.free[1..], offered := l.offered + [l.free[0]])
  }

  lemma DescribeAdd(v: Queue, l: Lists, b: Buffers, buf: nat, len: nat)
    requires Described(v, l, b) && l.free != [] && v.freeHead == l.free[0] < |v.desc| == |v.data| == |v.avail|
    requires v.numFree > 0 && l.free[0] !in l.offered && l.free[0] !in l.held && l.free[0] !in l.returned
    ensures Described(Added(v, buf, len), AddedLists(l), b.(offered := b.offered + [Buf(buf, len)]))
  {
    var w := Added(v, buf, len);
    CarriesFrame(v, w, l.offered, b.offered, v.freeHead);
    CarriesFrame(v, w, l.held, b.held, v.freeHead);
    CarriesFrame(v, w, l.returned, b.returned, v.freeHead);
  }

  /** The descriptor that the device takes describes the oldest buffer that it has not taken. */
  lemma DescribeFetch(v: Queue, l: Lists, b: Buffers)
    requires Described(v, l, b) && l.offered != []
    ensures b.offered != [] && l.offered[0] < |v.desc|
    ensures var d := v.desc[l.offered[0]]; Buf(d.addr, d.len) == b.offered[0]
    ensures Described(Fetched(v), l.(offered := l.offered[1..], held := l.held + [l.offered[0]]),
              b.(offered := b.offered[1..], held := b.held + [b.offered[0]]))
  {
    hide InRing;
  }

  lemma DescribePublish(v: Queue, l: Lists, b: Buffers, k: nat, len: nat)
    requires Sizes(v) && Rings(v, l) && Described(v, l, b) && k < |l.held| && |l.returned| < |v.desc|
    ensures |b.held| == |l.held|
    ensures Described(Published(v, l.held[k], len),
              l.(held := l.held[..k] + l.held[k + 1..], returned := l.returned + [l.held[k]]),
              b.(held := b.held[..k] + b.held[k + 1..], returned := b.returned + [b.held[k]], lens := b.lens + [len]))
  {
    hide InRing, QueueSize;
    var w := Published(v, l.held[k], len);
    NextSlot(v.lastUsed, |l.returned|, |v.used|);
    RingPush(Lens(v.used), v.lastUsed, b.lens, len);
    assert Lens(w.used) == Lens(v.used)[v.usedIdx % |v.used| := len];
  }

  lemma DescribeReap(v: Queue, l: Lists, b: Buffers)
    requires Sizes(v) && Rings(v, l) && Described(v, l, b) && l.returned != [] && l.returned[0] < |v.desc|
    requires var id := l.returned[0]; id !in l.offered && id !in l.held && id !in l.returned[1..]
    ensures b.returned != [] && b.lens != []
    ensures v.data[l.returned[0]] == b.returned[0].addr && v.used[v.lastUsed % |v.used|].len == b.lens[0]
    ensures Described(Reaped(v, l.returned[0]), l.(returned := l.returned[1..], free := [l.returned[0]] + l.free),
              b.(returned := b.returned[1..], lens := b.lens[1..]))
  {
    hide InRing, QueueSize;
    var w := Reaped(v, l.returned[0]);
    RingPop(Lens(v.used), v.lastUsed, b.lens);
    RingWrap(Lens(v.used), v.lastUsed + 1, b.lens[1..]);
    CarriesFrame(v, w, l.offered, b.offered, l.returned[0]);
    CarriesFrame(v, w, l.held, b.held, l.returned[0]);
    CarriesFrame(v, w, l.returned[1..], b.returned[1..], l.returned[0]);
  }

  // ----- what each step keeps -----

  /** A free descriptor and where it is not. */
  lemma FreeFirst(v: Queue, l: Lists)
    requires Ok(v, l) && l.free != []
    ensures v.freeHead == l.free[0] < |v.desc| && |l.offered| < |v.desc|
    ensures l.free[0] !in l.free[1..] && l.free[0] !in l.offered && l.free[0] !in l.held && l.free[0] !in l.returned
  {
    hide Rings, InFlight;
    Pop(l.free);
    OnlyThere(|v.desc|, l, l.free[0]);
    AllCounted(|v.desc|, l);
  }

  lemma AddConserves(num: nat, l: Lists)
    requires Conserved(num, l.free, l.offered, l.held, l.returned) && l.free != []
    ensures var m := AddedLists(l); Conserved(num, m.free, m.offered, m.held, m.returned)
  {
    Pop(l.free);
  }

  lemma AddChain(v: Queue, l: Lists, buf: nat, len: nat)
    requires Ok(v, l) && l.free != [] && v.freeHead == l.free[0] && l.free[0] !in l.free[1..]
    ensures var w := Added(v, buf, len); FreeChain(w.desc, w.freeHead, l.free[1..])
  {
    hide Rings, InFlight, Conserved;
    var w, rest := Added(v, buf, len), l.free[1..];
    forall i: nat | i + 1 < |rest|
      ensures w.desc[rest[i]].next == rest[i + 1]
    {
      assert rest[i] in rest && rest[i] == l.free[i + 1] && rest[i + 1] == l.free[i + 2];
    }
    if rest != [] {
      assert l.free[0 + 1] == rest[0];
    }
  }

  lemma AddRings(v: Queue, l: Lists, buf: nat, len: nat)
    requires Sizes(v) && Rings(v, l) && v.freeHead < |v.desc| && |l.offered| < |v.desc| && v.numFree > 0
    requires l.free != [] && l.free[0] == v.freeHead
    ensures Rings(Added(v, buf, len), AddedLists(l))
  {
    hide InRing, QueueSize;
    NextSlot(v.devAvail, |l.offered|, |v.avail|);
    RingPush(v.avail, v.devAvail, l.offered, v.freeHead);
  }

  lemma AddInFlight(v: Queue, l: Lists, buf: nat, len: nat)
    requires Sizes(v) && InFlight(v, l.offered) && InFlight(v, l.held) && InFlight(v, l.returned) && buf != 0
    requires v.freeHead < |v.desc| && v.numFree > 0
    ensures var w := Added(v, buf, len);
            InFlight(w, l.offered + [v.freeHead]) && InFlight(w, l.held) && InFlight(w, l.returned)
  {}

  lemma OkAdd(v: Queue, l: Lists, b: Buffers, buf: nat, len: nat)
    requires Ok(v, l) && Described(v, l, b) && l.free != [] && buf != 0
    ensures v.freeHead < |v.desc| && v.numFree > 0 && Ok(Added(v, buf, len), AddedLists(l))
    ensures Described(Added(v, buf, len), AddedLists(l), b.(offered := b.offered + [Buf(buf, len)]))
  {
    hide InRing, Conserved, FreeChain, InFlight, Described, QueueSize, Rings;
    FreeFirst(v, l);
    DescribeAdd(v, l, b, buf, len);
    AddConserves(|v.desc|, l);
    AddChain(v, l, buf, len);
    AddRings(v, l, buf, len);
    AddInFlight(v, l, buf, len);
  }

  lemma FetchConserves(num: nat, l: Lists)
    requires Conserved(num, l.free, l.offered, l.held, l.returned) && l.offered != []
    ensures Conserved(num, l.free, l.offered[1..], l.held + [l.offered[0]], l.returned)
  {
    Pop(l.offered);
  }

  lemma IndexShift(start: nat, n: nat)
    requires n > 0
    ensures ((start + 1) % TWO16 + (n - 1)) % TWO16 == (start + n) % TWO16
  {}

  lemma FetchRings(v: Queue, l: Lists)
    requires Sizes(v) && Rings(v, l) && l.offered != []
    ensures v.avail[v.devAvail % |v.avail|] == l.offered[0]
    ensures Rings(Fetched(v), l.(offered := l.offered[1..], held := l.held + [l.offered[0]]))
  {
    hide InRing, QueueSize;
    RingPop(v.avail, v.devAvail, l.offered);
    RingWrap(v.avail, v.devAvail + 1, l.offered[1..]);
    IndexShift(v.devAvail, |l.offered|);
  }

  lemma FetchInFlight(v: Queue, l: Lists)
    requires InFlight(v, l.offered) && InFlight(v, l.held) && InFlight(v, l.returned) && l.offered != []
    ensures var w := Fetched(v);
            InFlight(w, l.offered[1..]) && InFlight(w, l.held + [l.offered[0]]) && InFlight(w, l.returned)
  {
    assert l.offered[0] in l.offered;
  }

  lemma OkFetch(v: Queue, l: Lists, b: Buffers)
    requires Ok(v, l) && Described(v, l, b) && l.offered != []
    ensures v.avail[v.devAvail % |v.avail|] == l.offered[0]
    ensures Ok(Fetched(v), l.(offered := l.offered[1..], held := l.held + [l.offered[0]]))
    ensures b.offered != [] && l.offered[0] < |v.desc|
    ensures var d := v.desc[l.offered[0]]; Buf(d.addr, d.len) == b.offered[0]
    ensures Described(Fetched(v), l.(offered := l.offered[1..], held := l.held + [l.offered[0]]),
              b.(offered := b.offered[1..], held := b.held + [b.offered[0]]))
  {
    hide Conserved, FreeChain, QueueSize, Rings, InFlight, Described;
    DescribeFetch(v, l, b);
    FetchConserves(|v.desc|, l);
    FetchRings(v, l);
    FetchInFlight(v, l);
  }

  lemma PublishConserves(num: nat, l: Lists, k: nat)
    requires Conserved(num, l.free, l.offered, l.held, l.returned) && k < |l.held|
    ensures Conserved(num, l.free, l.offered, l.held[..k] + l.held[k + 1..], l.returned + [l.held[k]])
  {
    Pick(l.held, k);
  }

  lemma PublishRings(v: Queue, l: Lists, k: nat, len: nat)
    requires Sizes(v) && Rings(v, l) && k < |l.held| && |l.returned| < |v.desc|
    ensures Rings(Published(v, l.held[k], len),
              l.(held := l.held[..k] + l.held[k + 1..], returned := l.returned + [l.held[k]]))
  {
    hide InRing, QueueSize;
    NextSlot(v.lastUsed, |l.returned|, |v.used|);
    RingPush(Ids(v.used), v.lastUsed, l.returned, l.held[k]);
    var w := Published(v, l.held[k], len);
    assert Ids(w.used) == Ids(v.used)[v.usedIdx % |v.used| := l.held[k]];
  }

  lemma PublishInFlight(v: Queue, l: Lists, k: nat, len: nat)
    requires InFlight(v, l.offered) && InFlight(v, l.held) && InFlight(v, l.returned) && k < |l.held| && |v.used| > 0
    ensures var w := Published(v, l.held[k], len);
            InFlight(w, l.offered) && InFlight(w, l.held[..k] + l.held[k + 1..])
              && InFlight(w, l.returned + [l.held[k]])
  {
    assert l.held[k] in l.held;
  }

  lemma OkPublish(v: Queue, l: Lists, b: Buffers, k: nat, len: nat)
    requires Ok(v, l) && Described(v, l, b) && k < |l.held|
    ensures |b.held| == |l.held|
    ensures Ok(Published(v, l.held[k], len),
              l.(held := l.held[..k] + l.held[k + 1..], returned := l.returned + [l.held[k]]))
    ensures Described(Published(v, l.held[k], len),
              l.(held := l.held[..k] + l.held[k + 1..], returned := l.returned + [l.held[k]]),
              b.(held := b.held[..k] + b.held[k + 1..], returned := b.returned + [b.held[k]], lens := b.lens + [len]))
  {
    hide Conserved, FreeChain, QueueSize, Rings, InFlight, Described;
    PublishConserves(|v.desc|, l, k);
    AllCounted(|v.desc|, l);
    DescribePublish(v, l, b, k, len);
    PublishRings(v, l, k, len);
    PublishInFlight(v, l, k, len);
  }

  lemma ReapedOnce(num: nat, l: Lists)
    requires Conserved(num, l.free, l.offered, l.held, l.returned) && l.returned != []
    ensures var id := l.returned[0];
            id < num && id !in l.free && id !in l.offered && id !in l.held && id !in l.returned[1..]
  {
    hide Conserved;
    Pop(l.returned);
    OnlyThere(num, l, l.returned[0]);
  }

  lemma ReapInFlight(v: Queue, l: Lists)
    requires Sizes(v) && InFlight(v, l.offered) && InFlight(v, l.held) && InFlight(v, l.returned) && l.returned != []
    requires var id := l.returned[0]; id < |v.desc| && id !in l.offered && id !in l.held && id !in l.returned[1..]
    ensures var w := Reaped(v, l.returned[0]);
            InFlight(w, l.offered) && InFlight(w, l.held) && InFlight(w, l.returned[1..])
  {
    assert forall d :: d in l.returned[1..] ==> d in l.returned;
  }

  lemma ReapConserves(num: nat, l: Lists)
    requires Conserved(num, l.free, l.offered, l.held, l.returned) && l.returned != []
    ensures Conserved(num, [l.returned[0]] + l.free, l.offered, l.held, l.returned[1..])
  {
    Pop(l.returned);
  }

  lemma ReapChain(v: Queue, l: Lists)
    requires FreeChain(v.desc, v.freeHead, l.free) && l.returned != [] && l.returned[0] < |v.desc| == |v.data|
    requires l.returned[0] !in l.free
    ensures var w := Reaped(v, l.returned[0]); FreeChain(w.desc, w.freeHead, [l.returned[0]] + l.free)
  {
    var w, all := Reaped(v, l.returned[0]), [l.returned[0]] + l.free;
    forall i: nat | i + 1 < |all|
      ensures w.desc[all[i]].next == all[i + 1]
    {
      if i > 0 {
        assert all[i] == l.free[i - 1] && all[i + 1] == l.free[i] && l.free[i - 1] in l.free;
        assert v.desc[l.free[i - 1]].next == l.free[i - 1 + 1];
      }
    }
  }

  lemma ReapRings(v: Queue, l: Lists)
    requires Sizes(v) && Rings(v, l) && l.returned != [] && l.returned[0] < |v.desc|
    ensures v.used[v.lastUsed % |v.used|].id == l.returned[0]
    ensures Rings(Reaped(v, l.returned[0]), l.(returned := l.returned[1..], free := [l.returned[0]] + l.free))
  {
    hide InRing, QueueSize;
    RingPop(Ids(v.used), v.lastUsed, l.returned);
    RingWrap(Ids(v.used), v.lastUsed + 1, l.returned[1..]);
    IndexShift(v.lastUsed, |l.returned|);
  }

  lemma OkReap(v: Queue, l: Lists, b: Buffers)
    requires Ok(v, l) && Described(v, l, b) && l.returned != []
    ensures v.used[v.lastUsed % |v.used|].id == l.returned[0] < |v.desc| && b.returned != [] && b.lens != []
    ensures v.data[l.returned[0]] == b.returned[0].addr && v.used[v.lastUsed % |v.used|].len == b.lens[0]
    ensures Ok(Reaped(v, l.returned[0]), l.(returned := l.returned[1..], free := [l.returned[0]] + l.free))
    ensures Described(Reaped(v, l.returned[0]), l.(returned := l.returned[1..], free := [l.returned[0]] + l.free),
              b.(returned := b.returned[1..], lens := b.lens[1..]))
  {
    hide Conserved, FreeChain, QueueSize, Rings, InFlight, Described;
    ReapedOnce(|v.desc|, l);
    DescribeReap(v, l, b);
    ReapConserves(|v.desc|, l);
    ReapChain(v, l);
    ReapRings(v, l);
    ReapInFlight(v, l);
  }
}
