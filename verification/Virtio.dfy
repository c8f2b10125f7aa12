/** The virtqueue driver of lib/virtio.c, next to a device that uses the buffers in any order. */
module Virtio {
  import opened Words
  import opened VirtioRing
  import opened VirtioSpec

  // ----- the buffers of a list of descriptors -----

  ghost predicate InRange(data: seq<nat>, list: seq<nat>) {
    forall i :: 0 <= i < |list| ==> list[i] < |data|
  }

  ghost function Bufs(data: seq<nat>, list: seq<nat>): (b: seq<nat>)
    requires InRange(data, list)
    ensures |b| == |list| && forall i :: 0 <= i < |list| ==> b[i] == data[list[i]]
  {
    seq(|list|, i requires 0 <= i < |list| => data[list[i]])
  }

  /** The buffers of the descriptors of a list, with their multiplicity. */
  ghost function Load(data: seq<nat>, list: seq<nat>): multiset<nat>
    requires InRange(data, list)
  {
    multiset(Bufs(data, list))
  }

  /** Every buffer that was added has been handed back or is in flight, with its multiplicity. */
  ghost predicate Balanced(data: seq<nat>, l: Lists, added: multiset<nat>, got: multiset<nat>) {
    && InRange(data, l.offered) && InRange(data, l.held) && InRange(data, l.returned)
    && added == got + Load(data, l.offered) + Load(data, l.held) + Load(data, l.returned)
  }

  lemma LoadFrame(data: seq<nat>, list: seq<nat>, d: nat, b: nat)
    requires InRange(data, list) && d < |data| && d !in list
    ensures InRange(data[d := b], list) && Load(data[d := b], list) == Load(data, list)
  {
    assert forall i :: 0 <= i < |list| ==> list[i] in list;
    assert Bufs(data[d := b], list) == Bufs(data, list);
  }

  lemma LoadPush(data: seq<nat>, list: seq<nat>, d: nat)
    requires InRange(data, list) && d < |data|
    ensures InRange(data, list + [d]) && Load(data, list + [d]) == Load(data, list) + multiset{data[d]}
  {
    assert Bufs(data, list + [d]) == Bufs(data, list) + [data[d]];
  }

  lemma LoadPick(data: seq<nat>, list: seq<nat>, k: nat)
    requires InRange(data, list) && k < |list|
    ensures InRange(data, list[..k] + list[k + 1..]) && list[k] < |data|
    ensures Load(data, list) == Load(data, list[..k] + list[k + 1..]) + multiset{data[list[k]]}
  {
    var b := Bufs(data, list);
    assert Bufs(data, list[..k] + list[k + 1..]) == b[..k] + b[k + 1..];
    Pick(b, k);
  }

  lemma LoadPop(data: seq<nat>, list: seq<nat>)
    requires InRange(data, list) && list != []
    ensures InRange(data, list[1..]) && list[0] < |data|
    ensures Load(data, list) == Load(data, list[1..]) + multiset{data[list[0]]}
  {
    LoadPick(data, list, 0);
    assert list[..0] + list[1..] == list[1..];
  }

  lemma BalanceAdd(data: seq<nat>, l: Lists, added: multiset<nat>, got: multiset<nat>, buf: nat)
    requires Balanced(data, l, added, got) && l.free != [] && l.free[0] < |data|
    requires l.free[0] !in l.offered && l.free[0] !in l.held && l.free[0] !in l.returned
    ensures Balanced(data[l.free[0] := buf], AddedLists(l), added + multiset{buf}, got)
  {
    hide Load, InRange;
    var d := l.free[0];
    LoadFrame(data, l.offered, d, buf);
    LoadFrame(data, l.held, d, buf);
    LoadFrame(data, l.returned, d, buf);
    LoadPush(data[d := buf], l.offered, d);
  }

  lemma BalanceFetch(data: seq<nat>, l: Lists, added: multiset<nat>, got: multiset<nat>)
    requires Balanced(data, l, added, got) && l.offered != []
    ensures Balanced(data, l.(offered := l.offered[1..], held := l.held + [l.offered[0]]), added, got)
  {
    hide Load, InRange;
    LoadPop(data, l.offered);
    LoadPush(data, l.held, l.offered[0]);
  }

  lemma BalancePublish(data: seq<nat>, l: Lists, added: multiset<nat>, got: multiset<nat>, k: nat)
    requires Balanced(data, l, added, got) && k < |l.held|
    ensures Balanced(data, l.(held := l.held[..k] + l.held[k + 1..], returned := l.returned + [l.held[k]]), added, got)
  {
    hide Load, InRange;
    LoadPick(data, l.held, k);
    LoadPush(data, l.returned, l.held[k]);
  }

  lemma BalanceReap(data: seq<nat>, l: Lists, added: multiset<nat>, got: multiset<nat>)
    requires Balanced(data, l, added, got) && l.returned != []
    requires var id := l.returned[0]; id !in l.offered && id !in l.held && id !in l.returned[1..]
    ensures l.returned[0] < |data|
    ensures Balanced(data[l.returned[0] := 0], l.(returned := l.returned[1..], free := [l.returned[0]] + l.free), added,
                     got + multiset{data[l.returned[0]]})
  {
    hide Load, InRange;
    var id := l.returned[0];
    LoadPop(data, l.returned);
    LoadFrame(data, l.offered, id, 0);
    LoadFrame(data, l.held, id, 0);
    LoadFrame(data, l.returned[1..], id, 0);
  }

  /** Nothing comes back that was not added, and once nothing is in flight, all of it has come back. */
  lemma EachOnce(data: seq<nat>, l: Lists, added: multiset<nat>, got: multiset<nat>)
    requires Balanced(data, l, added, got)
    ensures got <= added && (l.offered + l.held + l.returned == [] <==> got == added)
  {
    assert |added| == |got| + |Load(data, l.offered)| + |Load(data, l.held)| + |Load(data, l.returned)|;
    assert |Load(data, l.offered)| == |l.offered| && |Load(data, l.held)| == |l.held|;
    assert |Load(data, l.returned)| == |l.returned|;
  }

  /** Descriptors linked by the NEXT flag, up to one without it. */
  ghost predicate IsChain(desc: seq<Desc>, chain: seq<nat>) {
    && chain != [] && (forall k: nat :: k < |chain| ==> chain[k] < |desc|)
    && (forall k: nat :: k + 1 < |chain| ==>
         desc[chain[k]].flags % 2 == VRING_DESC_F_NEXT && desc[chain[k]].next == chain[k + 1])
    && desc[chain[|chain| - 1]].flags % 2 != VRING_DESC_F_NEXT
  }

  lemma ReapReady(v: Queue, l: Lists)
    requires Ok(v, l) && l.returned != []
    ensures l.returned[0] < |v.desc| == |v.data| && v.data[l.returned[0]] != 0 && IsChain(v.desc, [l.returned[0]])
    ensures var id := l.returned[0]; id !in l.offered && id !in l.held && id !in l.returned[1..]
  {
    hide Rings, Conserved, FreeChain;
    ReapedOnce(|v.desc|, l);
    assert l.returned[0] in l.returned;
  }

  lemma OkInit(v: Queue)
    requires Sizes(v) && v.availIdx == v.devAvail == v.usedIdx == v.lastUsed == v.freeHead == 0 && v.numFree == |v.desc|
    requires forall i: nat :: i + 1 < |v.desc| ==> v.desc[i].next == i + 1
    ensures Ok(v, Lists(Descs(|v.desc|), [], [], []))
    ensures Balanced(v.data, Lists(Descs(|v.desc|), [], [], []), multiset{}, multiset{})
    ensures Described(v, Lists(Descs(|v.desc|), [], [], []), Buffers([], [], [], []))
  {
    var d := Descs(|v.desc|);
    assert multiset(d) + multiset([]) + multiset([]) + multiset([]) == multiset(d);
  }

  lemma FreeCount(v: Queue, l: Lists)
    requires Ok(v, l)
    ensures v.numFree == |l.free| && |v.desc| > 0
  {}

  class Virtqueue {
    const num: nat
    const desc: array<Desc>
    const avail: array<nat>
    const used: array<UsedElem>
    const data: array<nat>
    var availIdx: nat
    var devAvail: nat
    var usedIdx: nat
    var lastUsedIdx: nat
    var freeHead: nat
    var numFree: nat
    ghost var lists: Lists
    ghost var added: multiset<nat>
    ghost var got: multiset<nat>
    ghost var bufs: Buffers

    ghost function View(): Queue
      reads this, desc, avail, used, data
    {
      Queue(desc[..], avail[..], used[..], data[..], availIdx, devAvail, usedIdx, lastUsedIdx, freeHead, numFree)
    }

    ghost predicate Valid()
      reads this, desc, avail, used, data
      ensures Valid() ==> num > 0
    {
      && desc.Length == avail.Length == used.Length == data.Length == num && avail != data
      && Ok(View(), lists) && Balanced(data[..], lists, added, got) && Described(View(), lists, bufs)
    }

    /** vring_init_virtqueue: all descriptors are free, in ascending order. */
    constructor (num: nat, used: array<UsedElem>, avail: array<nat>)
      requires QueueSize(num) && used.Length == avail.Length == num
      ensures Valid() && lists == Lists(Descs(num), [], [], []) && added == got == multiset{}
      ensures bufs == Buffers([], [], [], [])
    {
      this.num, this.used, this.avail := num, used, avail;
      desc := new Desc[num](_ => Desc(0, 0, 0, 0));
      data := new nat[num];
      availIdx, devAvail, usedIdx, lastUsedIdx, freeHead, numFree := 0, 0, 0, 0, 0, num;
      lists, added, got := Lists(Descs(num), [], [], []), multiset{}, multiset{};
      bufs := Buffers([], [], [], []);
      new;
      LinkAll();
      OkInit(View());
    }

    /** The loop of vring_init_virtqueue. */
    method LinkAll()
      requires desc.Length == data.Length == num > 0
      modifies desc, data
      ensures forall i: nat :: i + 1 < num ==> desc[i].next == i + 1
      ensures forall i :: 0 <= i < num ==> data[i] == 0
    {
      var i := 0;
      while i < num - 1
        invariant 0 <= i < num && forall k: nat :: k < i ==> desc[k].next == k + 1 && data[k] == 0
      {
        desc[i] := desc[i].(next := i + 1);
        data[i] := 0;
        i := i + 1;
      }
      data[i] := 0;
    }

    /** virtqueue_add_outbuf. */
    method AddOutbuf(buf: nat, len: nat) returns (r: int)
      requires Valid() && buf != 0 && len != 0
      modifies this, desc, avail, data
      ensures Valid()
      ensures old(lists.free) == [] ==>
          && r == -1 && View() == old(View()) && lists == old(lists) && added == old(added) && got == old(got)
          && bufs == old(bufs)
      ensures old(lists.free) != [] ==>
                && r == 0 && lists == AddedLists(old(lists)) && added == old(added) + multiset{buf} && got == old(got)
                && data[..] == old(data[..])[old(lists.free)[0] := buf]
                && bufs == old(bufs).(offered := old(bufs.offered) + [Buf(buf, len)])
    {
      hide Ok, Balanced, Described;
      FreeCount(View(), lists);
      if numFree == 0 {
        return -1;
      }
      OkAdd(View(), lists, bufs, buf, len);
      FreeFirst(View(), lists);
      BalanceAdd(data[..], lists, added, got, buf);
      numFree := numFree - 1;
      var head := freeHead;
      desc[head] := Desc(buf, len, 0, desc[head].next);
      freeHead := desc[head].next;
      data[head] := buf;
      avail[availIdx % num] := head;
      availIdx := (availIdx + 1) % TWO16;
      assert View() == Added(old(View()), buf, len);
      lists, added := AddedLists(lists), added + multiset{buf};
      bufs := bufs.(offered := bufs.offered + [Buf(buf, len)]);
      return 0;
    }

    /** The device takes the next available descriptor. */
    method DeviceFetch() returns (d: nat)
      requires Valid() && lists.offered != []
      modifies this
      ensures Valid() && d == old(lists.offered)[0] && added == old(added) && got == old(got)
      ensures lists == old(lists).(offered := old(lists.offered)[1..], held := old(lists.held) + [d])
      ensures d < num && old(bufs.offered) != [] && Buf(desc[d].addr, desc[d].len) == old(bufs.offered)[0]
      ensures bufs == old(bufs).(offered := old(bufs.offered)[1..], held := old(bufs.held) + [old(bufs.offered)[0]])
    {
      hide Ok, Balanced, Described;
      FreeCount(View(), lists);
      OkFetch(View(), lists, bufs);
      BalanceFetch(data[..], lists, added, got);
      d := avail[devAvail % num];
      devAvail := (devAvail + 1) % TWO16;
      lists := lists.(offered := lists.offered[1..], held := lists.held + [d]);
      bufs := bufs.(offered := bufs.offered[1..], held := bufs.held + [bufs.offered[0]]);
    }

    /** The device publishes any one of the descriptors that it holds. */
    method DevicePublish(d: nat, len: nat, ghost k: nat)
      requires Valid() && k < |lists.held| && lists.held[k] == d
      modifies this, used
      ensures Valid() && added == old(added) && got == old(got) && used[old(usedIdx) % num] == UsedElem(d, len)
      ensures lists == old(lists).(held := old(lists.held)[..k] + old(lists.held)[k + 1..],
                returned := old(lists.returned) + [d])
      ensures k < |old(bufs.held)|
      ensures bufs == old(bufs).(held := old(bufs.held)[..k] + old(bufs.held)[k + 1..],
                returned := old(bufs.returned) + [old(bufs.held)[k]], lens := old(bufs.lens) + [len])
    {
      hide Ok, Balanced, Described;
      FreeCount(View(), lists);
      OkPublish(View(), lists, bufs, k, len);
      BalancePublish(data[..], lists, added, got, k);
      used[usedIdx % num] := UsedElem(d, len);
      usedIdx := (usedIdx + 1) % TWO16;
      assert View() == Published(old(View()), d, len);
      lists := lists.(held := lists.held[..k] + lists.held[k + 1..], returned := lists.returned + [d]);
      bufs := bufs.(held := bufs.held[..k] + bufs.held[k + 1..], returned := bufs.returned + [bufs.held[k]],
          lens := bufs.lens + [len]);
    }

    /** virtqueue_get_buf, once the device has published a buffer. */
    method GetBuf() returns (ret: nat, len: nat)
      requires Valid() && lists.returned != []
      modifies this, desc, data
      ensures Valid() && added == old(added) && got == old(got) + multiset{ret}
      ensures ret == old(data[..])[old(lists.returned)[0]] != 0 && len == used[old(lastUsedIdx) % num].len
      ensures lists ==
                old(lists).(returned := old(lists.returned)[1..], free := [old(lists.returned)[0]] + old(lists.free))
      ensures old(bufs.returned) != [] && ret == old(bufs.returned)[0].addr
      ensures old(bufs.lens) != [] && len == old(bufs.lens)[0]
      ensures bufs == old(bufs).(returned := old(bufs.returned)[1..], lens := old(bufs.lens)[1..])
    {
      hide Ok, Balanced, Described;
      FreeCount(View(), lists);
      OkReap(View(), lists, bufs);
      ReapReady(View(), lists);
      BalanceReap(data[..], lists, added, got);
      var lastUsed := lastUsedIdx % num;
      var i := used[lastUsed].id;
      len := used[lastUsed].len;
      ret := data[i];
      DetachBuf(i, [i]);
      lastUsedIdx := (lastUsedIdx + 1) % TWO16;
      assert View() == Reaped(old(View()), i);
      got := got + multiset{ret};
      lists := lists.(returned := lists.returned[1..], free := [i] + lists.free);
      bufs := bufs.(returned := bufs.returned[1..], lens := bufs.lens[1..]);
    }

    /** detach_buf: a chain of descriptors goes in front of the free ones. */
    method DetachBuf(head: nat, ghost chain: seq<nat>)
      requires desc.Length == data.Length && IsChain(desc[..], chain) && head == chain[0]
      modifies this`freeHead, this`numFree, desc, data
      ensures freeHead == head && numFree == old(numFree) + |chain| && data[..] == old(data[..])[head := 0]
      ensures var last := chain[|chain| - 1];
              desc[..] == old(desc[..])[last := old(desc[..])[last].(next := old(freeHead))]
    {
      var i := head;
      ghost var k: nat := 0;
      data[head] := 0;
      while desc[i].flags % 2 == VRING_DESC_F_NEXT
        invariant k < |chain| && i == chain[k] && numFree == old(numFree) + k && desc[..] == old(desc[..])
        invariant data[..] == old(data[..])[head := 0] && freeHead == old(freeHead)
        decreases |chain| - k
      {
        i := desc[i].next;
        k := k + 1;
        numFree := numFree + 1;
      }
      desc[i] := desc[i].(next := freeHead);
      freeHead := head;
      numFree := numFree + 1;
    }
  }
}
