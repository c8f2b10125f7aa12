/**
 The version protocol of the paravirtual clock (x86/kvmclock.c): a host that makes the version odd,
 writes fields one by one and makes it even again, against the two retry loops of the guest. The
 version is a 32-bit word, so it comes round again.
 */
module Seqlock {
  import opened Words

  /** How often the host has changed the version, the shared fields, and the values published so far. */
  datatype Host = Host(changes: nat, fields: seq<nat>, published: seq<seq<nat>>)

  /** The version that a reader sees. */
  function Version(h: Host): nat { h.changes % TWO32 }

  /** The fields that a reader has copied so far. */
  type Snapshot = map<nat, nat>

  /** A reader keeps the version only; `since` is the number of changes that gave this version. */
  datatype Reader =
    | Outside
    | Copying(version: nat, since: nat, copied: Snapshot)
    | Rechecking(version: nat, since: nat, copied: Snapshot)   // wall clock only: the version was seen to be even again
    | Accepted(since: nat, upto: nat, copied: Snapshot)

  /** The loop of pvclock_clocksource_read, or the one of pvclock_read_wallclock. */
  datatype Loop = VcpuTime | WallClock

  datatype State = State(host: Host, reader: Reader)

  datatype Step =
    | HostBegin | HostWrite(i: nat, value: nat) | HostEnd
    | ReadVersion | ReadField(i: nat) | Check | Recheck

  predicate Enabled(st: State, e: Step) {
    match e
    case HostBegin => Version(st.host) % 2 == 0
    case HostWrite(i, _) => Version(st.host) % 2 == 1 && i < |st.host.fields|
    case HostEnd => Version(st.host) % 2 == 1
    case ReadVersion => st.reader.Outside? || st.reader.Accepted?
    case ReadField(i) => st.reader.Copying? && i < |st.host.fields|
    case Check => st.reader.Copying? && forall i: nat :: i < |st.host.fields| ==> i in st.reader.copied
    case Recheck => st.reader.Rechecking?
  }

  /** The effect of a step; a reader that has to retry starts over. */
  function Apply(st: State, e: Step, loop: Loop): State
    requires Enabled(st, e)
  {
    var h, r := st.host, st.reader;
    match e
    case HostBegin => st.(host := h.(changes := h.changes + 1))
    case HostWrite(i, value) => st.(host := h.(fields := h.fields[i := value]))
    case HostEnd => st.(host := h.(changes := h.changes + 1, published := h.published + [h.fields]))
    case ReadVersion =>
      if loop == VcpuTime then st.(reader := Copying(Version(h) - Version(h) % 2, h.changes - h.changes % 2, map[]))
      else st.(reader := Copying(Version(h), h.changes, map[]))
    case ReadField(i) => st.(reader := Copying(r.version, r.since, r.copied[i := h.fields[i]]))
    case Check =>
      if loop == VcpuTime then
        st.(reader := if r.version != Version(h) then Outside else Accepted(r.since, h.changes, r.copied))
      else
        st.(reader := if Version(h) % 2 == 1 then Outside else Rechecking(r.version, r.since, r.copied))
    case Recheck => st.(reader := if r.version != Version(h) then Outside else Accepted(r.since, h.changes, r.copied))
  }

  ghost predicate Init(st: State) {
    st.host.changes == 0 && st.host.published == [st.host.fields] && st.reader == Outside
  }

  ghost predicate Run(states: seq<State>, steps: seq<Step>, loop: Loop) {
    && |states| == |steps| + 1 && Init(states[0])
    && forall i: nat :: i < |steps| ==>
         Enabled(states[i], steps[i]) && states[i + 1] == Apply(states[i], steps[i], loop)
  }

  // ----- what every step keeps -----

  /** With an even version the fields are the ones last published. */
  ghost predicate HostOk(h: Host) {
    && |h.published| == h.changes / 2 + 1
    && (forall k: nat :: k < |h.published| ==> |h.published[k]| == |h.fields|)
    && (h.changes % 2 == 0 ==> h.fields == h.published[h.changes / 2])
  }

  /** What was copied under an even version, while nothing has changed since, is what the fields hold. */
  ghost predicate CopyOk(h: Host, version: nat, since: nat, copied: Snapshot) {
    && version == since % TWO32 && since <= h.changes
    && (since == h.changes && since % 2 == 0 ==>
          forall i: nat :: i in copied ==> i < |h.fields| && copied[i] == h.fields[i])
  }

  ghost predicate Complete(h: Host, copied: Snapshot) {
    forall i: nat :: i < |h.fields| ==> i in copied
  }

  /** The copy is one of the published states. */
  ghost predicate IsPublished(h: Host, k: nat, copied: Snapshot) {
    k < |h.published| && forall i: nat :: i < |h.published[k]| ==> i in copied && copied[i] == h.published[k][i]
  }

  ghost predicate ReaderOk(h: Host, r: Reader, loop: Loop) {
    match r
    case Outside => true
    case Copying(version, since, copied) => CopyOk(h, version, since, copied) && (loop == VcpuTime ==> since % 2 == 0)
    case Rechecking(version, since, copied) =>
      CopyOk(h, version, since, copied) && Complete(h, copied) && (since % 2 == 1 ==> since < h.changes)
    case Accepted(since, upto, copied) =>
      && since <= upto && (upto - since) % TWO32 == 0
      && (since == upto ==> since % 2 == 0 && IsPublished(h, since / 2, copied))
  }

  ghost predicate Inv(st: State, loop: Loop) {
    HostOk(st.host) && ReaderOk(st.host, st.reader, loop)
  }

  lemma SameVersion(a: nat, b: nat)
    requires a <= b
    ensures a % TWO32 == b % TWO32 <==> (b - a) % TWO32 == 0
    ensures a % TWO32 % 2 == a % 2
  {}

  lemma EvenVersion(a: nat)
    ensures (a - a % 2) % TWO32 == a % TWO32 - a % TWO32 % 2
  {}

  lemma HostKeeps(st: State, e: Step, loop: Loop)
    requires Inv(st, loop) && Enabled(st, e) && (e.HostBegin? || e.HostWrite? || e.HostEnd?)
    ensures Inv(Apply(st, e, loop), loop)
  {
    SameVersion(st.host.changes, st.host.changes);
    assert Version(st.host) % 2 == st.host.changes % 2;
    hide Version;
  }

  lemma BeginKeeps(st: State, loop: Loop)
    requires Inv(st, loop) && Enabled(st, ReadVersion)
    ensures Inv(Apply(st, ReadVersion, loop), loop)
  {
    EvenVersion(st.host.changes);
  }

  lemma CopyKeeps(st: State, i: nat, loop: Loop)
    requires Inv(st, loop) && Enabled(st, ReadField(i))
    ensures Inv(Apply(st, ReadField(i), loop), loop)
  {
    hide HostOk;
  }

  lemma CheckKeeps(st: State, e: Step, loop: Loop)
    requires Inv(st, loop) && Enabled(st, e) && (e.Check? || e.Recheck?)
    ensures Inv(Apply(st, e, loop), loop)
  {
    SameVersion(st.host.changes, st.host.changes);
    SameVersion(st.reader.since, st.host.changes);
  }

  /** What the fields hold and what was copied of them agree after every step. */
  lemma StepKeeps(st: State, e: Step, loop: Loop)
    requires Inv(st, loop) && Enabled(st, e)
    ensures Inv(Apply(st, e, loop), loop)
  {
    hide Inv, Apply, Enabled;
    match e
    case ReadVersion => BeginKeeps(st, loop);
    case ReadField(i) => CopyKeeps(st, i, loop);
    case Check => CheckKeeps(st, e, loop);
    case Recheck => CheckKeeps(st, e, loop);
    case _ => HostKeeps(st, e, loop);
  }

  lemma Starts(st: State, loop: Loop)
    requires Init(st)
    ensures Inv(st, loop)
  {}

  lemma {:induction false} RunKeeps(states: seq<State>, steps: seq<Step>, loop: Loop, i: nat)
    requires Run(states, steps, loop) && i < |states|
    ensures Inv(states[i], loop)
  {
    hide Inv, Apply, Enabled;
    if i > 0 {
      RunKeeps(states, steps, loop, i - 1);
      StepKeeps(states[i - 1], steps[i - 1], loop);
    } else {
      Starts(states[0], loop);
    }
  }

  // ----- when a copy is accepted -----

  /** The step at which a loop decides. */
  function Decision(loop: Loop): Step { if loop == VcpuTime then Check else Recheck }

  /**
   A copy is accepted if and only if the version has not changed since it was read, or 2^32 times or a multiple of
   it; the wall clock loop also retries while the version is odd.
   */
  lemma AcceptedExactly(states: seq<State>, steps: seq<Step>, loop: Loop, i: nat)
    requires Run(states, steps, loop) && i < |steps|
    ensures steps[i] == Decision(loop) ==>
              var r, r' := states[i].reader, states[i + 1].reader;
              && (r.Copying? || r.Rechecking?) && r.since <= states[i].host.changes
              && r' == (if (states[i].host.changes - r.since) % TWO32 == 0
                        then Accepted(r.since, states[i].host.changes, r.copied) else Outside)
    ensures steps[i] == Check && loop == WallClock ==>
              (states[i + 1].reader == Outside <==> states[i].host.changes % 2 == 1)
  {
    RunKeeps(states, steps, loop, i);
    SameVersion(states[i].host.changes, states[i].host.changes);
    if steps[i] == Decision(loop) {
      SameVersion(states[i].reader.since, states[i].host.changes);
    }
  }

  predicate Reads(e: Step) {
    e.ReadField? || e.Check? || e.Recheck?
  }

  /** The reader holds a copy of the present fields, and has it accepted once it is through. */
  ghost predicate Fresh(st: State) {
    match st.reader
    case Outside => false
    case Copying(_, since, _) => since == st.host.changes
    case Rechecking(_, since, _) => since == st.host.changes
    case Accepted(since, upto, copied) => since == upto == st.host.changes && IsPublished(st.host, since / 2, copied)
  }

  lemma FreshStep(st: State, e: Step, loop: Loop)
    requires Inv(st, loop) && Enabled(st, e) && Reads(e) && Fresh(st) && st.host.changes % 2 == 0
    ensures Apply(st, e, loop).host == st.host && Fresh(Apply(st, e, loop))
  {
    SameVersion(st.host.changes, st.host.changes);
    StepKeeps(st, e, loop);
  }

  /** A read under an even version that the host does not disturb is never retried, and gives the fields. */
  lemma {:induction false} Undisturbed(states: seq<State>, steps: seq<Step>, loop: Loop, j: nat, k: nat)
    requires Run(states, steps, loop) && j < k <= |steps| && steps[j] == ReadVersion
    requires states[j].host.changes % 2 == 0 && forall i: nat :: j < i < k ==> Reads(steps[i])
    ensures states[k].host == states[j].host && Fresh(states[k])
    decreases k
  {
    if k > j + 1 {
      Undisturbed(states, steps, loop, j, k - 1);
      hide Fresh, Inv, Apply, Enabled;
      RunKeeps(states, steps, loop, k - 1);
      assert Reads(steps[k - 1]);
      FreshStep(states[k - 1], steps[k - 1], loop);
    } else {
      assert Enabled(states[j], steps[j]) && states[k] == Apply(states[j], steps[j], loop);
    }
  }

  /**
   Every snapshot that either loop accepts is one published state, the one of the version that it read, unless the
   host has changed the version 2^32 times or a multiple of it in the meantime.
   */
  lemma SnapshotIsPublished(states: seq<State>, steps: seq<Step>, loop: Loop, i: nat)
    requires Run(states, steps, loop) && i < |states| && states[i].reader.Accepted?
    ensures var r := states[i].reader;
            && r.since <= r.upto && (r.upto - r.since) % TWO32 == 0
            && (r.upto - r.since < TWO32 ==> r.since % 2 == 0 && IsPublished(states[i].host, r.since / 2, r.copied))
  {
    hide Run;
    RunKeeps(states, steps, loop, i);
  }

  // ----- a version that comes round -----

  ghost predicate Reachable(st: State, loop: Loop) {
    exists states, steps :: Run(states, steps, loop) && states[|states| - 1] == st
  }

  lemma Extend(st: State, e: Step, loop: Loop)
    requires Reachable(st, loop) && Enabled(st, e)
    ensures Reachable(Apply(st, e, loop), loop)
  {
    hide Apply, Enabled, Init;
    var states, steps :| Run(states, steps, loop) && states[|states| - 1] == st;
    var states', steps' := states + [Apply(st, e, loop)], steps + [e];
    assert Run(states', steps', loop);
  }

  /** The host can go through any number of updates that write nothing. */
  lemma {:induction false} Idle(h: Host, r: Reader, loop: Loop, n: nat) returns (p: seq<seq<nat>>)
    requires Reachable(State(h, r), loop) && h.changes % 2 == 0
    ensures Reachable(State(Host(h.changes + 2 * n, h.fields, p), r), loop)
    ensures forall k :: 0 <= k < |p| ==> p[k] == h.fields || (k < |h.published| && p[k] == h.published[k])
  {
    hide Reachable;
    if n == 0 {
      p := h.published;
      assert Host(h.changes, h.fields, p) == h;
    } else {
      var q := Idle(h, r, loop, n - 1);
      var st := State(Host(h.changes + 2 * n - 2, h.fields, q), r);
      SameVersion(st.host.changes, st.host.changes);
      Extend(st, HostBegin, loop);
      var st1 := Apply(st, HostBegin, loop);
      SameVersion(st1.host.changes, st1.host.changes);
      Extend(st1, HostEnd, loop);
      p := q + [h.fields];
    }
  }

  /** Both fields updated from 0 to 1. */
  lemma Updated(st: State, loop: Loop) returns (h: Host)
    requires Reachable(st, loop) && st.host == Host(0, [0, 0], [[0, 0]])
    ensures h == Host(2, [1, 1], [[0, 0], [1, 1]]) && Reachable(State(h, st.reader), loop)
  {
    hide Reachable;
    var r := st.reader;
    Extend(st, HostBegin, loop);
    Extend(State(Host(1, [0, 0], [[0, 0]]), r), HostWrite(0, 1), loop);
    assert [0, 0][0 := 1] == [1, 0] && [1, 0][1 := 1] == [1, 1];
    Extend(State(Host(1, [1, 0], [[0, 0]]), r), HostWrite(1, 1), loop);
    Extend(State(Host(1, [1, 1], [[0, 0]]), r), HostEnd, loop);
    h := Host(2, [1, 1], [[0, 0], [1, 1]]);
    assert [[0, 0]] + [[1, 1]] == h.published;
  }

  /** The second field copied and the snapshot accepted. */
  lemma Finished(s: State, loop: Loop) returns (st: State)
    requires Reachable(s, loop) && s.host.changes == TWO32 && s.host.fields == [1, 1]
    requires s.reader == Copying(0, 0, map[0 := 0])
    requires forall k :: 0 <= k < |s.host.published| ==> s.host.published[k] == [1, 1] || s.host.published[k] == [0, 0]
    ensures Reachable(st, loop) && st.reader.Accepted? && forall k: nat :: !IsPublished(st.host, k, st.reader.copied)
  {
    hide Reachable;
    Extend(s, ReadField(1), loop);
    var both := map[0 := 0, 1 := 1];
    assert map[0 := 0][1 := 1] == both;
    var s1 := State(s.host, Copying(0, 0, both));
    Extend(s1, Check, loop);
    st := State(s.host, Accepted(0, TWO32, both));
    if loop == WallClock {
      Extend(State(s.host, Rechecking(0, 0, both)), Recheck, loop);
    }
    forall k: nat | k < |s.host.published|
      ensures !IsPublished(s.host, k, both)
    {
      assert s.host.published[k][0] == 1 || s.host.published[k][1] == 0;
    }
  }

  /** One field is copied before an update of both, the other when 2^32 changes have brought the version round. */
  lemma TornAfterWrap(loop: Loop) returns (st: State)
    ensures Reachable(st, loop) && st.reader.Accepted? && forall k: nat :: !IsPublished(st.host, k, st.reader.copied)
  {
    var h := Host(0, [0, 0], [[0, 0]]);
    var s0 := State(h, Outside);
    assert Reachable(s0, loop) by {
      assert Run([s0], [], loop);
    }
    hide Reachable;
    var s1 := State(h, Copying(0, 0, map[0 := 0]));
    Extend(s0, ReadVersion, loop);
    Extend(State(h, Copying(0, 0, map[])), ReadField(0), loop);
    assert Apply(State(h, Copying(0, 0, map[])), ReadField(0), loop) == s1;
    var h4 := Updated(s1, loop);
    var p := Idle(h4, s1.reader, loop, TWO31 - 1);
    var s5 := State(Host(TWO32, [1, 1], p), s1.reader);
    st := Finished(s5, loop);
  }
}
