/**
 Handing work to another CPU (lib/arm/smp.c): one target CPU in do_idle and any number of CPUs in
 on_cpu_async and on_cpu, as steps over sequentially consistent memory.
 */
module SmpHandoff {

  const NULL: nat := 0

  /** A function and its argument. */
  datatype Work = Work(func: nat, data: nat)

  /** Where the target is in do_idle. */
  datatype TargetPc =
    | Booting            // before the first set_cpu_idle
    | Spinning           // waiting for its idle bit to be cleared
    | Running            // in the function
    | Returned           // the function has returned, func is still set
    | Cleared            // func is null, the idle bit is not yet set

  /** Where a submitter is in on_cpu_async and on_cpu. `ticket` numbers the accepted requests. */
  datatype SubmitterPc =
    | Away
    | Waiting(work: Work)                      // in cpu_wait
    | Locking(work: Work)                      // has seen the idle bit, wants the lock
    | Checking(work: Work)                     // holds the lock
    | Storing(work: Work, ticket: nat)         // has stored func, holds the lock
    | Unlocking(work: Work, ticket: nat)       // has stored data, holds the lock
    | Waking(work: Work, ticket: nat)          // is about to clear the idle bit
    | Submitted(ticket: nat, early: bool)      // has cleared the idle bit; early: while the target was in Cleared

  datatype Holder = Nobody | Submitter(s: nat) | Elsewhere

  /** Shared memory, the program counters and what has happened so far. */
  datatype State = State(idle: bool, func: nat, data: nat, lock: Holder, target: TargetPc,
                         subs: map<nat, SubmitterPc>, accepted: seq<Work>, ran: seq<Work>, finished: nat)

  datatype Step =
    | TargetBoot | TargetCall | TargetReturn | TargetClear | TargetIdle
    | Begin(s: nat, work: Work) | SeeIdle(s: nat) | Lock(s: nat) | Check(s: nat) | StoreData(s: nat)
    | Unlock(s: nat) | Wake(s: nat) | Leave(s: nat) | WaitDone(s: nat)
    | LockElsewhere | UnlockElsewhere

  ghost predicate Init(st: State) {
    && !st.idle && st.func == NULL && st.lock == Nobody && st.target == Booting
    && (forall s :: s in st.subs ==> st.subs[s] == Away) && st.accepted == [] && st.ran == [] && st.finished == 0
  }

  /** A step that its CPU can take. */
  predicate Enabled(st: State, e: Step) {
    match e
    case TargetBoot => st.target == Booting
    case TargetCall => st.target == Spinning && !st.idle
    case TargetReturn => st.target == Running
    case TargetClear => st.target == Returned
    case TargetIdle => st.target == Cleared
    case Begin(s, _) => s in st.subs && st.subs[s].Away?
    case SeeIdle(s) => s in st.subs && st.subs[s].Waiting? && st.idle
    case Lock(s) => s in st.subs && st.subs[s].Locking? && st.lock == Nobody
    case Check(s) => s in st.subs && st.subs[s].Checking?
    case StoreData(s) => s in st.subs && st.subs[s].Storing?
    case Unlock(s) => s in st.subs && st.subs[s].Unlocking?
    case Wake(s) => s in st.subs && st.subs[s].Waking?
    case Leave(s) => s in st.subs && st.subs[s].Submitted?
    case WaitDone(s) => s in st.subs && st.subs[s].Submitted? && st.idle
    case LockElsewhere => st.lock == Nobody
    case UnlockElsewhere => st.lock == Elsewhere
  }

  /** The effect of a step. */
  function Apply(st: State, e: Step): State
    requires Enabled(st, e)
  {
    match e
    case TargetBoot => st.(idle := true, target := Spinning)
    case TargetCall => st.(target := Running, ran := st.ran + [Work(st.func, st.data)])
    case TargetReturn => st.(target := Returned, finished := st.finished + 1)
    case TargetClear => st.(target := Cleared, func := NULL)
    case TargetIdle => st.(target := Spinning, idle := true)
    case Begin(s, work) => st.(subs := st.subs[s := Waiting(work)])
    case SeeIdle(s) => st.(subs := st.subs[s := Locking(st.subs[s].work)])
    case Lock(s) => st.(lock := Submitter(s), subs := st.subs[s := Checking(st.subs[s].work)])
    case Check(s) =>
      var work := st.subs[s].work;
      if st.func == NULL then
        st.(func := work.func, accepted := st.accepted + [work], subs := st.subs[s := Storing(work, |st.accepted|)])
      else st.(lock := Nobody, subs := st.subs[s := Waiting(work)])
    case StoreData(s) =>
      var p := st.subs[s];
      st.(data := p.work.data, subs := st.subs[s := Unlocking(p.work, p.ticket)])
    case Unlock(s) =>
      var p := st.subs[s];
      st.(lock := Nobody, subs := st.subs[s := Waking(p.work, p.ticket)])
    case Wake(s) => st.(idle := false, subs := st.subs[s := Submitted(st.subs[s].ticket, st.target == Cleared)])
    case Leave(s) => st.(subs := st.subs[s := Away])
    case WaitDone(s) => st.(subs := st.subs[s := Away])
    case LockElsewhere => st.(lock := Elsewhere)
    case UnlockElsewhere => st.(lock := Nobody)
  }

  /** Runs: the states that a list of steps passes through. */
  ghost predicate Run(states: seq<State>, steps: seq<Step>) {
    && |states| == |steps| + 1 && Init(states[0])
    && forall i: nat :: i < |steps| ==> Enabled(states[i], steps[i]) && states[i + 1] == Apply(states[i], steps[i])
  }

  /** No submitter asks for the null function. */
  predicate NoNull(e: Step) {
    e.Begin? ==> e.work.func != NULL
  }

  ghost predicate NullFree(steps: seq<Step>) {
    forall i: nat :: i < |steps| ==> NoNull(steps[i])
  }

  // ----- what every step keeps -----

  /** The submitter has a request accepted and has not yet cleared the idle bit. */
  predicate Pending(p: SubmitterPc) {
    p.Storing? || p.Unlocking? || p.Waking?
  }

  predicate Holds(p: SubmitterPc) {
    p.Checking? || p.Storing? || p.Unlocking?
  }

  /** Requests run in the order in which they were accepted; at most one is accepted and not yet running. */
  ghost predicate InOrder(st: State) {
    && st.ran <= st.accepted && |st.accepted| <= |st.ran| + 1
    && st.finished == |st.ran| - (if st.target == Running then 1 else 0)
    && (|st.accepted| == |st.ran| + 1 ==> st.func == st.accepted[|st.ran|].func != NULL)
    && (|st.accepted| == |st.ran| ==> (st.func != NULL <==> st.target == Running || st.target == Returned))
  }

  /** The target, its idle bit and its request. */
  ghost predicate TargetOk(st: State) {
    && (st.target != Spinning ==> !st.idle)
    && (st.target == Booting ==> st.accepted == [])
    && (st.target == Running || st.target == Returned ==> |st.accepted| == |st.ran| > 0)
    && (st.target == Spinning && !st.idle ==> |st.accepted| == |st.ran| + 1 && st.data == st.accepted[|st.ran|].data)
  }

  /** What submitter `s` knows. */
  ghost predicate SubOk(st: State, s: nat, p: SubmitterPc) {
    && (Holds(p) <==> st.lock == Submitter(s))
    && (!p.Away? && !p.Submitted? ==> p.work.func != NULL)
    && (st.target == Booting ==> p.Away? || p.Waiting?)
    && (Pending(p) ==>
          && |st.accepted| == |st.ran| + 1 && p.ticket == |st.ran| && st.accepted[p.ticket] == p.work
          && (st.target == Cleared || (st.target == Spinning && st.idle))
          && (!p.Storing? ==> st.data == p.work.data))
    && (p.Submitted? ==> p.ticket < |st.accepted|)
    && (p.Submitted? && p.early ==>
         p.ticket == |st.ran| && (st.target == Cleared || (st.target == Spinning && st.idle)))
    && (p.Submitted? && !p.early ==>
          p.ticket < st.finished || (st.target == Spinning && !st.idle && p.ticket == |st.ran|)
          || (st.target == Running && p.ticket == |st.ran| - 1))
  }

  /** At most one submitter still has to clear the idle bit, and none if the request was submitted early. */
  ghost predicate OneWaker(st: State) {
    forall s, t :: s in st.subs && t in st.subs && s != t && Pending(st.subs[s]) ==>
      !Pending(st.subs[t]) && !(st.subs[t].Submitted? && st.subs[t].early)
  }

  ghost predicate Inv(st: State) {
    InOrder(st) && TargetOk(st) && OneWaker(st) && forall s :: s in st.subs ==> SubOk(st, s, st.subs[s])
  }

  /** Steps of the target. */
  lemma TargetKeeps(st: State, e: Step)
    requires Inv(st) && Enabled(st, e)
    requires (e.TargetBoot? || e.TargetCall? || e.TargetReturn? || e.TargetClear? || e.TargetIdle?)
    ensures Inv(Apply(st, e))
  {}

  /** Steps that take or give up the lock. */
  lemma LockKeeps(st: State, e: Step)
    requires Inv(st) && Enabled(st, e) && (e.Lock? || e.Unlock?)
    ensures Inv(Apply(st, e))
  {
    var st' := Apply(st, e);
    forall s | s in st'.subs
      ensures SubOk(st', s, st'.subs[s])
    {
      assert SubOk(st, s, st.subs[s]);
    }
  }

  /** The lock in other hands. */
  lemma ElsewhereKeeps(st: State, e: Step)
    requires Inv(st) && Enabled(st, e) && (e.LockElsewhere? || e.UnlockElsewhere?)
    ensures Inv(Apply(st, e))
  {
    var st' := Apply(st, e);
    forall s | s in st'.subs
      ensures SubOk(st', s, st'.subs[s])
    {
      assert SubOk(st, s, st.subs[s]);
    }
  }

  /** Steps of a submitter that change only where it is. */
  lemma QuietKeeps(st: State, e: Step)
    requires Inv(st) && Enabled(st, e) && NoNull(e) && (e.Begin? || e.SeeIdle? || e.Leave? || e.WaitDone?)
    ensures Inv(Apply(st, e))
  {
    var st' := Apply(st, e);
    forall s | s in st'.subs
      ensures SubOk(st', s, st'.subs[s])
    {
      assert SubOk(st, s, st.subs[s]);
    }
  }

  lemma CheckKeeps(st: State, e: Step)
    requires Inv(st) && Enabled(st, e) && e.Check?
    ensures Inv(Apply(st, e))
  {
    var st' := Apply(st, e);
    assert SubOk(st, e.s, st.subs[e.s]);
    forall s | s in st'.subs
      ensures SubOk(st', s, st'.subs[s])
    {
      assert SubOk(st, s, st.subs[s]);
    }
  }

  lemma StoreKeeps(st: State, e: Step)
    requires Inv(st) && Enabled(st, e) && (e.StoreData? || e.Wake?)
    ensures Inv(Apply(st, e))
  {
    var st' := Apply(st, e);
    assert SubOk(st, e.s, st.subs[e.s]);
    forall s | s in st'.subs
      ensures SubOk(st', s, st'.subs[s])
    {
      assert SubOk(st, s, st.subs[s]);
    }
  }

  predicate HasWork(p: SubmitterPc) {
    !p.Away? && !p.Submitted?
  }

  /** A submitter that has begun keeps its work; it is away only after its own return from Submitted. */
  ghost predicate GoesOn(st: State, e: Step, st': State, s: nat)
    requires s in st.subs
  {
    && s in st'.subs
    && (st.subs[s].Away? || e == Leave(s) || e == WaitDone(s) || !st'.subs[s].Away?)
    && (e == Leave(s) || e == WaitDone(s) ==> st.subs[s].Submitted?)
    && (HasWork(st.subs[s]) && HasWork(st'.subs[s]) ==> st'.subs[s].work == st.subs[s].work)
  }

  lemma AllGoOn(st: State, e: Step)
    requires Enabled(st, e)
    ensures forall s :: s in st.subs ==> GoesOn(st, e, Apply(st, e), s)
  {}

  lemma StepKeeps(st: State, e: Step)
    requires Inv(st) && Enabled(st, e) && NoNull(e)
    ensures Inv(Apply(st, e)) && forall s :: s in st.subs ==> GoesOn(st, e, Apply(st, e), s)
  {
    AllGoOn(st, e);
    hide Inv, GoesOn;
    match e
    case TargetBoot | TargetCall | TargetReturn | TargetClear | TargetIdle => TargetKeeps(st, e);
    case Check(_) => CheckKeeps(st, e);
    case StoreData(_) | Wake(_) => StoreKeeps(st, e);
    case Begin(_, _) | SeeIdle(_) | Leave(_) | WaitDone(_) => QuietKeeps(st, e);
    case Lock(_) | Unlock(_) => LockKeeps(st, e);
    case LockElsewhere | UnlockElsewhere => ElsewhereKeeps(st, e);
  }

  /** Every state of every run in which no null function is submitted. */
  lemma {:induction false} RunKeeps(states: seq<State>, steps: seq<Step>, i: nat)
    requires Run(states, steps) && NullFree(steps) && i < |states|
    ensures Inv(states[i])
  {
    if i > 0 {
      RunKeeps(states, steps, i - 1);
      StepKeeps(states[i - 1], steps[i - 1]);
    }
  }

  // ----- a submitter and its request -----

  /** The submitter has begun with `work`, and the ticket, once it has one, is that of `work`. */
  predicate OnItsWay(st: State, s: nat, work: Work) {
    && s in st.subs
    && match st.subs[s]
       case Away => false
       case Waiting(w) => w == work
       case Locking(w) => w == work
       case Checking(w) => w == work
       case Storing(w, t) => w == work && t < |st.accepted| && st.accepted[t] == work
       case Unlocking(w, t) => w == work && t < |st.accepted| && st.accepted[t] == work
       case Waking(w, t) => w == work && t < |st.accepted| && st.accepted[t] == work
       case Submitted(t, _) => t < |st.accepted| && st.accepted[t] == work
  }

  predicate HasTicket(p: SubmitterPc) {
    Pending(p) || p.Submitted?
  }

  /** A submitter gives up its request only after it was accepted, and keeps the ticket it was given. */
  lemma OnItsWayStep(st: State, e: Step, s: nat, work: Work)
    requires Enabled(st, e) && OnItsWay(st, s, work)
    ensures var st' := Apply(st, e);
            && (if e == Leave(s) || e == WaitDone(s) then st.subs[s].Submitted? && s in st'.subs && st'.subs[s].Away?
                else OnItsWay(st', s, work))
            && (HasTicket(st.subs[s]) && HasTicket(st'.subs[s]) ==> st'.subs[s].ticket == st.subs[s].ticket)
            && (!HasTicket(st.subs[s]) && HasTicket(st'.subs[s]) ==>
                 e == Check(s) && st'.subs[s].ticket == |st.accepted| && st'.accepted == st.accepted + [work])
  {}

  /** Since it began at step `i`, the submitter has not been away, up to state `m`. */
  ghost predicate Since(states: seq<State>, steps: seq<Step>, i: nat, m: nat)
    requires |states| == |steps| + 1
  {
    && i < m < |states| && steps[i].Begin?
    && forall x: nat :: i < x <= m ==> steps[i].s in states[x].subs && !states[x].subs[steps[i].s].Away?
  }

  /** The request that begins at step `i` is accepted at step `c`. */
  ghost predicate AcceptedAt(states: seq<State>, steps: seq<Step>, i: nat, c: nat)
    requires |states| == |steps| + 1
  {
    && i < c < |steps| && Since(states, steps, i, c) && steps[c] == Check(steps[i].s)
    && states[c + 1].accepted == states[c].accepted + [steps[i].work]
  }

  /** The request that begins at step `i` is accepted at step `c`, and its submitter returns at step `k`. */
  ghost predicate ServedBy(states: seq<State>, steps: seq<Step>, i: nat, c: nat, k: nat)
    requires |states| == |steps| + 1
  {
    && AcceptedAt(states, steps, i, c) && c < k < |steps| && Since(states, steps, i, k)
    && (steps[k] == Leave(steps[i].s) || steps[k] == WaitDone(steps[i].s))
    && var p := states[k].subs[steps[i].s];
       p.Submitted? && p.ticket == |states[c].accepted| && states[c + 1].accepted <= states[k].accepted
  }

  /** Where a submitter's ticket is from. */
  ghost predicate TicketFrom(states: seq<State>, steps: seq<Step>, i: nat, m: nat, c: nat)
    requires |states| == |steps| + 1
  {
    && c < m < |states| && AcceptedAt(states, steps, i, c) && steps[i].s in states[m].subs
    && HasTicket(states[m].subs[steps[i].s]) && states[m].subs[steps[i].s].ticket == |states[c].accepted|
  }

  lemma {:induction false} SinceBegin(states: seq<State>, steps: seq<Step>, i: nat, m: nat)
    requires Run(states, steps) && Since(states, steps, i, m)
    ensures OnItsWay(states[m], steps[i].s, steps[i].work)
    ensures HasTicket(states[m].subs[steps[i].s]) ==> exists c: nat :: TicketFrom(states, steps, i, m, c)
    decreases m
  {
    var s, work := steps[i].s, steps[i].work;
    if m > i + 1 {
      assert Since(states, steps, i, m - 1);
      SinceBegin(states, steps, i, m - 1);
      OnItsWayStep(states[m - 1], steps[m - 1], s, work);
      hide Run, OnItsWay, Enabled, Apply;
      if HasTicket(states[m].subs[s]) {
        if HasTicket(states[m - 1].subs[s]) {
          var c: nat :| TicketFrom(states, steps, i, m - 1, c);
          assert TicketFrom(states, steps, i, m, c);
        } else {
          assert TicketFrom(states, steps, i, m, m - 1);
        }
      }
    }
  }

  /** Requests are only ever added. */
  lemma {:induction false} AcceptedGrows(states: seq<State>, steps: seq<Step>, i: nat, j: nat)
    requires Run(states, steps) && i <= j < |states|
    ensures states[i].accepted <= states[j].accepted
    decreases j
  {
    if i < j {
      AcceptedGrows(states, steps, i, j - 1);
      assert states[j - 1].accepted <= Apply(states[j - 1], steps[j - 1]).accepted;
    }
  }

  /** A submitter that is away again at state `j` returned on the way, with its own request accepted. */
  lemma {:induction false} Served(states: seq<State>, steps: seq<Step>, i: nat, m: nat, j: nat)
    requires Run(states, steps) && m <= j < |states| && Since(states, steps, i, m)
    requires steps[i].s in states[j].subs && states[j].subs[steps[i].s].Away?
    ensures exists c: nat, k: nat :: k < j && ServedBy(states, steps, i, c, k)
    decreases j - m
  {
    var s := steps[i].s;
    SinceBegin(states, steps, i, m);
    OnItsWayStep(states[m], steps[m], s, steps[i].work);
    hide Run;
    if steps[m] == Leave(s) || steps[m] == WaitDone(s) {
      var c: nat :| TicketFrom(states, steps, i, m, c);
      AcceptedGrows(states, steps, c + 1, m);
      assert ServedBy(states, steps, i, c, m);
    } else {
      assert Since(states, steps, i, m + 1);
      Served(states, steps, i, m + 1, j);
    }
  }

  /** Where a submitter that is not away has begun. */
  lemma {:induction false} Began(states: seq<State>, steps: seq<Step>, m: nat, s: nat) returns (i: nat)
    requires Run(states, steps) && m < |states| && s in states[m].subs && !states[m].subs[s].Away?
    ensures Since(states, steps, i, m) && steps[i].s == s
    decreases m
  {
    assert m > 0;
    if s in states[m - 1].subs && !states[m - 1].subs[s].Away? {
      i := Began(states, steps, m - 1, s);
    } else {
      i := m - 1;
    }
  }

  /** Every ticket belongs to a request: the one that was accepted as that number. */
  lemma {:induction false} TicketOf(states: seq<State>, steps: seq<Step>, n: nat, t: nat) returns (i: nat, c: nat)
    requires Run(states, steps) && n < |states| && t < |states[n].accepted|
    ensures c < n && AcceptedAt(states, steps, i, c) && |states[c].accepted| == t
    ensures states[n].accepted[t] == steps[i].work
    decreases n
  {
    AcceptedGrows(states, steps, n - 1, n);
    if t < |states[n - 1].accepted| {
      i, c := TicketOf(states, steps, n - 1, t);
    } else {
      c := n - 1;
      i := Began(states, steps, c, steps[c].s);
      SinceBegin(states, steps, i, c);
    }
  }

  /** No ticket belongs to two requests. */
  lemma OwnTicket(states: seq<State>, steps: seq<Step>, i: nat, c: nat, i': nat, c': nat)
    requires Run(states, steps) && AcceptedAt(states, steps, i, c) && AcceptedAt(states, steps, i', c')
    requires |states[c].accepted| == |states[c'].accepted|
    ensures i == i' && c == c'
  {
    if c < c' {
      AcceptedGrows(states, steps, c + 1, c');
    } else if c' < c {
      AcceptedGrows(states, steps, c' + 1, c);
    }
    assert Enabled(states[i], steps[i]) && Enabled(states[i'], steps[i']);
  }

  /** The submitter that begins at step `i` is away at state `j` behind it. */
  predicate AwayAgain(states: seq<State>, steps: seq<Step>, i: nat, j: nat)
    requires |states| == |steps| + 1
  {
    i < j < |states| && steps[i].Begin? && steps[i].s in states[j].subs && states[j].subs[steps[i].s].Away?
  }

  /** Submitters return from their requests only after these were accepted, each with a ticket of its own. */
  ghost predicate ServedRun(states: seq<State>, steps: seq<Step>) {
    && |states| == |steps| + 1
    && (forall i: nat, j: nat :: AwayAgain(states, steps, i, j) ==>
          exists c: nat, k: nat :: k < j && ServedBy(states, steps, i, c, k))
    && (forall i: nat, c: nat, i': nat, c': nat ::
          AcceptedAt(states, steps, i, c) && AcceptedAt(states, steps, i', c') ==>
            |states[c].accepted| == |states[c'].accepted| ==> i == i' && c == c')
  }

  lemma AllServed(states: seq<State>, steps: seq<Step>)
    requires Run(states, steps)
    ensures ServedRun(states, steps)
  {
    forall i: nat, j: nat | AwayAgain(states, steps, i, j)
      ensures exists c: nat, k: nat :: k < j && ServedBy(states, steps, i, c, k)
    {
      assert Since(states, steps, i, i + 1);
      Served(states, steps, i, i + 1, j);
    }
    forall i: nat, c: nat, i': nat, c': nat | AcceptedAt(states, steps, i, c) && AcceptedAt(states, steps, i', c')
                                              && |states[c].accepted| == |states[c'].accepted|
      ensures i == i' && c == c'
    {
      OwnTicket(states, steps, i, c, i', c');
    }
  }

  // ----- what that says about runs -----

  /**
   A safe step: the target calls no null function and calls what was accepted next, requests run each at most
   once, and a request is accepted only when no other one waits, so that none is overwritten.
   */
  ghost predicate SafeStep(st: State, e: Step, st': State) {
    && st.ran <= st.accepted && |st.accepted| <= |st.ran| + 1 && st.accepted <= st'.accepted
    && (e.TargetCall? ==> st.func != NULL && |st.accepted| == |st.ran| + 1 && st'.ran == st.accepted)
    && (e.Check? && st'.accepted != st.accepted ==>
          st.accepted == st.ran && e.s in st.subs && !st.subs[e.s].Away? && !st.subs[e.s].Submitted?
          && st'.accepted == st.accepted + [st.subs[e.s].work])
  }

  /** Every step is safe, and every submitter that returns has been served. */
  ghost predicate SafeRun(states: seq<State>, steps: seq<Step>) {
    && ServedRun(states, steps)
    && forall i: nat :: i < |steps| ==> SafeStep(states[i], steps[i], states[i + 1])
  }

  lemma CallIsAccepted(st: State, e: Step)
    requires Inv(st) && Enabled(st, e)
    ensures st.accepted <= Apply(st, e).accepted
    ensures e.TargetCall? ==> |st.accepted| == |st.ran| + 1 && Apply(st, e).ran == st.accepted
  {
    hide SubOk, OneWaker;
    if e.TargetCall? {
      var n := |st.ran|;
      assert st.accepted == st.accepted[..n] + [st.accepted[n]];
    }
  }

  lemma StepSafe(st: State, e: Step)
    requires Inv(st) && Enabled(st, e)
    ensures SafeStep(st, e, Apply(st, e))
  {
    hide SubOk, OneWaker;
    CallIsAccepted(st, e);
  }

  /** Every interleaving is safe, if no submitter asks for the null function. */
  lemma HandoffSafe(states: seq<State>, steps: seq<Step>)
    requires Run(states, steps) && NullFree(steps)
    ensures SafeRun(states, steps)
  {
    AllServed(states, steps);
    hide Inv, SafeStep, ServedRun;
    forall i: nat | i < |steps|
      ensures SafeStep(states[i], steps[i], states[i + 1])
    {
      RunKeeps(states, steps, i);
      StepSafe(states[i], steps[i]);
    }
  }

  /** When on_cpu returns, its function has finished if and only if the idle bit was not cleared early. */
  lemma OnCpuReturns(states: seq<State>, steps: seq<Step>, i: nat)
    requires Run(states, steps) && NullFree(steps) && i < |steps| && steps[i].WaitDone?
    ensures var st := states[i];
            var p := st.subs[steps[i].s];
            && p.ticket < |st.accepted|
            && (p.ticket < st.finished <==> !p.early) && (p.early ==> p.ticket == |st.ran|)
  {
    RunKeeps(states, steps, i);
    assert SubOk(states[i], steps[i].s, states[i].subs[steps[i].s]);
  }

  /** When on_cpu returns and the idle bit was not cleared early, what ran under its ticket is what it asked for. */
  lemma OnCpuRan(states: seq<State>, steps: seq<Step>, i: nat, k: nat)
    requires Run(states, steps) && NullFree(steps) && k < |steps| && Since(states, steps, i, k)
    requires steps[k] == WaitDone(steps[i].s)
    ensures var p := states[k].subs[steps[i].s];
            p.Submitted? && (!p.early ==> p.ticket < |states[k].ran| && states[k].ran[p.ticket] == steps[i].work)
  {
    RunKeeps(states, steps, k);
    SinceBegin(states, steps, i, k);
    OnCpuReturns(states, steps, k);
  }

  /** A submitter that has seen the idle bit finds the target still there. */
  ghost predicate Alone(st: State, s: nat) {
    && st.subs.Keys == {s}
    && (st.subs[s].Locking? || st.subs[s].Checking? || Pending(st.subs[s]) ==> st.target == Spinning && st.idle)
    && !(st.subs[s].Submitted? && st.subs[s].early)
  }

  lemma AloneStep(st: State, e: Step, s: nat)
    requires Inv(st) && Alone(st, s) && Enabled(st, e)
    ensures Alone(Apply(st, e), s)
  {
    hide SubOk, OneWaker, InOrder;
    assert Apply(st, e).subs.Keys == st.subs.Keys;
  }

  lemma {:induction false} RunAlone(states: seq<State>, steps: seq<Step>, i: nat, s: nat)
    requires Run(states, steps) && NullFree(steps) && i < |states| && states[0].subs.Keys == {s}
    ensures Alone(states[i], s)
  {
    hide Inv;
    if i > 0 {
      RunAlone(states, steps, i - 1, s);
      RunKeeps(states, steps, i - 1);
      AloneStep(states[i - 1], steps[i - 1], s);
    }
  }

  lemma OneKey(m: map<nat, SubmitterPc>, s: nat)
    requires |m| == 1 && s in m
    ensures m.Keys == {s}
  {
    assert |m.Keys| == 1;
    assert |m.Keys - {s}| == 0;
  }

  /** With a single submitter, on_cpu returns only after the function has finished. */
  lemma SingleSubmitter(states: seq<State>, steps: seq<Step>, i: nat)
    requires Run(states, steps) && NullFree(steps) && i < |steps| && steps[i].WaitDone? && |states[0].subs| == 1
    ensures states[i].subs[steps[i].s].ticket < states[i].finished
  {
    hide Inv;
    var s :| s in states[0].subs;
    OneKey(states[0].subs, s);
    RunAlone(states, steps, i, s);
    OnCpuReturns(states, steps, i);
  }

  /** Submitters ask for these functions only. */
  ghost predicate Uses(steps: seq<Step>, works: set<Work>) {
    forall i: nat :: i < |steps| && steps[i].Begin? ==> steps[i].work in works
  }

  ghost predicate RunTo(states: seq<State>, steps: seq<Step>, works: set<Work>, st: State) {
    Run(states, steps) && Uses(steps, works) && states[|steps|] == st
  }

  /** The last states of runs with these functions. */
  ghost predicate Reachable(works: set<Work>, st: State) {
    exists states: seq<State>, steps: seq<Step> :: RunTo(states, steps, works, st)
  }

  lemma Extend(states: seq<State>, steps: seq<Step>, works: set<Work>, st: State, e: Step)
    requires RunTo(states, steps, works, st) && Enabled(st, e) && (e.Begin? ==> e.work in works)
    ensures RunTo(states + [Apply(st, e)], steps + [e], works, Apply(st, e))
  {
    var st' := Apply(st, e);
    var states', steps' := states + [st'], steps + [e];
    forall i: nat | i < |steps'|
      ensures Enabled(states'[i], steps'[i]) && states'[i + 1] == Apply(states'[i], steps'[i])
    {
      if i < |steps| {
        assert states'[i] == states[i] && steps'[i] == steps[i] && states'[i + 1] == states[i + 1];
      }
    }
  }

  lemma Reach(works: set<Work>, st: State, e: Step, st': State)
    requires Reachable(works, st) && Enabled(st, e) && st' == Apply(st, e) && (e.Begin? ==> e.work in works)
    ensures Reachable(works, st')
  {
    hide RunTo;
    var states: seq<State>, steps: seq<Step> :| RunTo(states, steps, works, st);
    Extend(states, steps, works, st, e);
  }

  function Two(p: SubmitterPc, q: SubmitterPc): map<nat, SubmitterPc> {
    map[1 := p, 2 := q]
  }

  /** Where the two submitters are, after one of them moves. */
  lemma TwoAt(p: SubmitterPc, q: SubmitterPc, r: SubmitterPc)
    ensures 1 in Two(p, q) && 2 in Two(p, q) && Two(p, q)[1] == p && Two(p, q)[2] == q
    ensures Two(p, q)[1 := r] == Two(r, q) && Two(p, q)[2 := r] == Two(p, r)
  {}

  /** Two submitters, both past their wait for the idle bit. */
  lemma BothSeeIdle(a: Work, b: Work)
    ensures Reachable({a, b}, State(true, NULL, 0, Nobody, Spinning, Two(Locking(a), Locking(b)), [], [], 0))
  {
    var st0 := State(false, NULL, 0, Nobody, Booting, Two(Away, Away), [], [], 0);
    var none: seq<Step> := [];
    assert RunTo([st0], none, {a, b}, st0);
    hide Reachable, Two;
    var st1 := st0.(idle := true, target := Spinning);
    Reach({a, b}, st0, TargetBoot, st1);
    TwoAt(Away, Away, Waiting(a));
    var st2 := st1.(subs := Two(Waiting(a), Away));
    Reach({a, b}, st1, Begin(1, a), st2);
    TwoAt(Waiting(a), Away, Waiting(b));
    var st3 := st1.(subs := Two(Waiting(a), Waiting(b)));
    Reach({a, b}, st2, Begin(2, b), st3);
    TwoAt(Waiting(a), Waiting(b), Locking(a));
    var st4 := st1.(subs := Two(Locking(a), Waiting(b)));
    Reach({a, b}, st3, SeeIdle(1), st4);
    TwoAt(Locking(a), Waiting(b), Locking(b));
    Reach({a, b}, st4, SeeIdle(2), st1.(subs := Two(Locking(a), Locking(b))));
  }

  /** The first request is accepted. */
  lemma FirstAccepted(a: Work, b: Work)
    ensures Reachable({a, b}, State(true, a.func, a.data, Nobody, Spinning, Two(Waking(a, 0), Locking(b)), [a], [], 0))
  {
    BothSeeIdle(a, b);
    hide Reachable, Two;
    var st0 := State(true, NULL, 0, Nobody, Spinning, Two(Locking(a), Locking(b)), [], [], 0);
    TwoAt(Locking(a), Locking(b), Checking(a));
    var st1 := st0.(lock := Submitter(1), subs := Two(Checking(a), Locking(b)));
    Reach({a, b}, st0, Lock(1), st1);
    TwoAt(Checking(a), Locking(b), Storing(a, 0));
    var st2 := State(true, a.func, 0, Submitter(1), Spinning, Two(Storing(a, 0), Locking(b)), [a], [], 0);
    Reach({a, b}, st1, Check(1), st2);
    TwoAt(Storing(a, 0), Locking(b), Unlocking(a, 0));
    var st3 := st2.(data := a.data, subs := Two(Unlocking(a, 0), Locking(b)));
    Reach({a, b}, st2, StoreData(1), st3);
    TwoAt(Unlocking(a, 0), Locking(b), Waking(a, 0));
    Reach({a, b}, st3, Unlock(1), st3.(lock := Nobody, subs := Two(Waking(a, 0), Locking(b))));
  }

  /** The first request has run, and the target has cleared func. */
  lemma FirstRuns(a: Work, b: Work)
    ensures Reachable({a, b},
              State(false, NULL, a.data, Nobody, Cleared, Two(Submitted(0, false), Locking(b)), [a], [a], 1))
  {
    FirstAccepted(a, b);
    hide Reachable, Two;
    var st0 := State(true, a.func, a.data, Nobody, Spinning, Two(Waking(a, 0), Locking(b)), [a], [], 0);
    TwoAt(Waking(a, 0), Locking(b), Submitted(0, false));
    var st1 := st0.(idle := false, subs := Two(Submitted(0, false), Locking(b)));
    Reach({a, b}, st0, Wake(1), st1);
    var st2 := st1.(target := Running, ran := [a]);
    assert [] + [a] == [a];
    Reach({a, b}, st1, TargetCall, st2);
    var st3 := st2.(target := Returned, finished := 1);
    Reach({a, b}, st2, TargetReturn, st3);
    Reach({a, b}, st3, TargetClear, st3.(target := Cleared, func := NULL));
  }

  /** The second request is accepted before the target sets its idle bit again. */
  lemma SecondAccepted(a: Work, b: Work)
    ensures Reachable({a, b},
              State(false, b.func, b.data, Nobody, Cleared, Two(Submitted(0, false), Waking(b, 1)), [a, b], [a], 1))
  {
    FirstRuns(a, b);
    hide Reachable, Two;
    var done := Submitted(0, false);
    var st0 := State(false, NULL, a.data, Nobody, Cleared, Two(done, Locking(b)), [a], [a], 1);
    TwoAt(done, Locking(b), Checking(b));
    var st1 := st0.(lock := Submitter(2), subs := Two(done, Checking(b)));
    Reach({a, b}, st0, Lock(2), st1);
    TwoAt(done, Checking(b), Storing(b, 1));
    assert [a] + [b] == [a, b];
    var st2 := State(false, b.func, a.data, Submitter(2), Cleared, Two(done, Storing(b, 1)), [a, b], [a], 1);
    Reach({a, b}, st1, Check(2), st2);
    TwoAt(done, Storing(b, 1), Unlocking(b, 1));
    var st3 := st2.(data := b.data, subs := Two(done, Unlocking(b, 1)));
    Reach({a, b}, st2, StoreData(2), st3);
    TwoAt(done, Unlocking(b, 1), Waking(b, 1));
    Reach({a, b}, st3, Unlock(2), st3.(lock := Nobody, subs := Two(done, Waking(b, 1))));
  }

  /** With two submitters, on_cpu can return although its function has not started. */
  lemma LostWakeup(a: Work, b: Work)
    ensures var st := State(true, b.func, b.data, Nobody, Spinning, Two(Submitted(0, false), Submitted(1, true)),
              [a, b], [a], 1);
            Reachable({a, b}, st) && Enabled(st, WaitDone(2))
  {
    SecondAccepted(a, b);
    hide Reachable, Two;
    var done := Submitted(0, false);
    var st0 := State(false, b.func, b.data, Nobody, Cleared, Two(done, Waking(b, 1)), [a, b], [a], 1);
    TwoAt(done, Waking(b, 1), Submitted(1, true));
    TwoAt(done, Submitted(1, true), done);
    var st1 := st0.(subs := Two(done, Submitted(1, true)));
    Reach({a, b}, st0, Wake(2), st1);
    Reach({a, b}, st1, TargetIdle, st1.(target := Spinning, idle := true));
  }

  // ----- the null function -----

  /** A first request for the null function is overwritten by the second, before the target has seen it. */
  lemma NullOverwritten(a: Work, b: Work)
    requires a.func == NULL
    ensures Reachable({a, b},
              State(true, b.func, a.data, Submitter(2), Spinning, Two(Waking(a, 0), Storing(b, 1)), [a, b], [], 0))
  {
    FirstAccepted(a, b);
    hide Reachable, Two;
    var st0 := State(true, NULL, a.data, Nobody, Spinning, Two(Waking(a, 0), Locking(b)), [a], [], 0);
    TwoAt(Waking(a, 0), Locking(b), Checking(b));
    var st1 := st0.(lock := Submitter(2), subs := Two(Waking(a, 0), Checking(b)));
    Reach({a, b}, st0, Lock(2), st1);
    TwoAt(Waking(a, 0), Checking(b), Storing(b, 1));
    assert [a] + [b] == [a, b];
    Reach({a, b}, st1, Check(2),
          State(true, b.func, a.data, Submitter(2), Spinning, Two(Waking(a, 0), Storing(b, 1)), [a, b], [], 0));
  }

  /** A request for the null function is called. */
  lemma NullCalled(a: Work)
    requires a.func == NULL
    ensures exists states, steps :: Run(states, steps) && Uses(steps, {a}) && !SafeRun(states, steps)
  {
    FirstAccepted(a, a);
    assert {a, a} == {a};
    var st0 := State(true, NULL, a.data, Nobody, Spinning, Two(Waking(a, 0), Locking(a)), [a], [], 0);
    TwoAt(Waking(a, 0), Locking(a), Submitted(0, false));
    var st1 := st0.(idle := false, subs := Two(Submitted(0, false), Locking(a)));
    Reach({a}, st0, Wake(1), st1);
    var states, steps :| RunTo(states, steps, {a}, st1);
    Extend(states, steps, {a}, st1, TargetCall);
    var states', steps' := states + [Apply(st1, TargetCall)], steps + [TargetCall];
    assert !SafeStep(states'[|steps|], steps'[|steps|], states'[|steps| + 1]);
  }

  lemma MoreUses(steps: seq<Step>, works: set<Work>, more: set<Work>)
    requires Uses(steps, works) && works <= more
    ensures Uses(steps, more)
  {}

  /** Submitters that ask for these functions are safe in every interleaving if and only if none of them is null. */
  lemma SafeIffNoNull(works: set<Work>)
    ensures (forall states, steps :: Run(states, steps) && Uses(steps, works) ==> SafeRun(states, steps)) <==>
              forall w :: w in works ==> w.func != NULL
  {
    hide Run, SafeRun;
    if w :| w in works && w.func == NULL {
      NullCalled(w);
      var states, steps :| Run(states, steps) && Uses(steps, {w}) && !SafeRun(states, steps);
      MoreUses(steps, {w}, works);
    } else {
      forall states, steps | Run(states, steps) && Uses(steps, works)
        ensures SafeRun(states, steps)
      {
        HandoffSafe(states, steps);
      }
    }
  }
}
