/**
 The lock-free part of pvclock_clocksource_read (x86/kvmclock.c): any number of calls, interleaved at
 their atomic accesses to last_value.
 */
module ClockMonotonic {
  import opened Arith

  /**
   Where a call is. `since` and `at` are moments of the run: when the call began, and when last_value
   had the value that the call knows or returns.
   */
  datatype Call =
    | Begun(ret: nat, since: nat)                         // before the atomic read
    | Looping(ret: nat, last: nat, since: nat, at: nat)   // at the top of the loop
    | Done(ret: nat, value: nat, since: nat, at: nat, end: nat)

  /** The values of last_value, one for each moment, and the calls so far. */
  datatype State = State(history: seq<nat>, calls: seq<Call>)

  datatype Step = Begin(ret: nat) | Read(c: nat) | Iterate(c: nat)

  function Last(st: State): nat
    requires st.history != []
  {
    st.history[|st.history| - 1]
  }

  function Now(st: State): nat
    requires st.history != []
  {
    |st.history| - 1
  }

  predicate Enabled(st: State, e: Step) {
    match e
    case Begin(_) => true
    case Read(c) => c < |st.calls| && st.calls[c].Begun?
    case Iterate(c) => c < |st.calls| && st.calls[c].Looping?
  }

  /** The effect of a step; the exchange returns what it found, also when it succeeds. */
  function Apply(st: State, e: Step): State
    requires st.history != [] && Enabled(st, e)
  {
    match e
    case Begin(ret) => State(st.history + [Last(st)], st.calls + [Begun(ret, Now(st))])
    case Read(c) =>
      var p := st.calls[c];
      State(st.history + [Last(st)], st.calls[c := Looping(p.ret, Last(st), p.since, Now(st))])
    case Iterate(c) =>
      var p := st.calls[c];
      if p.ret < p.last then State(st.history + [Last(st)], st.calls[c := Done(p.ret, p.last, p.since, p.at, Now(st))])
      else
        var found := Last(st);
        var next := if found == p.last then p.ret else found;
        var p' := if found == p.ret then Done(p.ret, p.ret, p.since, Now(st), Now(st))
                  else Looping(p.ret, found, p.since, Now(st));
        State(st.history + [next], st.calls[c := p'])
  }

  ghost predicate Run(states: seq<State>, steps: seq<Step>) {
    && |states| == |steps| + 1 && states[0] == State([0], [])
    && forall i: nat :: i < |steps| ==>
         states[i].history != [] && Enabled(states[i], steps[i]) && states[i + 1] == Apply(states[i], steps[i])
  }

  // ----- what every step keeps -----

  ghost predicate Ascending(h: seq<nat>) {
    forall i: nat, j: nat :: i <= j < |h| ==> h[i] <= h[j]
  }

  /** What a call knows is a value that last_value had since it began; what it returns is no less than its own. */
  ghost predicate CallOk(st: State, p: Call)
    requires st.history != []
  {
    match p
    case Begun(_, since) => since <= Now(st)
    case Looping(_, last, since, at) => since <= at <= Now(st) && st.history[at] == last
    case Done(ret, value, since, at, end) => since <= at <= end <= Now(st) && st.history[at] == value >= ret
  }

  /** last_value starts at zero and only ever has a value that some call brought. */
  ghost predicate FromCalls(st: State, v: nat) {
    v == 0 || exists c: nat :: c < |st.calls| && st.calls[c].ret == v
  }

  ghost predicate Inv(st: State) {
    && st.history != [] && Ascending(st.history) && (forall c: nat :: c < |st.calls| ==> CallOk(st, st.calls[c]))
    && forall i: nat :: i < |st.history| ==> FromCalls(st, st.history[i])
  }

  lemma SameCalls(st: State, e: Step)
    requires st.history != [] && Enabled(st, e)
    ensures |st.calls| <= |Apply(st, e).calls|
    ensures forall c: nat :: c < |st.calls| ==> Apply(st, e).calls[c].ret == st.calls[c].ret
  {}

  lemma ValuesKept(st: State, e: Step)
    requires Inv(st) && Enabled(st, e)
    ensures var st' := Apply(st, e); forall i: nat :: i < |st'.history| ==> FromCalls(st', st'.history[i])
  {
    var st' := Apply(st, e);
    SameCalls(st, e);
    forall i: nat | i < |st'.history|
      ensures FromCalls(st', st'.history[i])
    {
      if i < |st.history| {
        assert FromCalls(st, st.history[i]) && st'.history[i] == st.history[i];
      } else {
        assert FromCalls(st, Last(st));
        assert e.Iterate? ==> st'.calls[e.c].ret == st.calls[e.c].ret;
      }
    }
  }

  lemma StepKeeps(st: State, e: Step)
    requires Inv(st) && Enabled(st, e)
    ensures Inv(Apply(st, e)) && st.history <= Apply(st, e).history
  {
    ValuesKept(st, e);
    var st' := Apply(st, e);
    var h := st.history;
    assert st'.history == h + [Last(st')] && Last(st') >= Last(st);
    hide FromCalls;
    forall c: nat | c < |st'.calls|
      ensures CallOk(st', st'.calls[c])
    {
      if c < |st.calls| {
        assert CallOk(st, st.calls[c]);
      }
    }
  }

  lemma Start()
    ensures Inv(State([0], []))
  {}

  lemma {:induction false} RunKeeps(states: seq<State>, steps: seq<Step>, i: nat)
    requires Run(states, steps) && i < |states|
    ensures Inv(states[i])
  {
    hide Inv;
    if i == 0 {
      Start();
    } else {
      RunKeeps(states, steps, i - 1);
      StepKeeps(states[i - 1], steps[i - 1]);
    }
  }

  /**
   The clock is monotonic: last_value never decreases, each call returns the larger of its own value and one that
   last_value had during the call, which last_value has reached from then on, and a call that begins after another
   one has ended returns no less. Nothing is returned but what some call brought.
   */
  lemma Monotonic(states: seq<State>, steps: seq<Step>, i: nat, a: nat, b: nat)
    requires Run(states, steps) && i < |states| && a < |states[i].calls| && b < |states[i].calls|
    requires states[i].calls[a].Done? && states[i].calls[b].Done?
    ensures var st := states[i];
            var p, q := st.calls[a], st.calls[b];
            && Ascending(st.history)
            && p.since <= p.at <= p.end < |st.history| && p.value == st.history[p.at] && FromCalls(st, p.value)
            && (p.value == p.ret || st.history[p.at] > p.ret)
            && (forall k: nat :: p.at <= k < |st.history| ==> st.history[k] >= p.value >= p.ret)
            && (p.end <= q.since ==> p.value <= q.value)
  {
    RunKeeps(states, steps, i);
    var st := states[i];
    assert CallOk(st, st.calls[a]) && CallOk(st, st.calls[b]);
  }

  /** The lock-free loop goes on only if last_value has risen since the call last looked. */
  lemma GoesOnlyOn(st: State, c: nat)
    requires Inv(st) && Enabled(st, Iterate(c)) && !Apply(st, Iterate(c)).calls[c].Done?
    ensures st.history[st.calls[c].at] < Last(Apply(st, Iterate(c)))
    ensures Last(Apply(st, Iterate(c))) >= st.calls[c].ret || Last(st) > st.history[st.calls[c].at]
  {
    assert CallOk(st, st.calls[c]);
  }

  // ----- a call alone -----

  /** The steps of one call with nothing in between: it loops twice at most. */
  function AloneRun(st: State, ret: nat): State
    requires st.history != []
  {
    var c := |st.calls|;
    var st1 := Apply(Apply(st, Begin(ret)), Read(c));
    var st2 := Apply(st1, Iterate(c));
    if st2.calls[c].Done? then st2 else Apply(st2, Iterate(c))
  }

  /** A call that nobody interrupts ends with the larger value, and leaves it in last_value. */
  lemma Alone(st: State, ret: nat)
    requires st.history != []
    ensures var st', c := AloneRun(st, ret), |st.calls|;
            && |st'.calls| == c + 1 && st'.calls[c].Done? && st'.calls[..c] == st.calls
            && st'.history != [] && st'.calls[c].value == Last(st') == Max(ret, Last(st))
  {}

  class Clock {
    var lastValue: nat

    method CompareExchange(expected: nat, value: nat) returns (found: nat)
      modifies this
      ensures found == old(lastValue) && lastValue == if old(lastValue) == expected then value else old(lastValue)
    {
      found := lastValue;
      if found == expected {
        lastValue := value;
      }
    }

    /**
     A call that nobody interrupts returns the larger value after at most two exchanges, and leaves it in last_value.
     It takes the steps of AloneRun, from any state `st` of a run.
     */
    method ReadAlone(ret: nat, ghost st: State) returns (r: nat, exchanges: nat, ghost st': State)
      requires st.history != [] && Last(st) == lastValue
      modifies this
      ensures r == lastValue == Max(ret, old(lastValue)) && exchanges <= 2
      ensures st' == AloneRun(st, ret) && st'.history != [] && Last(st') == lastValue
      ensures |st'.calls| == |st.calls| + 1 && st'.calls[|st.calls|].Done? && st'.calls[|st.calls|].value == r
    {
      ghost var c := |st.calls|;
      st' := Apply(Apply(st, Begin(ret)), Read(c));
      var last := lastValue;
      exchanges := 0;
      while true
        invariant exchanges <= 1
        invariant exchanges == 0 ==> last == lastValue == old(lastValue)
        invariant exchanges == 1 ==> last == old(lastValue) < ret == lastValue
        invariant st'.history != [] && Last(st') == lastValue && |st'.calls| == c + 1
        invariant st'.calls[c].Looping? && st'.calls[c].ret == ret && st'.calls[c].last == last
        invariant AloneRun(st, ret) == if exchanges == 1 then Apply(st', Iterate(c))
                                       else var next := Apply(st', Iterate(c));
                                            if next.calls[c].Done? then next else Apply(next, Iterate(c))
        decreases 2 - exchanges
      {
        st' := Apply(st', Iterate(c));
        if ret < last {
          return last, exchanges, st';
        }
        last := CompareExchange(last, ret);
        exchanges := exchanges + 1;
        if last == ret {
          return ret, exchanges, st';
        }
      }
    }
  }
}
