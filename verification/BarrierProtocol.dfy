/** `pthread_barrier_wait` of src/posix/pthread.cpp as a transition system: exactly `count` threads, one step for each
    access to `waiting`, `inside` or `sequence` and for each futex call. The sequence counter is unbounded here. */
module BarrierProtocol {

  type Tid = nat

  /** `seen` is the local `sequence` of the source. */
  datatype Pc =
    | Idle
    | Enter                                  // inside.fetch_add(1)
    | LoadSequence                           // sequence.load()
    | LoadWaiting(seen: nat)                 // waiting.load()
    | Arrive(seen: nat, expected: nat)       // waiting.compare_exchange_weak(expected, expected + 1)
    | Bump                                   // sequence.fetch_add(1)
    | Reset                                  // waiting.store(0)
    | Wake                                   // sys_futex_wake_all(sequence)
    | Leave(serial: bool)                    // inside.fetch_sub(1)
    | WakeInside(serial: bool)               // sys_futex_wake_all(inside)
    | FutexWait(seen: nat)                   // about to call sys_futex_wait(sequence, seen)
    | Parked(seen: nat)
    | Recheck(seen: nat)                     // sequence.load() after the futex wait

  /** A return from a thread's `wait`-th wait; `serial` marks PTHREAD_BARRIER_SERIAL_THREAD. */
  datatype Event = Returned(t: Tid, wait: nat, serial: bool)

  /** `entered` and `arrived` count, for each thread, the waits begun and the successful increments of `waiting`;
      `leaders` lists who advanced the sequence. All three only record history. */
  datatype State = State(
    waiting: nat, inside: int, sequence: nat, pcs: map<Tid, Pc>,
    entered: map<Tid, nat>, arrived: map<Tid, nat>, leaders: seq<Tid>, log: seq<Event>)
  {
    function Count(): nat {
      |pcs|
    }

    predicate Shaped() {
      entered.Keys == pcs.Keys && arrived.Keys == pcs.Keys
    }
  }

  datatype Action = Begin | Run | Spurious

  predicate Enabled(s: State, t: Tid, a: Action) {
    && s.Shaped()
    && t in s.pcs
    && match a
       case Begin => s.pcs[t].Idle?
       case Run => !s.pcs[t].Idle? && !s.pcs[t].Parked?
       case Spurious => s.pcs[t].Parked? || s.pcs[t].FutexWait? || s.pcs[t].Arrive?
  }

  function Goto(s: State, t: Tid, pc: Pc): State {
    s.(pcs := s.pcs[t := pc])
  }

  function Return(s: State, t: Tid, serial: bool): State
    requires t in s.entered
  {
    s.(pcs := s.pcs[t := Idle], log := s.log + [Returned(t, s.entered[t], serial)])
  }

  function WakeAll(pcs: map<Tid, Pc>): map<Tid, Pc> {
    map u | u in pcs :: if pcs[u].Parked? then Recheck(pcs[u].seen) else pcs[u]
  }

  function Step(s: State, t: Tid, a: Action): State
    requires Enabled(s, t, a)
  {
    match a
    case Begin => Goto(s.(entered := s.entered[t := s.entered[t] + 1]), t, Enter)
    case Spurious =>
      if s.pcs[t].Arrive? then Goto(s, t, LoadWaiting(s.pcs[t].seen)) else Goto(s, t, Recheck(s.pcs[t].seen))
    case Run =>
      match s.pcs[t]
      case Enter => Goto(s.(inside := s.inside + 1), t, LoadSequence)
      case LoadSequence => Goto(s, t, LoadWaiting(s.sequence))
      case LoadWaiting(seen) => Goto(s, t, Arrive(seen, s.waiting))
      case Arrive(seen, expected) =>
        if s.waiting != expected then Goto(s, t, LoadWaiting(seen))
        else
          Goto(s.(waiting := expected + 1, arrived := s.arrived[t := s.arrived[t] + 1]), t,
               if expected + 1 == s.Count() then Bump else FutexWait(seen))
      case Bump => Goto(s.(sequence := s.sequence + 1, leaders := s.leaders + [t]), t, Reset)
      case Reset => Goto(s.(waiting := 0), t, Wake)
      case Wake => Goto(s.(pcs := WakeAll(s.pcs)), t, Leave(true))
      case Leave(serial) =>
        if s.inside - 1 == 0 then Goto(s.(inside := s.inside - 1), t, WakeInside(serial))
        else Return(s.(inside := s.inside - 1), t, serial)
      case WakeInside(serial) => Return(s, t, serial)
      case FutexWait(seen) => Goto(s, t, if s.sequence == seen then Parked(seen) else Recheck(seen))
      case Recheck(seen) => Goto(s, t, if s.sequence > seen then Leave(false) else FutexWait(seen))
  }

  predicate Initial(s: State) {
    && s.Shaped() && s.waiting == 0 && s.inside == 0 && s.sequence == 0 && s.leaders == [] && s.log == []
    && forall t | t in s.pcs :: s.pcs[t] == Idle && s.entered[t] == 0 && s.arrived[t] == 0
  }

  datatype Move = Move(t: Tid, a: Action)

  ghost predicate IsRun(states: seq<State>, moves: seq<Move>) {
    && |states| == |moves| + 1
    && Initial(states[0])
    && forall i :: 0 <= i < |moves| ==>
         Enabled(states[i], moves[i].t, moves[i].a) && states[i + 1] == Step(states[i], moves[i].t, moves[i].a)
  }

  // ---------------------------------------------------------------------------------------------------
  // Invariant

  /** Threads that have arrived in the current generation. */
  function Arrivals(s: State): set<Tid>
    requires s.Shaped()
  {
    set t | t in s.pcs && s.arrived[t] == s.sequence + 1
  }

  predicate BeforeArrival(pc: Pc) {
    pc.Enter? || pc.LoadSequence? || pc.LoadWaiting? || pc.Arrive?
  }

  /** Advancing the sequence, or about to reset the waiting count. */
  predicate Leading(pc: Pc) {
    pc.Bump? || pc.Reset?
  }

  predicate PcOk(s: State, t: Tid)
    requires s.Shaped() && t in s.pcs
  {
    var g, n := s.sequence, s.arrived[t];
    && s.entered[t] == (if BeforeArrival(s.pcs[t]) then n + 1 else n)
    && match s.pcs[t]
       case LoadWaiting(seen) => n == g && seen == g
       case Arrive(seen, _) => n == g && seen == g
       case Bump => n == g + 1
       case Reset => n == g >= 1
       case Wake => n == g >= 1
       case Leave(_) => n == g >= 1
       case WakeInside(_) => n == g >= 1
       case FutexWait(seen) => seen + 1 == n && g <= n <= g + 1
       case Parked(seen) => seen + 1 == n && g <= n <= g + 1
       case Recheck(seen) => seen + 1 == n && g <= n <= g + 1
       case _ => n == g
  }

  /** On the way out as the thread that advanced the sequence. */
  predicate LeavesFirst(pc: Pc) {
    pc.Reset? || pc.Wake? || pc == Leave(true) || pc == WakeInside(true)
  }

  /** Waiting for another thread to advance the sequence, or on the way out after that. */
  predicate Follows(pc: Pc) {
    pc.FutexWait? || pc.Parked? || pc.Recheck? || pc == Leave(false) || pc == WakeInside(false)
  }

  /** Who led each generation, in the threads still on their way out and in the returns. */
  predicate LeaderOk(s: State, t: Tid)
    requires s.Shaped() && t in s.pcs
  {
    && (LeavesFirst(s.pcs[t]) ==> 0 < s.arrived[t] <= |s.leaders| && s.leaders[s.arrived[t] - 1] == t)
    && (Follows(s.pcs[t]) && 0 < s.arrived[t] <= |s.leaders| ==> s.leaders[s.arrived[t] - 1] != t)
  }

  predicate EventOk(s: State, e: Event) {
    && 1 <= e.wait <= s.sequence && e.wait <= |s.leaders|
    && (e.serial <==> s.leaders[e.wait - 1] == e.t)
  }

  ghost predicate SomeLeading(s: State) {
    exists t | t in s.pcs :: Leading(s.pcs[t])
  }

  /** `waiting` never counts more arrivals than there were, except while its reset is pending. */
  ghost predicate CountOk(s: State)
    requires s.Shaped()
  {
    && (forall t | t in s.pcs && s.pcs[t].Bump? ::
          s.waiting == s.Count() && forall u | u in s.pcs :: s.arrived[u] == s.sequence + 1)
    && (forall t | t in s.pcs && s.pcs[t].Reset? :: s.waiting >= s.Count())
    && (!SomeLeading(s) ==> s.waiting <= |Arrivals(s)| && (s.waiting < s.Count() || s.Count() == 0))
    && (forall t, u | t in s.pcs && u in s.pcs :: Leading(s.pcs[t]) && Leading(s.pcs[u]) ==> t == u)
  }

  /** A sleeper whose generation is over is about to be woken. */
  ghost predicate WakeupOk(s: State) {
    forall t | t in s.pcs && s.pcs[t].Parked? && s.pcs[t].seen < s.sequence ::
      exists u | u in s.pcs :: s.pcs[u].Reset? || s.pcs[u].Wake?
  }

  ghost predicate Inv(s: State) {
    && s.Shaped()
    && |s.leaders| == s.sequence
    && (forall t | t in s.pcs :: PcOk(s, t))
    && (forall t | t in s.pcs :: LeaderOk(s, t))
    && (forall i | 0 <= i < |s.log| :: EventOk(s, s.log[i]))
    && CountOk(s)
    && WakeupOk(s)
  }

  /** What a step of t may do to the rest of the state: every other thread stays where it was or is woken, its
      history is left alone, and the sequence only advances from Bump. */
  ghost predicate Framed(s: State, t: Tid, s': State) {
    && s.Shaped() && s'.Shaped() && t in s.pcs && s'.pcs.Keys == s.pcs.Keys
    && (forall u | u in s.pcs && u != t ::
          && s'.arrived[u] == s.arrived[u] && s'.entered[u] == s.entered[u]
          && (s'.pcs[u] == s.pcs[u] || (s.pcs[u].Parked? && s'.pcs[u] == Recheck(s.pcs[u].seen))))
    && if s.pcs[t].Bump? then s'.sequence == s.sequence + 1 && s'.leaders == s.leaders + [t]
       else s'.sequence == s.sequence && s'.leaders == s.leaders
  }

  lemma StepFramed(s: State, t: Tid, a: Action)
    requires Enabled(s, t, a)
    ensures Framed(s, t, Step(s, t, a))
  {
    hide State.Count;
    if a.Run? {
      if s.pcs[t].Bump? || s.pcs[t].Wake? {
        LeaderFramed(s, t);
      } else if BeforeArrival(s.pcs[t]) {
        ArrivingFramed(s, t);
      } else {
        LeavingFramed(s, t);
      }
    }
  }

  lemma LeaderFramed(s: State, t: Tid)
    requires Enabled(s, t, Run) && (s.pcs[t].Bump? || s.pcs[t].Wake?)
    ensures Framed(s, t, Step(s, t, Run))
  {
    hide State.Count;
  }

  lemma ArrivingFramed(s: State, t: Tid)
    requires Enabled(s, t, Run) && BeforeArrival(s.pcs[t])
    ensures Framed(s, t, Step(s, t, Run))
  {
    hide State.Count;
  }

  lemma LeavingFramed(s: State, t: Tid)
    requires Enabled(s, t, Run) && !BeforeArrival(s.pcs[t]) && !s.pcs[t].Bump? && !s.pcs[t].Wake?
    ensures Framed(s, t, Step(s, t, Run))
  {
    hide State.Count, WakeAll;
    if s.pcs[t].Leave? || s.pcs[t].WakeInside? {
      ReturningFramed(s, t);
    }
  }

  lemma ReturningFramed(s: State, t: Tid)
    requires Enabled(s, t, Run) && (s.pcs[t].Leave? || s.pcs[t].WakeInside?)
    ensures Framed(s, t, Step(s, t, Run))
  {
    hide State.Count, WakeAll;
  }

  lemma ArrivingPcOk(s: State, t: Tid, a: Action)
    requires Enabled(s, t, a) && PcOk(s, t) && (s.pcs[t].Idle? || BeforeArrival(s.pcs[t]))
    ensures var s' := Step(s, t, a); s'.Shaped() && t in s'.pcs && PcOk(s', t)
  {}

  lemma SelfPcOk(s: State, t: Tid, a: Action)
    requires Enabled(s, t, a) && PcOk(s, t)
    ensures var s' := Step(s, t, a); s'.Shaped() && t in s'.pcs && PcOk(s', t)
  {
    hide State.Count;
    if s.pcs[t].Idle? || BeforeArrival(s.pcs[t]) {
      hide Step, PcOk;
      ArrivingPcOk(s, t, a);
    } else {
      LeavingPcOk(s, t, a);
    }
  }

  lemma LeavingPcOk(s: State, t: Tid, a: Action)
    requires Enabled(s, t, a) && PcOk(s, t) && !s.pcs[t].Idle? && !BeforeArrival(s.pcs[t])
    ensures var s' := Step(s, t, a); s'.Shaped() && t in s'.pcs && PcOk(s', t)
  {
    hide State.Count, WakeAll;
    if a.Run? && s.pcs[t].Wake? {
      WakingPcOk(s, t);
    }
  }

  lemma WakingPcOk(s: State, t: Tid)
    requires Enabled(s, t, Run) && PcOk(s, t) && s.pcs[t].Wake?
    ensures var s' := Step(s, t, Run); s'.Shaped() && t in s'.pcs && PcOk(s', t)
  {
    hide State.Count;
  }

  lemma SelfLeaderOk(s: State, t: Tid, a: Action)
    requires Enabled(s, t, a) && PcOk(s, t) && LeaderOk(s, t) && |s.leaders| == s.sequence
    ensures var s' := Step(s, t, a); s'.Shaped() && t in s'.pcs && LeaderOk(s', t)
  {
    hide State.Count;
    if s.pcs[t].Idle? || BeforeArrival(s.pcs[t]) {
      hide Step, LeaderOk;
      ArrivingLeaderOk(s, t, a);
    } else {
      hide Step, LeaderOk;
      LeavingLeaderOk(s, t, a);
    }
  }

  lemma LeavingLeaderOk(s: State, t: Tid, a: Action)
    requires Enabled(s, t, a) && PcOk(s, t) && LeaderOk(s, t) && |s.leaders| == s.sequence
    requires !s.pcs[t].Idle? && !BeforeArrival(s.pcs[t])
    ensures var s' := Step(s, t, a); s'.Shaped() && t in s'.pcs && LeaderOk(s', t)
  {
    hide State.Count, WakeAll;
    if a.Run? && s.pcs[t].Wake? {
      WakingLeaderOk(s, t);
    }
  }

  lemma WakingLeaderOk(s: State, t: Tid)
    requires Enabled(s, t, Run) && LeaderOk(s, t) && s.pcs[t].Wake?
    ensures var s' := Step(s, t, Run); s'.Shaped() && t in s'.pcs && LeaderOk(s', t)
  {
    hide State.Count;
  }

  lemma ArrivingLeaderOk(s: State, t: Tid, a: Action)
    requires Enabled(s, t, a) && (s.pcs[t].Idle? || BeforeArrival(s.pcs[t]))
    requires PcOk(s, t) && |s.leaders| == s.sequence
    ensures var s' := Step(s, t, a); s'.Shaped() && t in s'.pcs && LeaderOk(s', t)
  {
    hide State.Count, WakeAll, Return;
  }

  lemma OtherOk(s: State, t: Tid, s': State, u: Tid)
    requires Framed(s, t, s') && CountOk(s) && u in s.pcs && PcOk(s, u) && LeaderOk(s, u)
    requires u != t
    ensures PcOk(s', u) && LeaderOk(s', u)
  {
    hide CountOk;
    if s.pcs[t].Bump? {
      AllArrived(s, t, u);
      OtherOkAfterBump(s, t, s', u);
    } else {
      OtherOkUnmoved(s, t, s', u);
    }
  }

  lemma OtherOkAfterBump(s: State, t: Tid, s': State, u: Tid)
    requires Framed(s, t, s') && s.pcs[t].Bump? && u in s.pcs && PcOk(s, u) && LeaderOk(s, u)
    requires u != t && s.arrived[u] == s.sequence + 1 && !s.pcs[u].Bump?
    ensures PcOk(s', u) && LeaderOk(s', u)
  {}

  lemma OtherOkUnmoved(s: State, t: Tid, s': State, u: Tid)
    requires Framed(s, t, s') && !s.pcs[t].Bump? && u in s.pcs && PcOk(s, u) && LeaderOk(s, u) && u != t
    ensures PcOk(s', u) && LeaderOk(s', u)
  {}

  lemma AllArrived(s: State, t: Tid, u: Tid)
    requires s.Shaped() && CountOk(s) && t in s.pcs && s.pcs[t].Bump? && u in s.pcs
    ensures s.arrived[u] == s.sequence + 1 && (u != t ==> !s.pcs[u].Bump?)
  {
    hide Arrivals, SomeLeading, State.Count;
  }

  lemma StepEvent(s: State, t: Tid, a: Action)
    requires Enabled(s, t, a) && PcOk(s, t) && LeaderOk(s, t) && |s.leaders| == s.sequence
    ensures Step(s, t, a).log == s.log || (|Step(s, t, a).log| == |s.log| + 1 && Step(s, t, a).log[..|s.log|] == s.log)
    ensures |Step(s, t, a).log| > |s.log| ==> EventOk(s, Step(s, t, a).log[|s.log|])
  {}

  lemma EventsKept(s: State, t: Tid, s': State)
    requires (forall i | 0 <= i < |s.log| :: EventOk(s, s.log[i])) && Framed(s, t, s')
    requires |s.log| <= |s'.log| <= |s.log| + 1 && s'.log[..|s.log|] == s.log
    requires |s'.log| > |s.log| ==> EventOk(s, s'.log[|s.log|])
    ensures forall i | 0 <= i < |s'.log| :: EventOk(s', s'.log[i])
  {
    forall i | 0 <= i < |s'.log| ensures EventOk(s', s'.log[i]) {
      if i < |s.log| {
        assert s'.log[i] == s'.log[..|s.log|][i] && EventOk(s, s.log[i]);
      }
    }
  }

  // The waiting count ------------------------------------------------------------------------------------

  /** What a step of t does to the waiting count. */
  ghost predicate Counted(s: State, t: Tid, s': State)
    requires Framed(s, t, s')
  {
    if s'.arrived[t] == s.arrived[t] + 1 then
      && s'.waiting == s.waiting + 1 && s.arrived[t] == s.sequence && s'.sequence == s.sequence
      && BeforeArrival(s.pcs[t])
      && (if s.waiting + 1 == s.Count() then s'.pcs[t].Bump? else !Leading(s'.pcs[t]))
    else
      && s'.arrived[t] == s.arrived[t]
      && !s'.pcs[t].Bump?
      && (s'.pcs[t].Reset? <==> s.pcs[t].Bump?)
      && if s.pcs[t].Reset? then s'.waiting == 0 else s'.waiting == s.waiting
  }

  lemma StepCounted(s: State, t: Tid, a: Action)
    requires Enabled(s, t, a) && PcOk(s, t)
    ensures Framed(s, t, Step(s, t, a)) && Counted(s, t, Step(s, t, a))
  {
    StepFramed(s, t, a);
  }

  lemma SameKeysSameCount(s: State, s': State)
    requires s.pcs.Keys == s'.pcs.Keys
    ensures s.Count() == s'.Count()
  {
    assert |s.pcs.Keys| == |s.pcs| && |s'.pcs.Keys| == |s'.pcs|;
  }

  lemma EveryoneArrived(s: State)
    requires s.Shaped() && |Arrivals(s)| >= s.Count()
    ensures forall u | u in s.pcs :: s.arrived[u] == s.sequence + 1
  {
    assert Arrivals(s) <= s.pcs.Keys;
    if Arrivals(s) != s.pcs.Keys {
      SubsetSmaller(Arrivals(s), s.pcs.Keys);
    }
    assert forall u | u in s.pcs :: u in Arrivals(s);
  }

  lemma SubsetSmaller<T>(a: set<T>, b: set<T>)
    requires a < b
    ensures |a| < |b|
  {
    assert b == a + (b - a);
    var x :| x in b - a;
    assert |b - a| > 0;
  }

  lemma ArrivalCounted(s: State, t: Tid, s': State)
    requires Framed(s, t, s') && Counted(s, t, s') && s'.arrived[t] == s.arrived[t] + 1
    ensures Arrivals(s') == Arrivals(s) + {t} && |Arrivals(s')| == |Arrivals(s)| + 1
  {
    hide State.Count, BeforeArrival, Leading, Arrivals;
    ArrivalsGrow(s, t, s');
  }

  lemma ArrivalsGrow(s: State, t: Tid, s': State)
    requires s.Shaped() && s'.Shaped() && t in s.pcs && s'.pcs.Keys == s.pcs.Keys && s'.sequence == s.sequence
    requires s.arrived[t] == s.sequence && s'.arrived[t] == s.sequence + 1
    requires forall u | u in s.pcs && u != t :: s'.arrived[u] == s.arrived[u]
    ensures Arrivals(s') == Arrivals(s) + {t} && |Arrivals(s')| == |Arrivals(s)| + 1
  {
    assert t !in Arrivals(s);
    assert Arrivals(s') == Arrivals(s) + {t};
  }

  /** Which threads lead is only changed by t's own step. */
  lemma LeadingFrame(s: State, t: Tid, s': State)
    requires Framed(s, t, s') && CountOk(s)
    ensures forall u | u in s.pcs && u != t :: s'.pcs[u].Bump? == s.pcs[u].Bump? && s'.pcs[u].Reset? == s.pcs[u].Reset?
    ensures Leading(s.pcs[t]) ==> forall u | u in s.pcs && u != t :: !Leading(s'.pcs[u])
    ensures !Leading(s.pcs[t]) && !Leading(s'.pcs[t]) ==> (SomeLeading(s) <==> SomeLeading(s'))
  {
    hide Arrivals, State.Count;
    assert forall u | u in s.pcs && u != t :: Leading(s'.pcs[u]) == Leading(s.pcs[u]);
    if !Leading(s.pcs[t]) && !Leading(s'.pcs[t]) {
      if SomeLeading(s) {
        var w :| w in s.pcs && Leading(s.pcs[w]);
        assert Leading(s'.pcs[w]);
      }
    }
  }

  lemma CountKeptByArrival(s: State, t: Tid, s': State)
    requires Framed(s, t, s') && CountOk(s) && Counted(s, t, s') && s'.arrived[t] == s.arrived[t] + 1
    ensures CountOk(s')
  {
    hide Arrivals;
    SameKeysSameCount(s, s');
    if SomeLeading(s) {
      ArrivalWhileLeading(s, t, s');
    } else {
      ArrivalWhileOpen(s, t, s');
    }
  }

  /** An arrival while the reset is pending adds to a count that is about to be dropped. */
  lemma ArrivalWhileLeading(s: State, t: Tid, s': State)
    requires Framed(s, t, s') && CountOk(s) && Counted(s, t, s') && s'.arrived[t] == s.arrived[t] + 1
    requires SomeLeading(s) && s'.Count() == s.Count()
    ensures CountOk(s')
  {
    hide Arrivals, State.Count, State.Shaped, BeforeArrival;
    var w :| w in s.pcs && Leading(s.pcs[w]);
    NoBumpBeforeLast(s, t);
    ArrivalBesideReset(s, t, s', w);
    assert s'.pcs[w].Reset?;
    assert forall u | u in s'.pcs && u != t :: Leading(s'.pcs[u]) == Leading(s.pcs[u]);
    assert !Leading(s'.pcs[t]);
  }

  lemma ArrivalWhileOpen(s: State, t: Tid, s': State)
    requires Framed(s, t, s') && CountOk(s) && Counted(s, t, s') && s'.arrived[t] == s.arrived[t] + 1
    requires !SomeLeading(s) && s'.Count() == s.Count()
    ensures CountOk(s')
  {
    hide State.Count;
    ArrivalCounted(s, t, s');
    LeadingFrame(s, t, s');
    if s'.pcs[t].Bump? {
      EveryoneArrived(s');
    }
  }

  lemma CountKeptOtherwise(s: State, t: Tid, s': State)
    requires Framed(s, t, s') && CountOk(s) && Counted(s, t, s') && s'.arrived[t] == s.arrived[t]
    ensures CountOk(s')
  {
    hide State.Count, State.Shaped;
    SameKeysSameCount(s, s');
    LeadingFrame(s, t, s');
    if !Leading(s.pcs[t]) {
      assert Arrivals(s') == Arrivals(s);
    } else {
      NonEmptyCount(s, t);
    }
  }

  lemma NonEmptyCount(s: State, t: Tid)
    requires t in s.pcs
    ensures s.Count() > 0
  {}

  /** Wake-ups ------------------------------------------------------------------------------------------ */

  ghost predicate Woken(s: State, t: Tid, s': State)
    requires Framed(s, t, s')
  {
    && (s'.pcs[t].Parked? ==> s'.pcs[t].seen == s'.sequence)
    && (s.pcs[t].Bump? ==> s'.pcs[t].Reset?)
    && (s.pcs[t].Reset? ==> s'.pcs[t].Wake?)
    && (s.pcs[t].Wake? ==> forall u | u in s'.pcs :: !s'.pcs[u].Parked?)
  }

  lemma StepWoken(s: State, t: Tid, a: Action)
    requires Enabled(s, t, a)
    ensures Framed(s, t, Step(s, t, a)) && Woken(s, t, Step(s, t, a))
  {
    StepFramed(s, t, a);
    hide Framed, State.Count;
    if a.Run? && s.pcs[t].Wake? {
      NobodyParked(s, t);
    }
  }

  lemma NobodyParked(s: State, t: Tid)
    requires Enabled(s, t, Run) && s.pcs[t].Wake?
    ensures var pcs := Step(s, t, Run).pcs; t in pcs && pcs[t] == Leave(true) && forall u | u in pcs :: !pcs[u].Parked?
  {
    hide State.Count;
  }

  lemma WakeupsKept(s: State, t: Tid, s': State)
    requires Framed(s, t, s') && WakeupOk(s) && Woken(s, t, s')
    ensures WakeupOk(s')
  {
    forall p | p in s'.pcs && s'.pcs[p].Parked? && s'.pcs[p].seen < s'.sequence
      ensures exists u | u in s'.pcs :: s'.pcs[u].Reset? || s'.pcs[u].Wake?
    {
      assert p != t && s.pcs[p] == s'.pcs[p];
      if s.pcs[t].Bump? {
        assert s'.pcs[t].Reset?;
      } else {
        var u :| u in s.pcs && (s.pcs[u].Reset? || s.pcs[u].Wake?);
        assert s'.pcs[u].Reset? || s'.pcs[u].Wake?;
      }
    }
  }

  /** Every step of every thread keeps the invariant. */
  lemma StepInv(s: State, t: Tid, a: Action, s': State)
    requires Inv(s) && Enabled(s, t, a) && s' == Step(s, t, a)
    ensures Inv(s')
  {
    hide Step, PcOk, LeaderOk, CountOk, WakeupOk, Counted;
    assert PcOk(s, t) && LeaderOk(s, t);
    StepCounted(s, t, a);
    StepWoken(s, t, a);
    StepEvent(s, t, a);
    SelfPcOk(s, t, a);
    SelfLeaderOk(s, t, a);
    InvKept(s, t, s');
  }

  lemma InvKept(s: State, t: Tid, s': State)
    requires Inv(s) && Framed(s, t, s') && Counted(s, t, s') && Woken(s, t, s')
    requires |s.log| <= |s'.log| <= |s.log| + 1 && s'.log[..|s.log|] == s.log
    requires |s'.log| > |s.log| ==> EventOk(s, s'.log[|s.log|])
    requires PcOk(s', t) && LeaderOk(s', t)
    ensures Inv(s')
  {
    EventsKept(s, t, s');
    WakeupsKept(s, t, s');
    if s'.arrived[t] == s.arrived[t] { CountKeptOtherwise(s, t, s'); } else { CountKeptByArrival(s, t, s'); }
    forall u | u in s'.pcs ensures PcOk(s', u) && LeaderOk(s', u) {
      if u != t { OtherOk(s, t, s', u); }
    }
  }

  lemma {:induction false} RunInv(states: seq<State>, moves: seq<Move>, n: nat)
    requires IsRun(states, moves) && n < |states|
    ensures Inv(states[n])
  {
    if n > 0 {
      RunInv(states, moves, n - 1);
      StepInv(states[n - 1], moves[n - 1].t, moves[n - 1].a, states[n]);
    } else {
      assert Arrivals(states[0]) == {};
    }
  }

  // ---------------------------------------------------------------------------------------------------
  // What holds in every run

  /** No thread returns from its k-th wait before every thread has entered its k-th wait. */
  lemma BarrierSafety(states: seq<State>, moves: seq<Move>, n: nat, i: nat, u: Tid)
    requires IsRun(states, moves) && n < |states| && i < |states[n].log| && u in states[n].pcs
    ensures u in states[n].entered && states[n].entered[u] >= states[n].log[i].wait
  {
    RunInv(states, moves, n);
    assert EventOk(states[n], states[n].log[i]) && PcOk(states[n], u);
  }

  /** At most one thread gets the serial return value for each wait. */
  lemma OneSerialThread(states: seq<State>, moves: seq<Move>, n: nat, i: nat, j: nat)
    requires IsRun(states, moves) && n < |states| && i < |states[n].log| && j < |states[n].log|
    requires states[n].log[i].serial && states[n].log[j].serial && states[n].log[i].wait == states[n].log[j].wait
    ensures states[n].log[i].t == states[n].log[j].t
  {
    RunInv(states, moves, n);
    assert EventOk(states[n], states[n].log[i]) && EventOk(states[n], states[n].log[j]);
  }

  /** A sleeper whose generation is over has a thread on its way to wake it. */
  lemma ReleasedSleeperHasWaker(states: seq<State>, moves: seq<Move>, n: nat, t: Tid) returns (u: Tid)
    requires IsRun(states, moves) && n < |states| && t in states[n].pcs
    requires states[n].pcs[t].Parked? && states[n].pcs[t].seen < states[n].sequence
    ensures u in states[n].pcs && (states[n].pcs[u].Reset? || states[n].pcs[u].Wake?)
  {
    RunInv(states, moves, n);
    u :| u in states[n].pcs && (states[n].pcs[u].Reset? || states[n].pcs[u].Wake?);
  }

  // ---------------------------------------------------------------------------------------------------
  // Progress: the window between advancing the sequence and resetting the count

  ghost predicate ResetPending(s: State) {
    exists t | t in s.pcs :: s.pcs[t].Reset?
  }

  /** Some arrival of the current generation is not, or will not stay, in the waiting count. */
  ghost predicate LostArrival(s: State)
    requires s.Shaped()
  {
    && (forall t | t in s.pcs :: !s.pcs[t].Bump?)
    && if ResetPending(s) then |Arrivals(s)| > 0 else s.waiting < |Arrivals(s)|
  }

  /** Everyone waits for the current generation to end. */
  predicate Stuck(s: State) {
    && s.pcs != map[]
    && forall t | t in s.pcs ::
         (s.pcs[t].FutexWait? || s.pcs[t].Parked? || s.pcs[t].Recheck?) && s.pcs[t].seen == s.sequence
  }

  lemma ArrivalsBound(s: State, t: Tid)
    requires s.Shaped() && t in s.pcs && t !in Arrivals(s)
    ensures |Arrivals(s)| < s.Count()
  {
    SubsetSmaller(Arrivals(s), s.pcs.Keys);
  }

  lemma ResetPendingFrame(s: State, t: Tid, s': State)
    requires Framed(s, t, s') && Counted(s, t, s') && !s.pcs[t].Bump?
    ensures ResetPending(s') ==> ResetPending(s)
    ensures ResetPending(s) && !s.pcs[t].Reset? ==> ResetPending(s')
  {
    if ResetPending(s') {
      var w :| w in s'.pcs && s'.pcs[w].Reset?;
      assert w != t && s.pcs[w].Reset?;
    }
    if ResetPending(s) && !s.pcs[t].Reset? {
      var w :| w in s.pcs && s.pcs[w].Reset?;
      assert s'.pcs[w].Reset?;
    }
  }

  lemma LostKeptByArrival(s: State, t: Tid, s': State)
    requires Framed(s, t, s') && Counted(s, t, s') && CountOk(s) && LostArrival(s)
    requires s'.arrived[t] == s.arrived[t] + 1
    ensures LostArrival(s')
  {
    hide Step, State.Count, Arrivals;
    ResetPendingFrame(s, t, s');
    ArrivalCounted(s, t, s');
    ArrivalsBound(s, t);
    if ResetPending(s) {
      var w :| w in s.pcs && s.pcs[w].Reset?;
      assert s.waiting >= s.Count();
    }
  }

  lemma LostKept(s: State, t: Tid, s': State)
    requires Framed(s, t, s') && Counted(s, t, s') && CountOk(s) && LostArrival(s)
    ensures s'.sequence == s.sequence && LostArrival(s')
  {
    if s'.arrived[t] == s.arrived[t] + 1 {
      hide CountOk, LostArrival;
      LostKeptByArrival(s, t, s');
    } else {
      LostKeptOtherwise(s, t, s');
    }
  }

  lemma LostKeptOtherwise(s: State, t: Tid, s': State)
    requires Framed(s, t, s') && Counted(s, t, s') && LostArrival(s) && s'.arrived[t] == s.arrived[t]
    ensures LostArrival(s')
  {
    hide State.Count, Arrivals, BeforeArrival;
    ResetPendingFrame(s, t, s');
    ArrivalsFrame(s, t, s');
    assert forall u | u in s'.pcs && u != t :: s'.pcs[u].Bump? == s.pcs[u].Bump?;
  }

  lemma ArrivalsFrame(s: State, t: Tid, s': State)
    requires Framed(s, t, s') && s'.arrived[t] == s.arrived[t] && !s.pcs[t].Bump?
    ensures Arrivals(s') == Arrivals(s)
  {}

  /** Once an arrival is lost the sequence never advances again: that generation is never released. */
  lemma LostArrivalIsPermanent(s: State, t: Tid, a: Action)
    requires Inv(s) && Enabled(s, t, a) && LostArrival(s)
    ensures Step(s, t, a).Shaped() && LostArrival(Step(s, t, a)) && Step(s, t, a).sequence == s.sequence
  {
    assert PcOk(s, t);
    StepCounted(s, t, a);
    LostKept(s, t, Step(s, t, a));
  }

  /** From then on, in every run: the sequence stands still and nobody returns from the wait after it. */
  lemma {:induction false} LostForever(states: seq<State>, moves: seq<Move>, n: nat, m: nat)
    requires IsRun(states, moves) && n <= m < |states| && states[n].Shaped() && LostArrival(states[n])
    ensures states[m].Shaped() && LostArrival(states[m]) && states[m].sequence == states[n].sequence
    ensures forall i | 0 <= i < |states[m].log| :: states[m].log[i].wait <= states[n].sequence
    decreases m
  {
    hide Step, Enabled, LostArrival, State.Count, SomeLeading;
    RunInv(states, moves, m);
    if n < m {
      LostForever(states, moves, n, m - 1);
      RunInv(states, moves, m - 1);
      LostArrivalIsPermanent(states[m - 1], moves[m - 1].t, moves[m - 1].a);
    }
    assert forall i | 0 <= i < |states[m].log| :: EventOk(states[m], states[m].log[i]);
  }

  /** A step loses an arrival exactly when it arrives while the reset is still pending. */
  lemma LostExactlyByEarlyArrival(s: State, t: Tid, a: Action)
    requires Inv(s) && Enabled(s, t, a) && !LostArrival(s)
    ensures Step(s, t, a).Shaped()
    ensures LostArrival(Step(s, t, a)) <==> ResetPending(s) && Step(s, t, a).arrived[t] == s.arrived[t] + 1
  {
    hide Step, LostArrival, LeaderOk, WakeupOk, EventOk;
    assert PcOk(s, t);
    StepCounted(s, t, a);
    var s' := Step(s, t, a);
    if LostArrival(s') {
      NotLostKept(s, t, s');
    } else if ResetPending(s) && s'.arrived[t] == s.arrived[t] + 1 {
      EarlyArrivalLost(s, t, s');
    }
  }

  /** Over a run: an arrival has been lost exactly when some thread arrived while a reset was pending. */
  lemma {:induction false} LostIffEarlyArrival(states: seq<State>, moves: seq<Move>, n: nat)
    requires IsRun(states, moves) && n < |states|
    ensures states[n].Shaped() && (LostArrival(states[n]) <==> exists i :: 0 <= i < n && EarlyArrival(states, moves, i))
    decreases n
  {
    hide Step, Enabled, LostArrival, EarlyArrival;
    RunInv(states, moves, n);
    if n == 0 {
      NothingLostYet(states[0]);
    } else {
      LostIffEarlyArrival(states, moves, n - 1);
      EarlyArrivalStep(states, moves, n - 1);
      if LostArrival(states[n - 1]) {
        RunInv(states, moves, n - 1);
        LostArrivalIsPermanent(states[n - 1], moves[n - 1].t, moves[n - 1].a);
      }
    }
  }

  /** Move i is an arrival between the sequence increment and the reset. */
  ghost predicate EarlyArrival(states: seq<State>, moves: seq<Move>, i: nat)
    requires IsRun(states, moves) && i < |moves|
  {
    ResetPending(states[i]) && states[i + 1].arrived[moves[i].t] == states[i].arrived[moves[i].t] + 1
  }

  lemma EarlyArrivalStep(states: seq<State>, moves: seq<Move>, i: nat)
    requires IsRun(states, moves) && i < |moves|
    ensures states[i].Shaped() && states[i + 1].Shaped()
    ensures !LostArrival(states[i]) ==> (LostArrival(states[i + 1]) <==> EarlyArrival(states, moves, i))
  {
    hide Step, LostArrival;
    RunInv(states, moves, i);
    RunInv(states, moves, i + 1);
    if !LostArrival(states[i]) {
      LostExactlyByEarlyArrival(states[i], moves[i].t, moves[i].a);
    }
  }

  lemma NothingLostYet(s: State)
    requires Initial(s)
    ensures !LostArrival(s)
  {
    assert Arrivals(s) == {};
  }

  lemma EarlyArrivalLost(s: State, t: Tid, s': State)
    requires Framed(s, t, s') && Counted(s, t, s') && CountOk(s)
    requires ResetPending(s) && s'.arrived[t] == s.arrived[t] + 1
    ensures LostArrival(s')
  {
    hide State.Count;
    ArrivalCounted(s, t, s');
    NoBumpBeforeLast(s, t);
    var w :| w in s.pcs && s.pcs[w].Reset?;
    ArrivalBesideReset(s, t, s', w);
    assert s'.pcs[w].Reset?;
  }

  /** Nobody takes the lead while a reset is pending. */
  lemma ArrivalBesideReset(s: State, t: Tid, s': State, w: Tid)
    requires Framed(s, t, s') && Counted(s, t, s') && CountOk(s)
    requires w in s.pcs && s.pcs[w].Reset? && s'.arrived[t] == s.arrived[t] + 1
    ensures w != t && !Leading(s'.pcs[t]) && forall u | u in s'.pcs :: !s'.pcs[u].Bump?
  {
    hide Arrivals;
    NoBumpBeforeLast(s, t);
    assert s.waiting >= s.Count();
    assert !s'.pcs[t].Bump?;
  }

  lemma BumpLosesNothing(s: State, t: Tid, s': State)
    requires Framed(s, t, s') && Counted(s, t, s') && CountOk(s) && s.pcs[t].Bump?
    ensures !LostArrival(s')
  {
    forall u | u in s.pcs ensures s'.arrived[u] == s'.sequence {
      AllArrived(s, t, u);
    }
    hide CountOk;
    assert Arrivals(s') == {};
    assert s'.pcs[t].Reset?;
  }

  lemma NoBumpBeforeLast(s: State, t: Tid)
    requires s.Shaped() && CountOk(s) && t in s.pcs && s.arrived[t] == s.sequence
    ensures forall w | w in s.pcs :: !s.pcs[w].Bump?
  {}

  lemma NotLostKept(s: State, t: Tid, s': State)
    requires Framed(s, t, s') && Counted(s, t, s') && CountOk(s)
    requires LostArrival(s') && !LostArrival(s)
    ensures ResetPending(s) && s'.arrived[t] == s.arrived[t] + 1
  {
    hide Step, BeforeArrival, State.Count;
    if s.pcs[t].Bump? {
      BumpLosesNothing(s, t, s');
    } else {
      ResetPendingFrame(s, t, s');
      if s'.arrived[t] == s.arrived[t] + 1 {
        ArrivalCounted(s, t, s');
        NoBumpBeforeLast(s, t);
      } else {
        assert Arrivals(s') == Arrivals(s);
        BumpFrame(s, t, s');
      }
    }
  }

  lemma BumpFrame(s: State, t: Tid, s': State)
    requires Framed(s, t, s') && Counted(s, t, s') && !s.pcs[t].Bump? && s'.arrived[t] == s.arrived[t]
    requires forall u | u in s'.pcs :: !s'.pcs[u].Bump?
    ensures forall u | u in s.pcs :: !s.pcs[u].Bump?
  {
    forall u | u in s.pcs ensures !s.pcs[u].Bump? {
      assert u != t ==> s'.pcs[u].Bump? == s.pcs[u].Bump?;
    }
  }

  /** If at any point of a run everyone waits and nobody can advance the sequence, an arrival has been lost. */
  lemma StuckMeansLost(states: seq<State>, moves: seq<Move>, n: nat)
    requires IsRun(states, moves) && n < |states| && Stuck(states[n])
    ensures states[n].Shaped() && LostArrival(states[n])
  {
    hide IsRun, Stuck, LostArrival, CountOk, WakeupOk;
    RunInv(states, moves, n);
    StuckArrivals(states[n]);
    StuckLost(states[n]);
  }

  lemma WaiterArrived(s: State, t: Tid)
    requires s.Shaped() && t in s.pcs && PcOk(s, t)
    requires (s.pcs[t].FutexWait? || s.pcs[t].Parked? || s.pcs[t].Recheck?) && s.pcs[t].seen == s.sequence
    ensures s.arrived[t] == s.sequence + 1
  {}

  lemma StuckArrivals(s: State)
    requires s.Shaped() && Stuck(s) && forall t | t in s.pcs :: PcOk(s, t)
    ensures Arrivals(s) == s.pcs.Keys
  {
    hide PcOk;
    forall t | t in s.pcs ensures s.arrived[t] == s.sequence + 1 {
      WaiterArrived(s, t);
    }
  }

  lemma StuckLost(s: State)
    requires s.Shaped() && Stuck(s) && CountOk(s) && Arrivals(s) == s.pcs.Keys
    ensures LostArrival(s)
  {
    hide Arrivals, BeforeArrival;
    var t :| t in s.pcs;
    NonEmptyCount(s, t);
    assert |s.pcs.Keys| == |s.pcs|;
    assert !SomeLeading(s) && !ResetPending(s);
  }

  // A concrete run that loses an arrival -----------------------------------------------------------------

  ghost predicate Reachable(s: State) {
    exists states: seq<State>, moves: seq<Move> :: IsRun(states, moves) && states[|states| - 1] == s
  }

  lemma ReachStep(s: State, t: Tid, a: Action)
    requires Reachable(s) && Enabled(s, t, a)
    ensures Reachable(Step(s, t, a))
  {
    hide Step, Enabled;
    var states: seq<State>, moves: seq<Move> :| IsRun(states, moves) && states[|states| - 1] == s;
    var states', moves' := states + [Step(s, t, a)], moves + [Move(t, a)];
    assert forall i | 0 <= i < |states| :: states'[i] == states[i];
    assert IsRun(states', moves');
  }

  /** The state after an idle thread runs without interference up to its arrival. */
  ghost function AfterArrival(s: State, t: Tid): State
    requires s.Shaped() && t in s.pcs
  {
    s.(entered := s.entered[t := s.entered[t] + 1], arrived := s.arrived[t := s.arrived[t] + 1],
       inside := s.inside + 1, waiting := s.waiting + 1,
       pcs := s.pcs[t := if s.waiting + 1 == s.Count() then Bump else FutexWait(s.sequence)])
  }

  ghost function AfterLoads(s: State, t: Tid): State
    requires s.Shaped() && t in s.pcs
  {
    s.(entered := s.entered[t := s.entered[t] + 1], inside := s.inside + 1,
       pcs := s.pcs[t := LoadWaiting(s.sequence)])
  }

  lemma UpdateTwice<V>(m: map<Tid, V>, t: Tid, v: V, w: V)
    ensures m[t := v][t := w] == m[t := w]
  {}

  lemma ReachEnter(s: State, t: Tid)
    requires Reachable(s) && s.Shaped() && t in s.pcs && s.pcs[t].Idle?
    ensures Reachable(Goto(s.(entered := s.entered[t := s.entered[t] + 1]), t, Enter))
  {
    hide Reachable;
    ReachStep(s, t, Begin);
  }

  lemma ReachInside(s: State, t: Tid)
    requires Reachable(s) && s.Shaped() && t in s.pcs && s.pcs[t].Enter?
    ensures Reachable(s.(inside := s.inside + 1, pcs := s.pcs[t := LoadWaiting(s.sequence)]))
  {
    hide Reachable, State.Count, WakeAll, Return;
    var s1 := Goto(s.(inside := s.inside + 1), t, LoadSequence);
    ReachStep(s, t, Run);
    assert Step(s, t, Run) == s1;
    ReachStep(s1, t, Run);
    UpdateTwice(s.pcs, t, LoadSequence, LoadWaiting(s.sequence));
  }

  lemma ReachLoads(s: State, t: Tid)
    requires Reachable(s) && s.Shaped() && t in s.pcs && s.pcs[t].Idle?
    ensures Reachable(AfterLoads(s, t))
  {
    hide Reachable, Step, State.Count;
    var s1 := Goto(s.(entered := s.entered[t := s.entered[t] + 1]), t, Enter);
    ReachEnter(s, t);
    ReachInside(s1, t);
    UpdateTwice(s.pcs, t, Enter, LoadWaiting(s.sequence));
  }

  lemma ReachCounted(s: State, t: Tid)
    requires Reachable(s) && s.Shaped() && t in s.pcs && s.pcs[t].LoadWaiting?
    ensures Reachable(s.(arrived := s.arrived[t := s.arrived[t] + 1], waiting := s.waiting + 1,
                         pcs := s.pcs[t := if s.waiting + 1 == s.Count() then Bump else FutexWait(s.pcs[t].seen)]))
  {
    hide Reachable, State.Count, WakeAll, Return;
    var seen := s.pcs[t].seen;
    var s1 := Goto(s, t, Arrive(seen, s.waiting));
    ReachStep(s, t, Run);
    assert Step(s, t, Run) == s1;
    assert s1.pcs.Keys == s.pcs.Keys;
    SameKeysSameCount(s1, s);
    ReachStep(s1, t, Run);
    UpdateTwice(s.pcs, t, Arrive(seen, s.waiting), if s.waiting + 1 == s.Count() then Bump else FutexWait(seen));
  }

  lemma ReachArrival(s: State, t: Tid)
    requires Reachable(s) && s.Shaped() && t in s.pcs && s.pcs[t].Idle?
    ensures Reachable(AfterArrival(s, t)) && AfterArrival(s, t).Shaped()
  {
    hide Reachable, Step, State.Count;
    var s1 := AfterLoads(s, t);
    ReachLoads(s, t);
    ReachCounted(s1, t);
    assert s1.pcs.Keys == s.pcs.Keys;
    SameKeysSameCount(s1, s);
    UpdateTwice(s.pcs, t, LoadWaiting(s.sequence),
                if s.waiting + 1 == s.Count() then Bump else FutexWait(s.sequence));
  }

  lemma ReachLeave(s: State, t: Tid)
    requires Reachable(s) && s.Shaped() && t in s.pcs && s.pcs[t].FutexWait? && s.pcs[t].seen < s.sequence
    ensures Reachable(Goto(s, t, Leave(false)))
  {
    hide Reachable, State.Count, WakeAll, Return;
    var seen := s.pcs[t].seen;
    var s1 := Goto(s, t, Recheck(seen));
    ReachStep(s, t, Run);
    assert Step(s, t, Run) == s1;
    ReachStep(s1, t, Run);
    UpdateTwice(s.pcs, t, Recheck(seen), Leave(false));
  }

  lemma ReachReturn(s: State, t: Tid)
    requires Reachable(s) && s.Shaped() && t in s.pcs && s.pcs[t] == Leave(false) && s.inside > 1
    ensures Reachable(Return(s.(inside := s.inside - 1), t, false))
  {
    hide Reachable, State.Count, WakeAll;
    ReachStep(s, t, Run);
  }

  /** The state after thread t, released from its wait, has returned (some other thread still being inside). */
  lemma ReachReleased(s: State, t: Tid) returns (s': State)
    requires Reachable(s) && s.Shaped() && t in s.pcs && s.pcs[t].FutexWait?
    requires s.pcs[t].seen < s.sequence && s.inside > 1
    ensures Reachable(s') && s'.Shaped()
    ensures s' == s.(inside := s.inside - 1, pcs := s.pcs[t := Idle], log := s.log + [Returned(t, s.entered[t], false)])
  {
    hide Reachable, Step, State.Count;
    ReachLeave(s, t);
    var s1 := Goto(s, t, Leave(false));
    ReachReturn(s1, t);
    UpdateTwice(s.pcs, t, Leave(false), Idle);
    s' := Return(s1.(inside := s.inside - 1), t, false);
  }

  ghost function TwoIdleThreads(): State {
    State(0, 0, 0, map[0 := Idle, 1 := Idle], map[0 := 0, 1 := 0], map[0 := 0, 1 := 0], [], [])
  }

  lemma BothArrive() returns (s: State)
    ensures Reachable(s) && s.Shaped() && s.pcs == map[0 := FutexWait(0), 1 := Bump]
    ensures s.waiting == 2 && s.inside == 2 && s.sequence == 0 && s.arrived == map[0 := 1, 1 := 1]
  {
    hide Step, Reachable, State.Count;
    var s0 := TwoIdleThreads();
    TwoIdleReachable();
    assert s0.pcs.Keys == {0, 1};
    ReachArrival(s0, 0);
    var s1 := AfterArrival(s0, 0);
    SameKeysSameCount(s0, s1);
    ReachArrival(s1, 1);
    s := AfterArrival(s1, 1);
  }

  lemma TwoIdleReachable()
    ensures Reachable(TwoIdleThreads()) && TwoIdleThreads().Count() == 2
  {
    var s0 := TwoIdleThreads();
    assert IsRun([s0], []) && [s0][|[s0]| - 1] == s0;
    assert s0.pcs.Keys == {0, 1};
    assert |s0.pcs| == |s0.pcs.Keys| == 2;
  }

  /** Two threads meet at the barrier: thread 1 comes last and has advanced the sequence. */
  lemma TwoThreadsMeet() returns (s: State)
    ensures Reachable(s) && s.Shaped() && s.pcs == map[0 := FutexWait(0), 1 := Reset]
    ensures s.waiting == 2 && s.inside == 2 && s.sequence == 1 && s.arrived == map[0 := 1, 1 := 1]
  {
    hide Reachable, State.Count;
    var s2 := BothArrive();
    ReachStep(s2, 1, Run);
    s := Step(s2, 1, Run);
  }

  /** Two threads, one early re-entry: thread 0 is released and arrives again before thread 1 resets the count. The
      arrival is lost, so by LostForever neither thread ever returns from its second wait. */
  lemma EarlyReentryDeadlocks() returns (s: State)
    ensures Reachable(s) && s.Shaped() && s.pcs.Keys == {0, 1} && s.sequence == 1
    ensures LostArrival(s)
  {
    var s3 := TwoThreadsMeet();
    var s4 := ReachReleased(s3, 0);
    ReachArrival(s4, 0);
    s := AfterArrival(s4, 0);
    assert s.pcs.Keys == {0, 1} && s4.pcs.Keys == {0, 1};
    SameKeysSameCount(s, s4);
    assert |{0, 1}| == 2 && |s4.pcs.Keys| == 2;
    assert s.pcs[1].Reset?;
    assert 0 in Arrivals(s);
  }

  // ---------------------------------------------------------------------------------------------------
  // The history variables are what the moves and the log say

  /** How often t has begun a wait in the first n moves. */
  function BeginCount(moves: seq<Move>, n: nat, t: Tid): nat
    requires n <= |moves|
  {
    if n == 0 then 0 else BeginCount(moves, n - 1, t) + if moves[n - 1] == Move(t, Begin) then 1 else 0
  }

  /** How often t has returned. */
  function ReturnCount(log: seq<Event>, t: Tid): nat {
    if log == [] then 0 else ReturnCount(log[..|log| - 1], t) + if log[|log| - 1].t == t then 1 else 0
  }

  /** The event that thread t logs when it returns. */
  function ReturnEvent(s: State, t: Tid): Event
    requires s.Shaped() && t in s.pcs
  {
    Returned(t, s.entered[t], s.pcs[t] == Leave(true) || s.pcs[t] == WakeInside(true))
  }

  /** A step of t begins a wait, returns from one, or neither. */
  lemma OwnHistory(s: State, t: Tid, a: Action)
    requires Enabled(s, t, a)
    ensures var s' := Step(s, t, a);
            && s'.Shaped() && t in s'.pcs
            && s'.entered[t] == s.entered[t] + (if a == Begin then 1 else 0)
            && (s.pcs[t].Idle? <==> a == Begin) && (a == Begin ==> !s'.pcs[t].Idle?)
            && if s'.pcs[t].Idle? then s'.log == s.log + [ReturnEvent(s, t)] else s'.log == s.log
  {
    hide State.Count;
    if a.Run? && (s.pcs[t].Leave? || s.pcs[t].WakeInside?) {
      ReturnHistory(s, t);
    }
  }

  lemma ReturnHistory(s: State, t: Tid)
    requires Enabled(s, t, Run) && (s.pcs[t].Leave? || s.pcs[t].WakeInside?)
    ensures var s' := Step(s, t, Run);
            && s'.Shaped() && t in s'.pcs && s'.entered[t] == s.entered[t]
            && if s'.pcs[t].Idle? then s'.log == s.log + [ReturnEvent(s, t)] else s'.log == s.log
  {
    hide State.Count, WakeAll;
  }

  lemma OtherHistory(s: State, t: Tid, s': State, u: Tid)
    requires Framed(s, t, s') && u in s'.pcs
    ensures u in s.pcs && s.Shaped()
    ensures u != t ==> s'.entered[u] == s.entered[u] && (s'.pcs[u].Idle? <==> s.pcs[u].Idle?)
  {}

  lemma ReturnCountAppend(log: seq<Event>, e: Event, t: Tid)
    ensures ReturnCount(log + [e], t) == ReturnCount(log, t) + if e.t == t then 1 else 0
  {
    assert (log + [e])[..|log|] == log;
  }

  /** `entered` counts the waits a thread has begun: those it has returned from and the one it is in. */
  lemma {:induction false} WaitsCounted(states: seq<State>, moves: seq<Move>, n: nat, t: Tid)
    requires IsRun(states, moves) && n < |states| && t in states[n].pcs
    ensures states[n].Shaped() && states[n].entered[t] == BeginCount(moves, n, t)
    ensures states[n].entered[t] == ReturnCount(states[n].log, t) + if states[n].pcs[t].Idle? then 0 else 1
    decreases n
  {
    hide Step, Enabled;
    if n > 0 {
      var s, m := states[n - 1], moves[n - 1];
      StepFramed(s, m.t, m.a);
      OwnHistory(s, m.t, m.a);
      OtherHistory(s, m.t, states[n], t);
      hide Framed;
      WaitsCounted(states, moves, n - 1, t);
      if states[n].log != s.log {
        ReturnCountAppend(s.log, ReturnEvent(s, m.t), t);
      }
    }
  }

  /** The `wait` of a return is its number among the returns of its thread. */
  lemma {:induction false} ReturnsNumbered(states: seq<State>, moves: seq<Move>, n: nat, i: nat)
    requires IsRun(states, moves) && n < |states| && i < |states[n].log|
    ensures states[n].log[i].wait == ReturnCount(states[n].log[..i + 1], states[n].log[i].t)
    decreases n
  {
    hide Step;
    if n > 0 {
      var s, m := states[n - 1], moves[n - 1];
      OwnHistory(s, m.t, m.a);
      if i < |s.log| {
        ReturnsNumbered(states, moves, n - 1, i);
        assert states[n].log[..i + 1] == s.log[..i + 1] && states[n].log[i] == s.log[i];
      } else {
        WaitsCounted(states, moves, n - 1, m.t);
        ReturnCountAppend(s.log, ReturnEvent(s, m.t), m.t);
        assert states[n].log[..i + 1] == s.log + [ReturnEvent(s, m.t)];
      }
    }
  }

  /** Safety on moves and log alone: when a thread has returned for the k-th time, every thread has begun its k-th
      wait. */
  lemma BarrierSafetyObserved(states: seq<State>, moves: seq<Move>, n: nat, i: nat, u: Tid)
    requires IsRun(states, moves) && n < |states| && i < |states[n].log| && u in states[n].pcs
    ensures BeginCount(moves, n, u) >= ReturnCount(states[n].log[..i + 1], states[n].log[i].t)
  {
    hide IsRun, ReturnCount, BeginCount;
    BarrierSafety(states, moves, n, i, u);
    WaitsCounted(states, moves, n, u);
    ReturnsNumbered(states, moves, n, i);
  }

  /** Each generation is led by one thread, and a return is the serial one exactly when it is the leader's. */
  lemma SerialIffLeader(states: seq<State>, moves: seq<Move>, n: nat, i: nat)
    requires IsRun(states, moves) && n < |states| && i < |states[n].log|
    ensures |states[n].leaders| == states[n].sequence && 1 <= states[n].log[i].wait <= states[n].sequence
    ensures states[n].log[i].serial <==> states[n].leaders[states[n].log[i].wait - 1] == states[n].log[i].t
  {
    RunInv(states, moves, n);
    assert EventOk(states[n], states[n].log[i]);
  }

  // The count of threads inside -------------------------------------------------------------------------

  /** Past the increment of `inside` and before the decrement. */
  predicate Inside(pc: Pc) {
    !pc.Idle? && !pc.Enter? && !pc.WakeInside?
  }

  function Insiders(s: State): set<Tid> {
    set t | t in s.pcs && Inside(s.pcs[t])
  }

  lemma InsideStep(s: State, t: Tid, a: Action)
    requires Enabled(s, t, a)
    ensures var s' := Step(s, t, a);
            && t in s'.pcs
            && s'.inside == s.inside + (if Inside(s'.pcs[t]) then 1 else 0) - (if Inside(s.pcs[t]) then 1 else 0)
  {
    hide State.Count;
  }

  /** `inside` is the number of threads in the barrier, so that it reaches 0 when the last one leaves. */
  lemma {:induction false} InsideCounts(states: seq<State>, moves: seq<Move>, n: nat)
    requires IsRun(states, moves) && n < |states|
    ensures states[n].inside == |Insiders(states[n])|
    decreases n
  {
    hide Step, Enabled, Insiders, Inside;
    if n == 0 {
      NobodyInside(states[0]);
    } else {
      var s, m := states[n - 1], moves[n - 1];
      InsideCounts(states, moves, n - 1);
      StepFramed(s, m.t, m.a);
      InsideStep(s, m.t, m.a);
      InsidersStep(s, m.t, states[n]);
      hide Framed;
    }
  }

  lemma NobodyInside(s: State)
    requires Initial(s)
    ensures s.inside == |Insiders(s)|
  {
    assert Insiders(s) == {};
  }

  lemma InsidersStep(s: State, t: Tid, s': State)
    requires Framed(s, t, s')
    ensures |Insiders(s')| == |Insiders(s)| + (if Inside(s'.pcs[t]) then 1 else 0) - (if Inside(s.pcs[t]) then 1 else 0)
  {
    hide Inside;
    assert forall u | u in s.pcs && u != t :: Inside(s'.pcs[u]) == Inside(s.pcs[u]) by {
      forall u | u in s.pcs && u != t ensures Inside(s'.pcs[u]) == Inside(s.pcs[u]) {
        OtherInside(s, t, s', u);
      }
    }
    assert Insiders(s') - {t} == Insiders(s) - {t};
    ChangedAt(Insiders(s), Insiders(s'), t);
  }

  lemma OtherInside(s: State, t: Tid, s': State, u: Tid)
    requires Framed(s, t, s') && u in s.pcs && u != t
    ensures Inside(s'.pcs[u]) == Inside(s.pcs[u])
  {}

  lemma ChangedAt(a: set<Tid>, b: set<Tid>, t: Tid)
    requires b - {t} == a - {t}
    ensures |b| == |a| + (if t in b then 1 else 0) - (if t in a then 1 else 0)
  {
    assert t in a ==> a == (a - {t}) + {t};
    assert t in b ==> b == (b - {t}) + {t};
    assert t !in a ==> a == a - {t};
    assert t !in b ==> b == b - {t};
  }

  // ---------------------------------------------------------------------------------------------------
  // Threads that nobody interferes with

  /** t takes up to n steps of its own, until it has returned or sleeps. */
  function Alone(s: State, t: Tid, n: nat): State
    requires s.Shaped() && t in s.pcs
    decreases n
  {
    if n == 0 || !Enabled(s, t, Run) then s
    else
      OwnHistory(s, t, Run);
      Alone(Step(s, t, Run), t, n - 1)
  }

  /** The last thread to arrive ends the generation: it advances the sequence, clears the count, wakes every sleeper and
      returns as the serial thread. */
  lemma LeaderReleases(s: State, t: Tid)
    requires s.Shaped() && t in s.pcs && s.pcs[t].Bump?
    ensures Alone(s, t, 5) == s.(sequence := s.sequence + 1, leaders := s.leaders + [t], waiting := 0,
                                 inside := s.inside - 1, pcs := WakeAll(s.pcs)[t := Idle],
                                 log := s.log + [Returned(t, s.entered[t], true)])
  {
    hide State.Count, Alone, Step, Enabled, WakeAll;
    var s1 := s.(sequence := s.sequence + 1, leaders := s.leaders + [t], pcs := s.pcs[t := Reset]);
    BumpStep(s, t);
    AloneStep(s, t, 5, s1);
    var s2 := s1.(waiting := 0, pcs := s.pcs[t := Wake]);
    ResetStep(s1, t);
    UpdateTwice(s.pcs, t, Reset, Wake);
    AloneStep(s1, t, 4, s2);
    WakerReturns(s2, t);
    WakeAllBeside(s.pcs, t, Wake);
  }

  lemma WakerReturns(s: State, t: Tid)
    requires s.Shaped() && t in s.pcs && s.pcs[t].Wake?
    ensures Alone(s, t, 3) == s.(inside := s.inside - 1, pcs := WakeAll(s.pcs)[t := Idle],
                                 log := s.log + [Returned(t, s.entered[t], true)])
  {
    hide State.Count, Alone, Step, Enabled, WakeAll;
    var s3 := Goto(s.(pcs := WakeAll(s.pcs)), t, Leave(true));
    WakeStep(s, t);
    AloneStep(s, t, 3, s3);
    LeaveAlone(s3, t, 2, true);
    UpdateTwice(WakeAll(s.pcs), t, Leave(true), Idle);
  }

  lemma WakeAllBeside(pcs: map<Tid, Pc>, t: Tid, pc: Pc)
    requires t in pcs
    ensures WakeAll(pcs[t := pc])[t := Idle] == WakeAll(pcs)[t := Idle]
  {}

  lemma BumpStep(s: State, t: Tid)
    requires s.Shaped() && t in s.pcs && s.pcs[t].Bump?
    ensures Enabled(s, t, Run)
    ensures Step(s, t, Run) == s.(sequence := s.sequence + 1, leaders := s.leaders + [t], pcs := s.pcs[t := Reset])
  {}

  lemma ResetStep(s: State, t: Tid)
    requires s.Shaped() && t in s.pcs && s.pcs[t].Reset?
    ensures Enabled(s, t, Run) && Step(s, t, Run) == Goto(s.(waiting := 0), t, Wake)
  {}

  lemma WakeStep(s: State, t: Tid)
    requires s.Shaped() && t in s.pcs && s.pcs[t].Wake?
    ensures Enabled(s, t, Run) && Step(s, t, Run) == Goto(s.(pcs := WakeAll(s.pcs)), t, Leave(true))
  {}

  lemma AloneStep(s: State, t: Tid, n: nat, s': State)
    requires n > 0 && Enabled(s, t, Run) && s' == Step(s, t, Run)
    ensures s'.Shaped() && t in s'.pcs && Alone(s, t, n) == Alone(s', t, n - 1)
  {
    hide Step;
    OwnHistory(s, t, Run);
  }

  /** A thread whose generation is over returns. */
  lemma ReleasedReturns(s: State, t: Tid)
    requires s.Shaped() && t in s.pcs && (s.pcs[t].FutexWait? || s.pcs[t].Recheck?) && s.pcs[t].seen < s.sequence
    ensures Alone(s, t, 4) == s.(inside := s.inside - 1, pcs := s.pcs[t := Idle],
                                 log := s.log + [Returned(t, s.entered[t], false)])
  {
    hide State.Count, Alone, Step, Enabled, WakeAll;
    if s.pcs[t].FutexWait? {
      var s1 := Goto(s, t, Recheck(s.pcs[t].seen));
      FutexWaitStep(s, t);
      AloneStep(s, t, 4, s1);
      RecheckReturns(s1, t, 3);
      UpdateTwice(s.pcs, t, Recheck(s.pcs[t].seen), Idle);
    } else {
      RecheckReturns(s, t, 4);
    }
  }

  lemma FutexWaitStep(s: State, t: Tid)
    requires s.Shaped() && t in s.pcs && s.pcs[t].FutexWait? && s.pcs[t].seen < s.sequence
    ensures Enabled(s, t, Run) && Step(s, t, Run) == Goto(s, t, Recheck(s.pcs[t].seen))
  {}

  lemma RecheckStep(s: State, t: Tid)
    requires s.Shaped() && t in s.pcs && s.pcs[t].Recheck? && s.pcs[t].seen < s.sequence
    ensures Enabled(s, t, Run) && Step(s, t, Run) == Goto(s, t, Leave(false))
  {}

  lemma RecheckReturns(s: State, t: Tid, n: nat)
    requires s.Shaped() && t in s.pcs && s.pcs[t].Recheck? && s.pcs[t].seen < s.sequence && n >= 3
    ensures Alone(s, t, n) == s.(inside := s.inside - 1, pcs := s.pcs[t := Idle],
                                 log := s.log + [Returned(t, s.entered[t], false)])
  {
    hide State.Count, Alone, Step, Enabled, WakeAll;
    RecheckStep(s, t);
    AloneStep(s, t, n, Goto(s, t, Leave(false)));
    LeaveAlone(Goto(s, t, Leave(false)), t, n - 1, false);
    UpdateTwice(s.pcs, t, Leave(false), Idle);
  }

  lemma LeaveAlone(s: State, t: Tid, n: nat, serial: bool)
    requires s.Shaped() && t in s.pcs && s.pcs[t] == Leave(serial) && n >= 2
    ensures Alone(s, t, n) == s.(inside := s.inside - 1, pcs := s.pcs[t := Idle],
                                 log := s.log + [Returned(t, s.entered[t], serial)])
  {
    hide State.Count, Alone, WakeAll;
    var out := Step(s, t, Run);
    AloneStep(s, t, n, out);
    if s.inside == 1 {
      AloneStep(out, t, n - 1, Step(out, t, Run));
      UpdateTwice(s.pcs, t, WakeInside(serial), Idle);
      AloneIdle(Step(out, t, Run), t, n - 2);
    } else {
      AloneIdle(out, t, n - 1);
    }
  }

  lemma AloneIdle(s: State, t: Tid, n: nat)
    requires s.Shaped() && t in s.pcs && s.pcs[t].Idle?
    ensures Alone(s, t, n) == s
  {
    hide Step;
  }
}
