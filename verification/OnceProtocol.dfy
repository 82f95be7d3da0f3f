/** `thread_once` of src/internal/thread.cpp as a transition system over any number of threads, one step for each
    access to the once word, each futex call, and the start and end of the initialiser. */
module OnceProtocol {

  const ONCE_INCOMPLETE := 0
  const ONCE_QUEUED := 1
  const ONCE_RUNNING := 2
  const ONCE_COMPLETE := 3

  type Tid = nat

  datatype Pc =
    | Idle
    | Load          // state = ptr->load()
    | CasRun        // compare_exchange_weak(INCOMPLETE, RUNNING)
    | StartInit     // about to call init_fn
    | InInit        // inside init_fn
    | Exchange      // exchange(COMPLETE)
    | Wake          // about to call sys_futex_wake_all
    | CasQueue      // compare_exchange_weak(RUNNING, QUEUED)
    | Wait          // about to call sys_futex_wait(QUEUED)
    | Parked

  datatype Event = Started(t: Tid) | Finished(t: Tid) | Returned(t: Tid)

  datatype State = State(word: int, pcs: map<Tid, Pc>, log: seq<Event>)

  datatype Action = Begin | Run | Spurious

  predicate Enabled(s: State, t: Tid, a: Action) {
    && t in s.pcs
    && match a
       case Begin => s.pcs[t].Idle?
       case Run => !s.pcs[t].Idle? && !s.pcs[t].Parked?
       case Spurious =>
         // a weak compare-exchange that fails although the values agree, or an early return from the futex
         || s.pcs[t].Parked? || s.pcs[t].Wait?
         || (s.pcs[t].CasRun? && s.word == ONCE_INCOMPLETE)
         || (s.pcs[t].CasQueue? && s.word == ONCE_RUNNING)
  }

  function Goto(s: State, t: Tid, pc: Pc): State {
    s.(pcs := s.pcs[t := pc])
  }

  function Return(s: State, t: Tid): State {
    s.(pcs := s.pcs[t := Idle], log := s.log + [Returned(t)])
  }

  /** The branch taken on a freshly read word. */
  function Dispatch(s: State, t: Tid): State {
    if s.word == ONCE_INCOMPLETE then Goto(s, t, CasRun)
    else if s.word == ONCE_RUNNING then Goto(s, t, CasQueue)
    else if s.word == ONCE_QUEUED then Goto(s, t, Wait)
    else Return(s, t)
  }

  function WakeAll(pcs: map<Tid, Pc>): map<Tid, Pc> {
    map u | u in pcs :: if pcs[u].Parked? then Load else pcs[u]
  }

  function Step(s: State, t: Tid, a: Action): State
    requires Enabled(s, t, a)
  {
    match a
    case Begin => Goto(s, t, Load)
    case Spurious => if s.pcs[t].Parked? || s.pcs[t].Wait? then Goto(s, t, Load) else s
    case Run =>
      match s.pcs[t]
      case Load => Dispatch(s, t)
      case CasRun =>
        if s.word == ONCE_INCOMPLETE then Goto(s.(word := ONCE_RUNNING), t, StartInit) else Dispatch(s, t)
      case StartInit => Goto(s.(log := s.log + [Started(t)]), t, InInit)
      case InInit => Goto(s.(log := s.log + [Finished(t)]), t, Exchange)
      case Exchange =>
        if s.word == ONCE_QUEUED then Goto(s.(word := ONCE_COMPLETE), t, Wake)
        else Return(s.(word := ONCE_COMPLETE), t)
      case Wake => Return(s.(pcs := WakeAll(s.pcs)), t)
      case CasQueue =>
        if s.word == ONCE_RUNNING then Goto(s.(word := ONCE_QUEUED), t, Wait) else Dispatch(s, t)
      case Wait => Goto(s, t, if s.word == ONCE_QUEUED then Parked else Load)
  }

  predicate Initial(s: State) {
    s.word == ONCE_INCOMPLETE && s.log == [] && forall t | t in s.pcs :: s.pcs[t] == Idle
  }

  datatype Move = Move(t: Tid, a: Action)

  ghost predicate IsRun(states: seq<State>, moves: seq<Move>) {
    && |states| == |moves| + 1
    && Initial(states[0])
    && forall i :: 0 <= i < |moves| ==>
         Enabled(states[i], moves[i].t, moves[i].a) && states[i + 1] == Step(states[i], moves[i].t, moves[i].a)
  }

  // ---------------------------------------------------------------------------------------------------
  // Invariant

  predicate Initialising(pc: Pc) {
    pc.StartInit? || pc.InInit? || pc.Exchange?
  }

  ghost predicate HasStarted(log: seq<Event>) {
    exists i | 0 <= i < |log| :: log[i].Started?
  }

  ghost predicate HasFinished(log: seq<Event>) {
    exists i | 0 <= i < |log| :: log[i].Finished?
  }

  /** The initialiser starts at most once, and every return comes after an initialiser has finished. */
  ghost predicate LogOk(log: seq<Event>) {
    && (forall i, j | 0 <= i < |log| && 0 <= j < |log| :: log[i].Started? && log[j].Started? ==> i == j)
    && (forall i | 0 <= i < |log| :: log[i].Returned? ==> HasFinished(log[..i]))
  }

  ghost predicate WakePending(s: State) {
    exists u | u in s.pcs :: s.pcs[u].Wake?
  }

  ghost predicate Sleepers(s: State) {
    exists t | t in s.pcs :: s.pcs[t].Parked?
  }

  ghost predicate PcOk(s: State, t: Tid)
    requires t in s.pcs
  {
    match s.pcs[t]
    case StartInit => !HasStarted(s.log)
    case InInit => HasStarted(s.log)
    case Exchange => HasFinished(s.log)
    case Wake => s.word == ONCE_COMPLETE
    case _ => true
  }

  ghost predicate Inv(s: State) {
    && 0 <= s.word <= 3
    && LogOk(s.log)
    && (s.word == ONCE_INCOMPLETE ==> !HasStarted(s.log))
    && (s.word == ONCE_COMPLETE ==> HasFinished(s.log))
    && (forall t | t in s.pcs :: PcOk(s, t))
    && (forall t, u | t in s.pcs && u in s.pcs ::
          Initialising(s.pcs[t]) && Initialising(s.pcs[u]) ==> t == u)
    && (s.word == ONCE_RUNNING || s.word == ONCE_QUEUED <==> exists t | t in s.pcs :: Initialising(s.pcs[t]))
    && (Sleepers(s) ==> s.word == ONCE_QUEUED || WakePending(s))
  }

  lemma LogAppend(log: seq<Event>, e: Event)
    ensures HasStarted(log + [e]) <==> HasStarted(log) || e.Started?
    ensures HasFinished(log + [e]) <==> HasFinished(log) || e.Finished?
    ensures LogOk(log) && (e.Started? ==> !HasStarted(log)) && (e.Returned? ==> HasFinished(log)) ==> LogOk(log + [e])
  {
    var log' := log + [e];
    assert log'[|log|] == e;
    assert forall i | 0 <= i < |log| :: log'[i] == log[i] && log'[..i] == log[..i];
    assert log'[..|log|] == log;
  }

  /** A step of t leaves every other thread where it was or wakes it. */
  lemma StepFrame(s: State, t: Tid, a: Action)
    requires Enabled(s, t, a)
    ensures Step(s, t, a).pcs.Keys == s.pcs.Keys
    ensures forall u | u in s.pcs && u != t ::
              var pc := Step(s, t, a).pcs[u]; pc == s.pcs[u] || (s.pcs[u].Parked? && pc.Load?)
  {}

  /** The event a step appends, if any, and when each kind can occur. */
  lemma StepLog(s: State, t: Tid, a: Action) returns (e: Event)
    requires Inv(s) && Enabled(s, t, a)
    ensures Step(s, t, a).log == s.log || Step(s, t, a).log == s.log + [e]
    ensures Step(s, t, a).log != s.log ==> (e.Returned? ==> HasFinished(s.log))
    ensures s.pcs[t].StartInit? && a.Run? <==> Step(s, t, a).log != s.log && e.Started?
    ensures s.pcs[t].InInit? && a.Run? <==> Step(s, t, a).log != s.log && e.Finished?
  {
    assert PcOk(s, t);
    var log, log' := s.log, Step(s, t, a).log;
    e := if |log'| > |log| then log'[|log|] else Returned(t);
  }

  lemma StepHistory(s: State, t: Tid, a: Action)
    requires Inv(s) && Enabled(s, t, a)
    ensures var s' := Step(s, t, a);
            && LogOk(s'.log)
            && (HasStarted(s'.log) <==> HasStarted(s.log) || (s.pcs[t].StartInit? && a.Run?))
            && (HasFinished(s'.log) <==> HasFinished(s.log) || (s.pcs[t].InInit? && a.Run?))
  {
    assert PcOk(s, t);
    var e := StepLog(s, t, a);
    LogAppend(s.log, e);
  }

  /** The word says that `init_fn` is running. */
  predicate Busy(word: int) {
    word == ONCE_RUNNING || word == ONCE_QUEUED
  }

  /** How a step of t moves the word: it becomes busy when t takes it and idle when t gives it up. */
  lemma OwnInitialiser(s: State, t: Tid, a: Action)
    requires Enabled(s, t, a) && (Initialising(s.pcs[t]) ==> Busy(s.word))
    ensures var s' := Step(s, t, a);
            && t in s'.pcs
            && (Initialising(s'.pcs[t]) ==> Busy(s'.word) && (Initialising(s.pcs[t]) || !Busy(s.word)))
            && (!Initialising(s'.pcs[t]) ==> (Busy(s'.word) <==> Busy(s.word) && !Initialising(s.pcs[t])))
  {
    hide WakeAll;
  }

  lemma StepInitialiser(s: State, t: Tid, a: Action, s': State)
    requires Inv(s) && Enabled(s, t, a) && s' == Step(s, t, a)
    ensures forall u, v | u in s'.pcs && v in s'.pcs :: Initialising(s'.pcs[u]) && Initialising(s'.pcs[v]) ==> u == v
    ensures Busy(s'.word) <==> exists u | u in s'.pcs :: Initialising(s'.pcs[u])
  {
    hide HasFinished, HasStarted, LogOk, PcOk, Sleepers, WakePending, Step;
    StepFrame(s, t, a);
    OwnInitialiser(s, t, a);
    assert forall u | u in s.pcs && u != t :: Initialising(s'.pcs[u]) <==> Initialising(s.pcs[u]);
    if Busy(s.word) {
      var w :| w in s.pcs && Initialising(s.pcs[w]);
      assert w == t || Initialising(s'.pcs[w]);
    }
  }

  lemma StepPcOk(s: State, t: Tid, a: Action, s': State, u: Tid)
    requires Inv(s) && Enabled(s, t, a) && s' == Step(s, t, a) && u in s'.pcs
    ensures PcOk(s', u)
  {
    StepFrame(s, t, a);
    StepHistory(s, t, a);
    assert PcOk(s, t) && PcOk(s, u);
    if u != t && Initialising(s.pcs[u]) {
      assert !Initialising(s.pcs[t]);
    }
    if u != t && s.pcs[u].Wake? {
      assert !Initialising(s.pcs[t]);
    }
  }

  lemma StepWakeups(s: State, t: Tid, a: Action, s': State)
    requires Inv(s) && Enabled(s, t, a) && s' == Step(s, t, a)
    ensures Sleepers(s') ==> s'.word == ONCE_QUEUED || WakePending(s')
  {
    if Sleepers(s') && s'.word != ONCE_QUEUED {
      StepFrame(s, t, a);
      var p :| p in s'.pcs && s'.pcs[p].Parked?;
      assert s.pcs[p].Parked? && p != t;
      if s.word == ONCE_QUEUED {
        assert s'.pcs[t].Wake?;
      } else {
        var u :| u in s.pcs && s.pcs[u].Wake?;
        assert u != t ==> s'.pcs[u].Wake?;
      }
    }
  }

  /** Every step of every thread keeps the invariant. */
  lemma StepInv(s: State, t: Tid, a: Action, s': State)
    requires Inv(s) && Enabled(s, t, a) && s' == Step(s, t, a)
    ensures Inv(s')
  {
    StepHistory(s, t, a);
    StepInitialiser(s, t, a, s');
    StepWakeups(s, t, a, s');
    forall u | u in s'.pcs ensures PcOk(s', u) {
      StepPcOk(s, t, a, s', u);
    }
    assert PcOk(s, t);
  }

  lemma {:induction false} RunInv(states: seq<State>, moves: seq<Move>, n: nat)
    requires IsRun(states, moves) && n < |states|
    ensures Inv(states[n])
  {
    if n > 0 {
      RunInv(states, moves, n - 1);
      StepInv(states[n - 1], moves[n - 1].t, moves[n - 1].a, states[n]);
    }
  }

  // ---------------------------------------------------------------------------------------------------
  // What holds in every run

  /** `init_fn` starts at most once, and every return from `thread_once` comes after it has finished. */
  lemma InitialisedOnce(states: seq<State>, moves: seq<Move>, n: nat, i: nat, j: nat)
    requires IsRun(states, moves) && n < |states| && i < |states[n].log| && j < |states[n].log|
    ensures states[n].log[i].Started? && states[n].log[j].Started? ==> i == j
    ensures states[n].log[i].Returned? ==> exists k | 0 <= k < i :: states[n].log[k].Finished?
  {
    RunInv(states, moves, n);
    var log := states[n].log;
    if log[i].Returned? {
      var k :| 0 <= k < i && log[..i][k].Finished?;
      assert log[k].Finished?;
    }
  }

  /** No two threads are ever between winning the word and giving it up, so no two are in `init_fn`. */
  lemma OneInitialiser(states: seq<State>, moves: seq<Move>, n: nat, t: Tid, u: Tid)
    requires IsRun(states, moves) && n < |states| && t in states[n].pcs && u in states[n].pcs
    requires Initialising(states[n].pcs[t]) && Initialising(states[n].pcs[u])
    ensures t == u
  {
    RunInv(states, moves, n);
  }

  /** Behind every sleeper there is a thread that is not asleep: the one running the initialiser, which will find the
      word queued, or one about to wake everyone. */
  lemma SleeperHasWaker(states: seq<State>, moves: seq<Move>, n: nat, t: Tid) returns (u: Tid)
    requires IsRun(states, moves) && n < |states| && t in states[n].pcs && states[n].pcs[t].Parked?
    ensures u in states[n].pcs && u != t
    ensures states[n].pcs[u].Wake? || (Initialising(states[n].pcs[u]) && states[n].word == ONCE_QUEUED)
  {
    RunInv(states, moves, n);
    var s := states[n];
    if s.word == ONCE_QUEUED {
      u :| u in s.pcs && Initialising(s.pcs[u]);
    } else {
      u :| u in s.pcs && s.pcs[u].Wake?;
    }
  }

  // ---------------------------------------------------------------------------------------------------
  // A call that nobody interferes with

  /** t takes up to n steps of its own, until it has returned or sleeps. */
  function Alone(s: State, t: Tid, n: nat): State
    requires t in s.pcs
    decreases n
  {
    if n == 0 || !Enabled(s, t, Run) then s else Alone(Step(s, t, Run), t, n - 1)
  }

  function CallAlone(s: State, t: Tid): State
    requires t in s.pcs && s.pcs[t].Idle?
  {
    Alone(Step(s, t, Begin), t, 6)
  }

  lemma AloneStep(s: State, t: Tid, n: nat, s': State)
    requires n > 0 && Enabled(s, t, Run) && s' == Step(s, t, Run)
    ensures t in s'.pcs && Alone(s, t, n) == Alone(s', t, n - 1)
  {}

  /** The first call runs `init_fn` from start to end and completes the word; later ones return at once. */
  lemma FirstCallInitialises(s: State, t: Tid)
    requires t in s.pcs && s.pcs[t].Idle? && s.word == ONCE_INCOMPLETE
    ensures CallAlone(s, t) == s.(word := ONCE_COMPLETE, log := s.log + [Started(t), Finished(t), Returned(t)])
  {
    hide Alone, WakeAll;
    var s0 := Step(s, t, Begin);
    var s1 := s.(pcs := s.pcs[t := CasRun]);
    assert Step(s0, t, Run).pcs == s1.pcs;
    AloneStep(s0, t, 6, s1);
    var s2 := s.(word := ONCE_RUNNING, pcs := s.pcs[t := StartInit]);
    assert Step(s1, t, Run).pcs == s2.pcs;
    AloneStep(s1, t, 5, s2);
    InitialiserCompletes(s2, t);
    assert s2.pcs[t := Idle] == s.pcs;
  }

  lemma InitialiserCompletes(s: State, t: Tid)
    requires t in s.pcs && s.pcs[t].StartInit? && s.word == ONCE_RUNNING
    ensures Alone(s, t, 4) == s.(word := ONCE_COMPLETE, pcs := s.pcs[t := Idle],
                                 log := s.log + [Started(t), Finished(t), Returned(t)])
  {
    hide Alone, WakeAll;
    var s1 := s.(pcs := s.pcs[t := InInit], log := s.log + [Started(t)]);
    AloneStep(s, t, 4, s1);
    var s2 := s.(pcs := s.pcs[t := Exchange], log := s.log + [Started(t), Finished(t)]);
    assert Step(s1, t, Run).pcs == s2.pcs && Step(s1, t, Run).log == s2.log;
    AloneStep(s1, t, 3, s2);
    var s3 := s.(word := ONCE_COMPLETE, pcs := s.pcs[t := Idle],
                 log := s.log + [Started(t), Finished(t), Returned(t)]);
    assert Step(s2, t, Run).pcs == s3.pcs && Step(s2, t, Run).log == s3.log;
    AloneStep(s2, t, 2, s3);
    AloneIdle(s3, t, 1);
  }

  lemma AloneIdle(s: State, t: Tid, n: nat)
    requires t in s.pcs && (s.pcs[t].Idle? || s.pcs[t].Parked?)
    ensures Alone(s, t, n) == s
  {}

  lemma LaterCallReturns(s: State, t: Tid)
    requires t in s.pcs && s.pcs[t].Idle? && s.word == ONCE_COMPLETE
    ensures CallAlone(s, t) == s.(log := s.log + [Returned(t)])
  {
    hide Alone, WakeAll;
    var s0, s1 := Step(s, t, Begin), s.(log := s.log + [Returned(t)]);
    assert Step(s0, t, Run).pcs == s.pcs;
    AloneStep(s0, t, 6, s1);
    AloneIdle(s1, t, 5);
  }

  /** A call while another thread is in `init_fn` goes to sleep, with the word saying so. */
  lemma CallDuringInitSleeps(s: State, t: Tid)
    requires t in s.pcs && s.pcs[t].Idle? && (s.word == ONCE_RUNNING || s.word == ONCE_QUEUED)
    ensures CallAlone(s, t) == s.(word := ONCE_QUEUED, pcs := s.pcs[t := Parked])
  {
    hide Alone, WakeAll;
    var s0 := Step(s, t, Begin);
    var s2 := s.(word := ONCE_QUEUED, pcs := s.pcs[t := Wait]);
    if s.word == ONCE_RUNNING {
      var s1 := s.(pcs := s.pcs[t := CasQueue]);
      assert Step(s0, t, Run).pcs == s1.pcs;
      AloneStep(s0, t, 6, s1);
      assert Step(s1, t, Run).pcs == s2.pcs;
      AloneStep(s1, t, 5, s2);
      WaiterSleeps(s2, t, 4);
    } else {
      assert Step(s0, t, Run).pcs == s2.pcs;
      AloneStep(s0, t, 6, s2);
      WaiterSleeps(s2, t, 5);
    }
    assert s2.pcs[t := Parked] == s.pcs[t := Parked];
  }

  lemma WaiterSleeps(s: State, t: Tid, n: nat)
    requires t in s.pcs && s.pcs[t].Wait? && s.word == ONCE_QUEUED && n > 0
    ensures Alone(s, t, n) == s.(pcs := s.pcs[t := Parked])
  {
    hide Alone, WakeAll;
    AloneStep(s, t, n, s.(pcs := s.pcs[t := Parked]));
    AloneIdle(s.(pcs := s.pcs[t := Parked]), t, n - 1);
  }

  /** The initialiser wakes exactly the sleepers, and they go back to reading the word. */
  lemma InitialiserWakes(s: State, t: Tid)
    requires t in s.pcs && s.pcs[t].Exchange? && s.word == ONCE_QUEUED
    ensures var e := Alone(s, t, 2);
            && e.word == ONCE_COMPLETE && e.log == s.log + [Returned(t)] && e.pcs.Keys == s.pcs.Keys && e.pcs[t] == Idle
            && forall u | u in s.pcs && u != t :: e.pcs[u] == if s.pcs[u].Parked? then Load else s.pcs[u]
  {
    hide Alone;
    var s1 := s.(word := ONCE_COMPLETE, pcs := s.pcs[t := Wake]);
    AloneStep(s, t, 2, s1);
    AloneStep(s1, t, 1, Step(s1, t, Run));
    AloneIdle(Step(s1, t, Run), t, 0);
  }
}
