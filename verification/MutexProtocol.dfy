/** The futex mutex of src/internal/mutex.cpp as a transition system: any number of threads, one step for each
    access to the state word, to the recursion count or to the futex, interleaved arbitrarily under sequential
    consistency. */
module MutexProtocol {

  const FLAG_WAITING: nat := 0x8000_0000

  /** Thread ids are positive and leave the top bit of the word free. */
  type Tid = t: nat | 0 < t < FLAG_WAITING witness 1

  datatype Kind = Normal | Recursive | ErrorCheck

  datatype Errno = Ok | EDEADLK | EBUSY | EPERM

  datatype Op = Lock | TryLock | Unlock

  /** Where a thread stands: the next shared access it will make, with the locals it needs for it. */
  datatype Pc =
    | Idle
    | LockCas                      // compare_exchange_strong(0, id) in manual_lock
    | LockMark(expected: nat)      // compare_exchange_weak(expected, expected | FLAG_WAITING)
    | LockWait(expected: nat)      // about to call sys_futex_wait(expected)
    | Parked                       // asleep in sys_futex_wait
    | TryCas                       // compare_exchange_strong(0, id) in try_manual_lock
    | SetRecursion(op: Op)         // recursion = 1
    | BumpRecursion(op: Op)        // ++recursion
    | UnlockLoad                   // load in manual_unlock
    | UnlockDec                    // --recursion
    | UnlockExchange               // exchange(0)
    | UnlockWake                   // about to call sys_futex_wake_all
    | Panicked

  /** A call that has returned. */
  datatype Event = Returned(t: Tid, op: Op, result: Errno)

  datatype State = State(kind: Kind, word: nat, recursion: int, pcs: map<Tid, Pc>, log: seq<Event>)

  function IdBits(word: nat): nat {
    if word >= FLAG_WAITING then word - FLAG_WAITING else word
  }

  predicate Waiting(word: nat) {
    word >= FLAG_WAITING
  }

  /** The moves a thread can make: start a call, take its next step, or see that step fail without cause (a weak
      compare-exchange, or a futex wait that returns early). */
  datatype Action = Begin(op: Op) | Run | Spurious

  predicate Enabled(s: State, t: Tid, a: Action) {
    && t in s.pcs
    && match a
       case Begin(_) => s.pcs[t].Idle?
       case Run => !s.pcs[t].Idle? && !s.pcs[t].Parked? && !s.pcs[t].Panicked?
       case Spurious =>
         s.pcs[t].Parked? || s.pcs[t].LockWait? || (s.pcs[t].LockMark? && s.pcs[t].expected == s.word)
  }

  /** What a locking thread does next once it has read `expected` from the word. */
  function AfterRead(kind: Kind, t: Tid, expected: nat): Pc {
    if expected == 0 then LockCas
    else if IdBits(expected) == t then
      match kind
      case Recursive => BumpRecursion(Lock)
      case ErrorCheck => Idle
      case Normal => Panicked
    else if Waiting(expected) then LockWait(expected)
    else LockMark(expected)
  }

  function Goto(s: State, t: Tid, pc: Pc): State {
    s.(pcs := s.pcs[t := pc])
  }

  function Return(s: State, t: Tid, op: Op, result: Errno): State {
    s.(pcs := s.pcs[t := Idle], log := s.log + [Returned(t, op, result)])
  }

  /** sys_futex_wake_all: every sleeper goes back to the head of the lock loop. */
  function WakeAll(pcs: map<Tid, Pc>): map<Tid, Pc> {
    map u | u in pcs :: if pcs[u].Parked? then LockCas else pcs[u]
  }

  function AfterReadState(s: State, t: Tid, expected: nat): State {
    var pc := AfterRead(s.kind, t, expected);
    if pc.Idle? then Return(s, t, Lock, EDEADLK) else Goto(s, t, pc)
  }

  function Step(s: State, t: Tid, a: Action): State
    requires Enabled(s, t, a)
  {
    match a
    case Begin(op) =>
      Goto(s, t, match op case Lock => LockCas case TryLock => TryCas case Unlock => UnlockLoad)
    case Spurious =>
      if s.pcs[t].LockMark? then s else Goto(s, t, LockCas)
    case Run => RunStep(s, t)
  }

  function RunStep(s: State, t: Tid): State
    requires Enabled(s, t, Run)
  {
    match s.pcs[t]
    case LockCas =>
      if s.word == 0 then Goto(s.(word := t), t, SetRecursion(Lock)) else AfterReadState(s, t, s.word)
    case LockMark(expected) =>
      if s.word == expected then Goto(s.(word := expected + FLAG_WAITING), t, LockWait(expected + FLAG_WAITING))
      else AfterReadState(s, t, s.word)
    case LockWait(expected) =>
      Goto(s, t, if s.word == expected then Parked else LockCas)
    case TryCas =>
      if s.word == 0 then Goto(s.(word := t), t, SetRecursion(TryLock))
      else if IdBits(s.word) == t then
        match s.kind
        case Recursive => Goto(s, t, BumpRecursion(TryLock))
        case ErrorCheck => Return(s, t, TryLock, EDEADLK)
        case Normal => Goto(s, t, Panicked)
      else Return(s, t, TryLock, EBUSY)
    case SetRecursion(op) => Return(s.(recursion := 1), t, op, Ok)
    case BumpRecursion(op) => Return(s.(recursion := s.recursion + 1), t, op, Ok)
    case UnlockLoad =>
      if IdBits(s.word) != t || s.word == 0 then
        if s.kind == Normal then Goto(s, t, Panicked) else Return(s, t, Unlock, EPERM)
      else Goto(s, t, UnlockDec)
    case UnlockDec =>
      if s.recursion < 1 then Goto(s, t, Panicked)
      else if s.recursion - 1 > 0 then Return(s.(recursion := s.recursion - 1), t, Unlock, Ok)
      else Goto(s.(recursion := s.recursion - 1), t, UnlockExchange)
    case UnlockExchange =>
      if Waiting(s.word) then Goto(s.(word := 0), t, UnlockWake) else Return(s.(word := 0), t, Unlock, Ok)
    case UnlockWake => Return(s.(pcs := WakeAll(s.pcs)), t, Unlock, Ok)
  }

  predicate Initial(s: State) {
    s.word == 0 && s.recursion == 0 && s.log == [] && forall t | t in s.pcs :: s.pcs[t] == Idle
  }

  /** A run: one thread's move after another from an initial state. */
  datatype Move = Move(t: Tid, a: Action)

  ghost predicate IsRun(states: seq<State>, moves: seq<Move>) {
    && |states| == |moves| + 1
    && Initial(states[0])
    && forall i :: 0 <= i < |moves| ==>
         Enabled(states[i], moves[i].t, moves[i].a) && states[i + 1] == Step(states[i], moves[i].t, moves[i].a)
  }

  // ---------------------------------------------------------------------------------------------------
  // Invariant

  /** Successful locks minus successful unlocks of t in the log. */
  function Balance(log: seq<Event>, t: Tid): int {
    if log == [] then 0
    else
      var e, n := log[|log| - 1], Balance(log[..|log| - 1], t);
      if e.t != t || e.result != Ok then n else if e.op == Unlock then n - 1 else n + 1
  }

  lemma BalanceAppend(log: seq<Event>, e: Event, t: Tid)
    ensures Balance(log + [e], t) ==
            Balance(log, t) + if e.t != t || e.result != Ok then 0 else if e.op == Unlock then -1 else 1
  {
    assert (log + [e])[..|log|] == log;
  }

  predicate Owns(s: State, t: Tid) {
    s.word != 0 && IdBits(s.word) == t
  }

  /** The word is zero, or a participating thread's id with or without the waiting flag. */
  predicate WordOk(s: State) {
    s.word == 0 || (IdBits(s.word) != 0 && IdBits(s.word) < FLAG_WAITING && IdBits(s.word) in s.pcs)
  }

  predicate PcOk(s: State, t: Tid)
    requires t in s.pcs
  {
    match s.pcs[t]
    case SetRecursion(op) => Owns(s, t) && op != Unlock
    case BumpRecursion(op) => Owns(s, t) && op != Unlock && s.kind == Recursive
    case UnlockDec => Owns(s, t)
    case UnlockExchange => Owns(s, t)
    case LockMark(e) => !Owns(s, t) && 0 < e < FLAG_WAITING && e != t
    case LockWait(e) => !Owns(s, t) && FLAG_WAITING < e < 2 * FLAG_WAITING && IdBits(e) != t
    case Parked => !Owns(s, t)
    case UnlockWake => !Owns(s, t)
    case _ => true
  }

  /** How the recursion count and the calls that have returned fit together for one thread. */
  predicate DepthOk(s: State, t: Tid)
    requires t in s.pcs
  {
    if !Owns(s, t) then Balance(s.log, t) == if s.pcs[t].UnlockWake? then 1 else 0
    else if s.pcs[t].SetRecursion? then Balance(s.log, t) == 0
    else if s.pcs[t].UnlockExchange? then s.recursion == 0 && Balance(s.log, t) == 1
    else s.recursion == Balance(s.log, t) >= 1 && (s.kind != Recursive ==> s.recursion == 1)
  }

  ghost predicate WakePending(s: State) {
    exists u | u in s.pcs :: s.pcs[u].UnlockWake?
  }

  ghost predicate Sleepers(s: State) {
    exists t | t in s.pcs :: s.pcs[t].Parked?
  }

  ghost predicate Inv(s: State) {
    && WordOk(s)
    && (forall t | t in s.pcs :: PcOk(s, t))
    && (forall t | t in s.pcs :: DepthOk(s, t))
    && (Sleepers(s) ==> Waiting(s.word) || WakePending(s))
  }

  lemma InitialInv(s: State)
    requires Initial(s)
    ensures Inv(s)
  {}

  lemma StepWordOk(s: State, t: Tid, a: Action)
    requires Inv(s) && Enabled(s, t, a)
    ensures WordOk(Step(s, t, a))
  {
    assert PcOk(s, t);
  }

  /** A step of t leaves every other thread where it was, or wakes it, and does not touch what it owns. */
  lemma StepFrame(s: State, t: Tid, a: Action, u: Tid)
    requires Inv(s) && Enabled(s, t, a) && u in s.pcs && u != t
    ensures var s' := Step(s, t, a);
            && u in s'.pcs
            && (s'.pcs[u] == s.pcs[u] || (s.pcs[u].Parked? && s'.pcs[u].LockCas?))
            && (Owns(s', u) <==> Owns(s, u))
            && (Owns(s, u) ==> s'.recursion == s.recursion)
  {
    assert PcOk(s, t);
  }

  lemma StepLog(s: State, t: Tid, a: Action)
    requires Enabled(s, t, a)
    ensures var s' := Step(s, t, a);
            s'.log == s.log || (s'.log != [] && s'.log[|s'.log| - 1].t == t && s'.log == s.log + [s'.log[|s'.log| - 1]])
  {}

  lemma StepPcOk(s: State, t: Tid, a: Action, u: Tid)
    requires Inv(s) && Enabled(s, t, a) && u in s.pcs
    ensures u in Step(s, t, a).pcs && PcOk(Step(s, t, a), u)
  {
    hide Balance, DepthOk;
    assert PcOk(s, t) && PcOk(s, u);
    if u != t {
      StepFrame(s, t, a, u);
    }
  }

  lemma StepDepthOkOther(s: State, t: Tid, a: Action, u: Tid)
    requires Inv(s) && Enabled(s, t, a) && u in s.pcs && u != t
    ensures u in Step(s, t, a).pcs && DepthOk(Step(s, t, a), u)
  {
    assert PcOk(s, u) && DepthOk(s, u);
    StepFrame(s, t, a, u);
    StepLog(s, t, a);
    var log := Step(s, t, a).log;
    if log != s.log {
      BalanceAppend(s.log, log[|log| - 1], u);
    }
  }

  lemma StepDepthOkSelf(s: State, t: Tid, a: Action)
    requires Inv(s) && Enabled(s, t, a)
    ensures t in Step(s, t, a).pcs && DepthOk(Step(s, t, a), t)
  {
    assert PcOk(s, t) && DepthOk(s, t);
    StepLog(s, t, a);
    var log := Step(s, t, a).log;
    if log != s.log {
      BalanceAppend(s.log, log[|log| - 1], t);
    }
  }

  /** A thread that is asleep after a step of t was asleep before, or has just found the flag set. */
  lemma StepSleeper(s: State, t: Tid, a: Action, p: Tid)
    requires Inv(s) && Enabled(s, t, a) && p in Step(s, t, a).pcs && Step(s, t, a).pcs[p].Parked?
    ensures (p != t && p in s.pcs && s.pcs[p].Parked?) || Waiting(Step(s, t, a).word)
  {
    assert PcOk(s, t);
    StepKeys(s, t, a);
    if p != t {
      StepFrame(s, t, a, p);
    }
  }

  lemma StepKeys(s: State, t: Tid, a: Action)
    requires Enabled(s, t, a)
    ensures Step(s, t, a).pcs.Keys == s.pcs.Keys && Step(s, t, a).kind == s.kind
  {}

  /** The flag only leaves the word with a thread that is about to wake everyone. */
  lemma StepClearsFlag(s: State, t: Tid, a: Action)
    requires Inv(s) && Enabled(s, t, a) && Waiting(s.word) && !Waiting(Step(s, t, a).word)
    ensures t in Step(s, t, a).pcs && Step(s, t, a).pcs[t].UnlockWake?
  {
    assert PcOk(s, t);
  }

  /** When the wake-up call is made, nobody stays asleep. */
  lemma StepWakesAll(s: State, t: Tid, p: Tid)
    requires t in s.pcs && s.pcs[t].UnlockWake? && p in Step(s, t, Run).pcs
    ensures !Step(s, t, Run).pcs[p].Parked?
  {}

  lemma StepWakeups(s: State, t: Tid, a: Action)
    requires Inv(s) && Enabled(s, t, a)
    ensures Sleepers(Step(s, t, a)) ==> Waiting(Step(s, t, a).word) || WakePending(Step(s, t, a))
  {
    if Sleepers(Step(s, t, a)) && !Waiting(Step(s, t, a).word) {
      var p :| p in Step(s, t, a).pcs && Step(s, t, a).pcs[p].Parked?;
      StepSleeper(s, t, a, p);
      if Waiting(s.word) {
        StepClearsFlag(s, t, a);
      } else {
        var u :| u in s.pcs && s.pcs[u].UnlockWake?;
        if u == t {
          StepWakesAll(s, t, p);
        } else {
          StepFrame(s, t, a, u);
        }
      }
    }
  }

  lemma StepThread(s: State, t: Tid, a: Action, u: Tid)
    requires Inv(s) && Enabled(s, t, a) && u in s.pcs
    ensures u in Step(s, t, a).pcs && PcOk(Step(s, t, a), u) && DepthOk(Step(s, t, a), u)
  {
    StepPcOk(s, t, a, u);
    if u == t { StepDepthOkSelf(s, t, a); } else { StepDepthOkOther(s, t, a, u); }
  }

  /** Every step of every thread keeps the invariant. */
  lemma StepInv(s: State, t: Tid, a: Action, s': State)
    requires Inv(s) && Enabled(s, t, a) && s' == Step(s, t, a)
    ensures Inv(s')
  {
    StepKeys(s, t, a);
    StepWordOk(s, t, a);
    StepWakeups(s, t, a);
    forall u | u in s'.pcs ensures PcOk(s', u) && DepthOk(s', u) {
      StepThread(s, t, a, u);
    }
  }

  lemma {:induction false} RunInv(states: seq<State>, moves: seq<Move>, n: nat)
    requires IsRun(states, moves) && n < |states|
    ensures Inv(states[n])
  {
    if n == 0 {
      InitialInv(states[0]);
    } else {
      RunInv(states, moves, n - 1);
      StepInv(states[n - 1], moves[n - 1].t, moves[n - 1].a, states[n]);
    }
  }

  // ---------------------------------------------------------------------------------------------------
  // What holds in every run

  /** t has returned from more locks than unlocks and is not finishing its last unlock. */
  predicate Holds(s: State, t: Tid) {
    t in s.pcs && Balance(s.log, t) >= 1 && !s.pcs[t].UnlockExchange? && !s.pcs[t].UnlockWake?
  }

  /** At most one thread holds the lock; the word's id bits name it and `recursion` is its lock depth. A lock that
      is not recursive is never held more than once. */
  lemma MutualExclusion(states: seq<State>, moves: seq<Move>, n: nat, t: Tid, u: Tid)
    requires IsRun(states, moves) && n < |states| && Holds(states[n], t)
    ensures Holds(states[n], u) ==> t == u
    ensures IdBits(states[n].word) == t && states[n].recursion == Balance(states[n].log, t)
    ensures states[n].kind != Recursive ==> Balance(states[n].log, t) == 1
  {
    RunInv(states, moves, n);
    assert DepthOk(states[n], t);
    if Holds(states[n], u) {
      assert DepthOk(states[n], u);
    }
  }

  /** Conversely a thread the word names holds the lock, is just taking it or is just giving it up. */
  lemma NamedThreadHolds(states: seq<State>, moves: seq<Move>, n: nat)
    requires IsRun(states, moves) && n < |states| && states[n].word != 0
    ensures 0 < IdBits(states[n].word) < FLAG_WAITING && IdBits(states[n].word) in states[n].pcs
    ensures var t := IdBits(states[n].word);
            Holds(states[n], t) || states[n].pcs[t].SetRecursion? || states[n].pcs[t].UnlockExchange?
  {
    RunInv(states, moves, n);
    assert DepthOk(states[n], IdBits(states[n].word)) && PcOk(states[n], IdBits(states[n].word));
  }

  /** No lost wakeup: while anyone sleeps, the word carries the waiting flag or a wake-up is on its way. */
  lemma NoLostWakeup(states: seq<State>, moves: seq<Move>, n: nat)
    requires IsRun(states, moves) && n < |states|
    ensures Sleepers(states[n]) ==> Waiting(states[n].word) || WakePending(states[n])
    ensures states[n].word == 0 && !WakePending(states[n]) ==> !Sleepers(states[n])
  {
    RunInv(states, moves, n);
  }

  /** Behind every sleeper there is another thread, itself awake, that will wake it: one about to call wake_all, or
      the owner, whose unlock will find the flag. */
  lemma SleeperHasWaker(states: seq<State>, moves: seq<Move>, n: nat, t: Tid) returns (u: Tid)
    requires IsRun(states, moves) && n < |states| && t in states[n].pcs && states[n].pcs[t].Parked?
    ensures u != t && u in states[n].pcs && !states[n].pcs[u].Parked?
    ensures states[n].pcs[u].UnlockWake? || (Owns(states[n], u) && Waiting(states[n].word))
  {
    RunInv(states, moves, n);
    var s := states[n];
    if Waiting(s.word) {
      u := IdBits(s.word);
      assert PcOk(s, u) && PcOk(s, t);
    } else {
      u :| u in s.pcs && s.pcs[u].UnlockWake?;
    }
  }

  lemma StepReturns(s: State, t: Tid, a: Action)
    requires Inv(s) && Enabled(s, t, a) && |Step(s, t, a).log| > |s.log|
    ensures Step(s, t, a).log[..|s.log|] == s.log
    ensures var e := Step(s, t, a).log[|s.log|];
            && e.t == t
            && (e.result == Ok && e.op != Unlock ==> Owns(Step(s, t, a), t))
            && (e.result == Ok && e.op == Unlock ==> Balance(s.log, t) >= 1)
            && (e.result == EDEADLK ==> e.op != Unlock && s.kind == ErrorCheck && Owns(s, t))
            && (e.result == EBUSY ==> e.op == TryLock && s.word != 0 && !Owns(s, t))
            && (e.result == EPERM ==> e.op == Unlock && s.kind != Normal && !Owns(s, t))
  {
    assert PcOk(s, t) && DepthOk(s, t);
  }

  /** What each return value means in a run, at the move that produces it: a successful lock leaves the caller owning
      the lock, a successful unlock undoes one, and each error code occurs only in the situation it names. */
  lemma ReturnMeaning(states: seq<State>, moves: seq<Move>, n: nat)
    requires IsRun(states, moves) && n < |moves| && |states[n + 1].log| > |states[n].log|
    ensures states[n + 1].log[..|states[n].log|] == states[n].log
    ensures var s, t, e := states[n], moves[n].t, states[n + 1].log[|states[n].log|];
            && e.t == t
            && (e.result == Ok && e.op != Unlock ==> Owns(states[n + 1], t))
            && (e.result == Ok && e.op == Unlock ==> Balance(s.log, t) >= 1)
            && (e.result == EDEADLK ==> e.op != Unlock && s.kind == ErrorCheck && Owns(s, t))
            && (e.result == EBUSY ==> e.op == TryLock && s.word != 0 && !Owns(s, t))
            && (e.result == EPERM ==> e.op == Unlock && s.kind != Normal && !Owns(s, t))
  {
    hide Step, Enabled, Inv;
    RunInv(states, moves, n);
    StepReturns(states[n], moves[n].t, moves[n].a);
  }

  lemma StepPanics(s: State, t: Tid, a: Action)
    requires Inv(s) && Enabled(s, t, a) && t in Step(s, t, a).pcs && Step(s, t, a).pcs[t].Panicked?
    ensures s.kind == Normal
    ensures if s.pcs[t].UnlockLoad? then !Owns(s, t) else Owns(s, t)
  {
    assert PcOk(s, t) && DepthOk(s, t);
  }

  /** A thread that panics in a run has misused a normal mutex at that move: it locked what it owned or unlocked what it
      did not. In particular the `recursion >= 1` check never fails. */
  lemma PanicIsMisuse(states: seq<State>, moves: seq<Move>, n: nat, t: Tid)
    requires IsRun(states, moves) && n < |moves| && t in states[n].pcs && t in states[n + 1].pcs
    requires !states[n].pcs[t].Panicked? && states[n + 1].pcs[t].Panicked?
    ensures t == moves[n].t && states[n].kind == Normal
    ensures if states[n].pcs[t].UnlockLoad? then !Owns(states[n], t) else Owns(states[n], t)
  {
    hide Step, Enabled, Inv;
    RunInv(states, moves, n);
    if t != moves[n].t {
      StepFrame(states[n], moves[n].t, moves[n].a, t);
    } else {
      StepPanics(states[n], t, moves[n].a);
    }
  }

  // ---------------------------------------------------------------------------------------------------
  // What a call does

  /** The code a thread runs belongs to a call of `op`. */
  predicate Serves(pc: Pc, op: Op) {
    match pc
    case Idle => false
    case LockCas => op == Lock
    case LockMark(_) => op == Lock
    case LockWait(_) => op == Lock
    case Parked => op == Lock
    case TryCas => op == TryLock
    case SetRecursion(o) => op == o
    case BumpRecursion(o) => op == o
    case Panicked => true
    case _ => op == Unlock
  }

  /** The results each call can have. */
  predicate Answers(op: Op, result: Errno) {
    match op
    case Lock => result == Ok || result == EDEADLK
    case TryLock => result == Ok || result == EDEADLK || result == EBUSY
    case Unlock => result == Ok || result == EPERM
  }

  /** No return of t is logged between the two states. */
  ghost predicate Unanswered(before: State, after: State, t: Tid) {
    forall k | |before.log| <= k < |after.log| :: after.log[k].t != t
  }

  lemma BeginServes(s: State, t: Tid, op: Op)
    requires Enabled(s, t, Begin(op))
    ensures var s' := Step(s, t, Begin(op)); s'.log == s.log && t in s'.pcs && Serves(s'.pcs[t], op)
  {}

  lemma OwnStepServes(s: State, t: Tid, a: Action, op: Op)
    requires Inv(s) && Enabled(s, t, a) && Serves(s.pcs[t], op)
    ensures var s' := Step(s, t, a);
            && t in s'.pcs
            && if s'.log == s.log then Serves(s'.pcs[t], op)
               else s'.pcs[t].Idle? && exists r :: Answers(op, r) && s'.log == s.log + [Returned(t, op, r)]
  {
    assert PcOk(s, t);
    var s' := Step(s, t, a);
    if s'.log != s.log {
      var r := s'.log[|s.log|].result;
      assert Answers(op, r) && s'.log == s.log + [Returned(t, op, r)];
    }
  }

  lemma StepServes(s: State, t: Tid, a: Action, u: Tid, op: Op)
    requires Inv(s) && Enabled(s, t, a) && u in s.pcs && Serves(s.pcs[u], op)
    ensures var s' := Step(s, t, a);
            && s.log <= s'.log && u in s'.pcs
            && (|s'.log| > |s.log| && s'.log[|s.log|].t == u ==>
                  s'.log[|s.log|].op == op && Answers(op, s'.log[|s.log|].result))
            && (Unanswered(s, s', u) ==> Serves(s'.pcs[u], op))
  {
    hide Inv, Step, Enabled;
    StepLog(s, t, a);
    var s' := Step(s, t, a);
    if u == t {
      OwnStepServes(s, t, a, op);
      if s'.log != s.log {
        assert s'.log[|s.log|].t == t;
      }
    } else {
      StepFrame(s, t, a, u);
    }
  }

  lemma UnansweredBefore(s0: State, s1: State, s2: State, t: Tid)
    requires Unanswered(s0, s2, t) && s1.log <= s2.log
    ensures Unanswered(s0, s1, t)
  {
    assert forall k | 0 <= k < |s1.log| :: s2.log[k] == s1.log[k];
  }

  /** A call that has begun goes on, in its own code, until a return of that very call is logged. */
  lemma {:induction false} CallServed(states: seq<State>, moves: seq<Move>, i: nat, n: nat)
    requires IsRun(states, moves) && i < n < |states| && moves[i].a.Begin?
    requires Unanswered(states[i], states[n], moves[i].t)
    ensures states[i].log <= states[n].log
    ensures moves[i].t in states[n].pcs && Serves(states[n].pcs[moves[i].t], moves[i].a.op)
    decreases n
  {
    hide Inv, Step, Enabled, Initial, Serves;
    var t, op := moves[i].t, moves[i].a.op;
    if n == i + 1 {
      BeginServes(states[i], t, op);
    } else {
      RunInv(states, moves, n - 1);
      StepLog(states[n - 1], moves[n - 1].t, moves[n - 1].a);
      assert states[n - 1 + 1] == Step(states[n - 1], moves[n - 1].t, moves[n - 1].a);
      UnansweredBefore(states[i], states[n - 1], states[n], t);
      CallServed(states, moves, i, n - 1);
      StepServes(states[n - 1], moves[n - 1].t, moves[n - 1].a, t, op);
    }
  }

  /** In every run, the next return of a thread after it begins a call is a return of that call, with a result the call
      can have: a lock never answers EBUSY. Until then it is busy, and asleep only in a lock. */
  lemma CallAnswered(states: seq<State>, moves: seq<Move>, i: nat, n: nat, t: Tid, op: Op)
    requires IsRun(states, moves) && i < n < |states| && moves[i] == Move(t, Begin(op))
    requires Unanswered(states[i], states[n], t)
    ensures t in states[n].pcs && !states[n].pcs[t].Idle? && (states[n].pcs[t].Parked? ==> op == Lock)
    ensures n < |moves| && |states[n + 1].log| > |states[n].log| && states[n + 1].log[|states[n].log|].t == t ==>
              var e := states[n + 1].log[|states[n].log|]; e.op == op && Answers(op, e.result)
  {
    hide Inv, Step, Enabled, Initial, Answers;
    CallServed(states, moves, i, n);
    if n < |moves| {
      RunInv(states, moves, n);
      StepServes(states[n], moves[n].t, moves[n].a, t, op);
    }
  }

  // A call that nobody interferes with --------------------------------------------------------------------

  /** t takes up to n steps of its own, until it returns, sleeps or panics. */
  function Alone(s: State, t: Tid, n: nat): State
    requires t in s.pcs
    decreases n
  {
    if n == 0 || !Enabled(s, t, Run) then s else Alone(Step(s, t, Run), t, n - 1)
  }

  function CallAlone(s: State, t: Tid, op: Op): State
    requires t in s.pcs && s.pcs[t].Idle?
  {
    Alone(Step(s, t, Begin(op)), t, 4)
  }

  function Logged(s: State, t: Tid, op: Op, result: Errno): State {
    s.(log := s.log + [Returned(t, op, result)])
  }

  function WithFlag(word: nat): nat {
    if Waiting(word) then word else word + FLAG_WAITING
  }

  /** A free mutex is taken. */
  lemma FreeMutexTaken(s: State, t: Tid, op: Op)
    requires t in s.pcs && s.pcs[t].Idle? && op != Unlock && s.word == 0
    ensures CallAlone(s, t, op) == Logged(s.(word := t, recursion := 1), t, op, Ok)
  {
    hide WakeAll;
    var s1 := Step(s, t, Begin(op));
    var s2 := Step(s1, t, Run);
    assert s2 == s.(word := t, pcs := s.pcs[t := SetRecursion(op)]);
    assert Alone(s1, t, 4) == Alone(s2, t, 3);
    var s3 := Step(s2, t, Run);
    assert s3.pcs == s.pcs;
    assert Alone(s2, t, 3) == Alone(s3, t, 2) == s3;
  }

  /** A thread that owns the mutex gets what the kind says. */
  lemma OwnedMutexRelocked(s: State, t: Tid, op: Op)
    requires t in s.pcs && s.pcs[t].Idle? && op != Unlock && Owns(s, t)
    ensures CallAlone(s, t, op) ==
            match s.kind
            case Recursive => Logged(s.(recursion := s.recursion + 1), t, op, Ok)
            case ErrorCheck => Logged(s, t, op, EDEADLK)
            case Normal => Goto(s, t, Panicked)
  {
    hide WakeAll;
    var s1 := Step(s, t, Begin(op));
    var s2 := Step(s1, t, Run);
    assert Alone(s1, t, 4) == Alone(s2, t, 3);
    if s.kind == Recursive {
      assert s2.pcs == s.pcs[t := BumpRecursion(op)];
      var s3 := Step(s2, t, Run);
      assert s3.pcs == s.pcs;
      assert Alone(s2, t, 3) == Alone(s3, t, 2) == s3;
    } else if s.kind == ErrorCheck {
      assert s2.pcs == s.pcs;
    } else {
      assert s2.pcs == s.pcs[t := Panicked];
    }
  }

  /** A mutex of another thread makes a trylock fail, and a lock sleep with the waiting flag set. */
  lemma TakenMutexBlocks(s: State, t: Tid, op: Op)
    requires t in s.pcs && s.pcs[t].Idle? && op != Unlock && s.word != 0 && !Owns(s, t)
    ensures CallAlone(s, t, op) ==
            if op == TryLock then Logged(s, t, op, EBUSY)
            else s.(word := WithFlag(s.word), pcs := s.pcs[t := Parked])
  {
    hide WakeAll;
    var s1 := Step(s, t, Begin(op));
    var s2 := Step(s1, t, Run);
    assert Alone(s1, t, 4) == Alone(s2, t, 3);
    if op == TryLock {
      assert s2.pcs == s.pcs;
    } else if Waiting(s.word) {
      assert s2.pcs == s.pcs[t := LockWait(s.word)];
      assert Step(s2, t, Run).pcs == s.pcs[t := Parked];
    } else {
      assert s2.pcs == s.pcs[t := LockMark(s.word)];
      MarkedThenParked(s, s2, t);
    }
  }

  lemma MarkedThenParked(s: State, s2: State, t: Tid)
    requires t in s.pcs && s2 == s.(pcs := s.pcs[t := LockMark(s.word)]) && !Waiting(s.word)
    ensures Alone(s2, t, 3) == s.(word := WithFlag(s.word), pcs := s.pcs[t := Parked])
  {
    hide WakeAll;
    var s3 := Step(s2, t, Run);
    assert s3 == s.(word := WithFlag(s.word), pcs := s.pcs[t := LockWait(WithFlag(s.word))]);
    assert Alone(s2, t, 3) == Alone(s3, t, 2);
    var s4 := Step(s3, t, Run);
    assert s4.pcs == s.pcs[t := Parked];
    assert Alone(s3, t, 2) == Alone(s4, t, 1) == s4;
  }

  /** An unlock by a thread that does not own the mutex. */
  lemma ForeignUnlockRefused(s: State, t: Tid)
    requires t in s.pcs && s.pcs[t].Idle? && !Owns(s, t)
    ensures CallAlone(s, t, Unlock) ==
            if s.kind == Normal then Goto(s, t, Panicked) else Logged(s, t, Unlock, EPERM)
  {
    hide WakeAll;
    var s1 := Step(s, t, Begin(Unlock));
    var s2 := Step(s1, t, Run);
    assert Alone(s1, t, 4) == Alone(s2, t, 3);
    assert s2.pcs == s.pcs[t := if s.kind == Normal then Panicked else Idle];
    assert s.kind != Normal ==> s2.pcs == s.pcs;
  }

  /** An unlock by the owner drops one level; the last one frees the mutex and leaves nobody asleep that the flag stood
      for. */
  lemma OwnerUnlocks(s: State, t: Tid)
    requires t in s.pcs && s.pcs[t].Idle? && Owns(s, t) && s.recursion >= 1
    ensures CallAlone(s, t, Unlock) ==
            if s.recursion > 1 then Logged(s.(recursion := s.recursion - 1), t, Unlock, Ok)
            else Logged(s.(word := 0, recursion := 0, pcs := if Waiting(s.word) then WakeAll(s.pcs) else s.pcs),
                        t, Unlock, Ok)
  {
    hide WakeAll;
    var s1 := Step(s, t, Begin(Unlock));
    var s2 := Step(s1, t, Run);
    assert s2 == s.(pcs := s.pcs[t := UnlockDec]);
    assert Alone(s1, t, 4) == Alone(s2, t, 3);
    var s3 := Step(s2, t, Run);
    assert Alone(s2, t, 3) == Alone(s3, t, 2);
    if s.recursion > 1 {
      assert s3.pcs == s.pcs;
    } else {
      assert s3 == s.(recursion := 0, pcs := s.pcs[t := UnlockExchange]);
      LastUnlockFrees(s, s3, t);
    }
  }

  lemma LastUnlockFrees(s: State, s3: State, t: Tid)
    requires t in s.pcs && s.pcs[t].Idle? && s3 == s.(recursion := 0, pcs := s.pcs[t := UnlockExchange])
    ensures Alone(s3, t, 2) ==
            Logged(s.(word := 0, recursion := 0, pcs := if Waiting(s.word) then WakeAll(s.pcs) else s.pcs),
                   t, Unlock, Ok)
  {
    var s4 := Step(s3, t, Run);
    assert Alone(s3, t, 2) == Alone(s4, t, 1);
    if Waiting(s.word) {
      assert s4 == s.(word := 0, recursion := 0, pcs := s.pcs[t := UnlockWake]);
      var s5 := Step(s4, t, Run);
      assert s5.pcs == WakeAll(s.pcs);
      assert Alone(s4, t, 1) == s5;
    } else {
      assert s4.pcs == s.pcs;
    }
  }

  /** wake_all wakes exactly the sleepers. */
  lemma WakeAllMeaning(pcs: map<Tid, Pc>, u: Tid)
    requires u in pcs
    ensures u in WakeAll(pcs) && WakeAll(pcs)[u] == if pcs[u] == Parked then LockCas else pcs[u]
  {}
}
