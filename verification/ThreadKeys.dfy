/** Thread-specific data of src/internal/thread.cpp: the key operations on the global table and the calling thread's
    slots, and the destructor passes at thread exit. Every operation holds KEYS_MUTEX, so it is one step. */
module ThreadKeys {

  const PTHREAD_KEYS_MAX: nat := 1024
  const PTHREAD_DESTRUCTOR_ITERATIONS: nat := 4

  type Tid = nat
  type Pointer = nat        // 0 is the null pointer

  datatype Key = Key(destructor: Pointer, generation: int, used: bool)
  datatype LocalKey = LocalKey(generation: int, value: Pointer)

  /** The global table and each thread's own slots. */
  datatype Table = Table(keys: seq<Key>, locals: map<Tid, seq<LocalKey>>)
  {
    predicate Valid() {
      |keys| == PTHREAD_KEYS_MAX && forall t | t in locals :: |locals[t]| == PTHREAD_KEYS_MAX
    }
  }

  datatype Errno = Ok | EAGAIN | EINVAL

  datatype GetResult = Panic | Value(value: Pointer)

  // ---------------------------------------------------------------------------------------------------
  // The operations as functions of the table

  /** The first unused slot at or after i. */
  function FirstUnused(keys: seq<Key>, i: nat): (k: nat)
    requires i <= |keys|
    ensures i <= k <= |keys|
    ensures k < |keys| ==> !keys[k].used
    ensures forall j | i <= j < k :: keys[j].used
    decreases |keys| - i
  {
    if i == |keys| || !keys[i].used then i else FirstUnused(keys, i + 1)
  }

  function Created(tb: Table, destructor: Pointer): Table {
    var k := FirstUnused(tb.keys, 0);
    if k == |tb.keys| then tb
    else tb.(keys := tb.keys[k := Key(destructor, tb.keys[k].generation + 1, true)])
  }

  function Deleted(tb: Table, k: nat): Table {
    if k >= |tb.keys| || !tb.keys[k].used then tb
    else tb.(keys := tb.keys[k := tb.keys[k].(used := false, destructor := 0)])
  }

  predicate ValidKey(tb: Table, k: nat) {
    k < |tb.keys| && tb.keys[k].used
  }

  function WithLocal(tb: Table, t: Tid, k: nat, l: LocalKey): Table
    requires t in tb.locals && k < |tb.locals[t]|
  {
    tb.(locals := tb.locals[t := tb.locals[t][k := l]])
  }

  /** Reading a key first forgets a value left over from an earlier incarnation of its slot. */
  function AfterGet(tb: Table, t: Tid, k: nat): Table
    requires tb.Valid() && t in tb.locals && ValidKey(tb, k)
  {
    var g := tb.keys[k].generation;
    if tb.locals[t][k].generation != g then WithLocal(tb, t, k, LocalKey(g, 0)) else tb
  }

  function AfterSet(tb: Table, t: Tid, k: nat, v: Pointer): Table
    requires tb.Valid() && t in tb.locals && ValidKey(tb, k)
  {
    WithLocal(tb, t, k, LocalKey(tb.keys[k].generation, v))
  }

  // ---------------------------------------------------------------------------------------------------
  // The operations in place

  /** The KEYS array and the key slots in the threads' control blocks. */
  class KeyStore {
    const keys: array<Key>
    var locals: map<Tid, seq<LocalKey>>

    ghost predicate Valid()
      reads this, keys
    {
      Contents().Valid()
    }

    ghost function Contents(): Table
      reads this, keys
    {
      Table(keys[..], locals)
    }

    constructor (threads: set<Tid>)
      ensures Valid() && locals.Keys == threads && fresh(keys)
      ensures forall k | 0 <= k < PTHREAD_KEYS_MAX :: keys[k] == Key(0, 0, false)
      ensures forall t | t in threads :: forall k | 0 <= k < PTHREAD_KEYS_MAX :: locals[t][k] == LocalKey(0, 0)
    {
      keys := new Key[PTHREAD_KEYS_MAX](_ => Key(0, 0, false));
      locals := map t | t in threads :: seq(PTHREAD_KEYS_MAX, _ => LocalKey(0, 0));
    }

    /** `thread_key_create` */
    method Create(destructor: Pointer) returns (status: Errno, key: nat)
      requires Valid()
      modifies keys
      ensures Valid()
      ensures Contents() == Created(old(Contents()), destructor)
      ensures status == Ok <==> exists k | 0 <= k < PTHREAD_KEYS_MAX :: !old(keys[k].used)
      ensures status == Ok ==> key == FirstUnused(old(keys[..]), 0) < PTHREAD_KEYS_MAX
      ensures status == Ok || status == EAGAIN
    {
      ghost var k0 := FirstUnused(keys[..], 0);
      var i := 0;
      while i < PTHREAD_KEYS_MAX
        invariant 0 <= i <= PTHREAD_KEYS_MAX
        invariant Valid() && keys[..] == old(keys[..])
        invariant forall j | 0 <= j < i :: keys[j].used
        invariant FirstUnused(keys[..], i) == k0
      {
        if !keys[i].used {
          keys[i] := Key(destructor, keys[i].generation + 1, true);
          return Ok, i;
        }
        i := i + 1;
      }
      return EAGAIN, 0;
    }

    /** `thread_key_delete` */
    method Delete(key: nat) returns (status: Errno)
      requires Valid()
      modifies keys
      ensures Valid()
      ensures Contents() == Deleted(old(Contents()), key)
      ensures status == if ValidKey(old(Contents()), key) then Ok else EINVAL
    {
      if key >= PTHREAD_KEYS_MAX || !keys[key].used {
        return EINVAL;
      }
      keys[key] := keys[key].(used := false, destructor := 0);
      return Ok;
    }

    /** `thread_getspecific` for thread t */
    method GetSpecific(t: Tid, key: nat) returns (r: GetResult)
      requires Valid() && t in locals
      modifies this`locals
      ensures Valid()
      ensures ValidKey(old(Contents()), key) ==>
                && Contents() == AfterGet(old(Contents()), t, key)
                && r == Value(locals[t][key].value)
      ensures !ValidKey(old(Contents()), key) ==> r == Panic && Contents() == old(Contents())
    {
      if key >= PTHREAD_KEYS_MAX || !keys[key].used {
        return Panic;
      }
      if locals[t][key].generation != keys[key].generation {
        locals := locals[t := locals[t][key := LocalKey(keys[key].generation, 0)]];
      }
      return Value(locals[t][key].value);
    }

    /** `thread_setspecific` for thread t */
    method SetSpecific(t: Tid, key: nat, value: Pointer) returns (status: Errno)
      requires Valid() && t in locals
      modifies this`locals
      ensures Valid()
      ensures ValidKey(old(Contents()), key) ==> status == Ok && Contents() == AfterSet(old(Contents()), t, key, value)
      ensures !ValidKey(old(Contents()), key) ==> status == EINVAL && Contents() == old(Contents())
    {
      if key >= PTHREAD_KEYS_MAX || !keys[key].used {
        return EINVAL;
      }
      if locals[t][key].generation != keys[key].generation {
        locals := locals[t := locals[t][key := locals[t][key].(generation := keys[key].generation)]];
      }
      locals := locals[t := locals[t][key := locals[t][key].(value := value)]];
      assert locals[t] == old(locals[t])[key := LocalKey(keys[key].generation, value)];
      assert locals == old(locals)[t := locals[t]];
      return Ok;
    }
  }

  // ---------------------------------------------------------------------------------------------------
  // Whole runs, with the destructor passes

  /** An incarnation of a slot as one thread sees it. */
  datatype Incarnation = Incarnation(t: Tid, slot: nat, generation: int)

  /** Where a thread stands in thread_call_destructors. `Captured` is after the check under the mutex, with the
      destructor copied; `InDestructor` is inside the call. */
  datatype ExitPc =
    | Running
    | Scanning(pass: nat, slot: nat)
    | Captured(pass: nat, slot: nat, destructor: Pointer)
    | InDestructor(pass: nat, slot: nat)
    | Exited

  datatype Call = Call(t: Tid, slot: nat, generation: int, destructor: Pointer, value: Pointer)

  /** `stored` is the abstract map the implementation refines: the value last stored under each incarnation.
      `registered` is the destructor each incarnation was created with. Both only record history. */
  datatype System = System(
    table: Table, exits: map<Tid, ExitPc>, calls: seq<Call>,
    stored: map<Incarnation, Pointer>, registered: map<(nat, int), Pointer>)

  function Stored(sys: System, i: Incarnation): Pointer {
    if i in sys.stored then sys.stored[i] else 0
  }

  datatype Action =
    | Create(destructor: Pointer)
    | Delete(key: nat)
    | Get(key: nat)
    | Set(key: nat, value: Pointer)
    | BeginExit
    | ExitStep
    | DestructorReturns

  predicate Enabled(sys: System, t: Tid, a: Action) {
    && sys.table.Valid() && sys.exits.Keys == sys.table.locals.Keys && t in sys.exits
    && match a
       case BeginExit => sys.exits[t].Running?
       case ExitStep => sys.exits[t].Captured? || (sys.exits[t].Scanning? && sys.exits[t].slot < PTHREAD_KEYS_MAX)
       case DestructorReturns => sys.exits[t].InDestructor?
       case _ => sys.exits[t].Running? || sys.exits[t].InDestructor?
  }

  /** The loop counters after a slot is done. */
  function NextSlot(pass: nat, slot: nat): ExitPc {
    if slot + 1 < PTHREAD_KEYS_MAX then Scanning(pass, slot + 1)
    else if pass + 1 < PTHREAD_DESTRUCTOR_ITERATIONS then Scanning(pass + 1, 0)
    else Exited
  }

  /** The test made under the mutex before a destructor is called. */
  predicate Destructible(tb: Table, t: Tid, k: nat)
    requires tb.Valid() && t in tb.locals && k < PTHREAD_KEYS_MAX
  {
    tb.keys[k].used && tb.keys[k].generation == tb.locals[t][k].generation && tb.locals[t][k].value != 0
  }

  function Step(sys: System, t: Tid, a: Action): System
    requires Enabled(sys, t, a)
  {
    var tb := sys.table;
    match a
    case Create(destructor) =>
      var k := FirstUnused(tb.keys, 0);
      if k == |tb.keys| then sys
      else sys.(table := Created(tb, destructor),
                registered := sys.registered[(k, tb.keys[k].generation + 1) := destructor])
    case Delete(k) => sys.(table := Deleted(tb, k))
    case Get(k) => if ValidKey(tb, k) then sys.(table := AfterGet(tb, t, k)) else sys
    case Set(k, v) =>
      if !ValidKey(tb, k) then sys
      else sys.(table := AfterSet(tb, t, k, v),
                stored := sys.stored[Incarnation(t, k, tb.keys[k].generation) := v])
    case BeginExit => sys.(exits := sys.exits[t := Scanning(0, 0)])
    case DestructorReturns =>
      sys.(exits := sys.exits[t := NextSlot(sys.exits[t].pass, sys.exits[t].slot)])
    case ExitStep =>
      match sys.exits[t]
      case Scanning(pass, k) =>
        sys.(exits := sys.exits[t :=
          if Destructible(tb, t, k) && tb.keys[k].destructor != 0 then Captured(pass, k, tb.keys[k].destructor)
          else NextSlot(pass, k)])
      case Captured(pass, k, destructor) =>
        if k >= PTHREAD_KEYS_MAX then sys
        else
          var l := tb.locals[t][k];
          sys.(table := WithLocal(tb, t, k, l.(value := 0)),
               exits := sys.exits[t := InDestructor(pass, k)],
               calls := sys.calls + [Call(t, k, l.generation, destructor, l.value)],
               stored := sys.stored[Incarnation(t, k, l.generation) := 0])
  }

  predicate Initial(sys: System) {
    && sys.table.Valid() && sys.exits.Keys == sys.table.locals.Keys
    && sys.calls == [] && sys.stored == map[] && sys.registered == map[]
    && (forall k | 0 <= k < PTHREAD_KEYS_MAX :: sys.table.keys[k] == Key(0, 0, false))
    && (forall t | t in sys.exits :: sys.exits[t] == Running)
    && (forall t, k | t in sys.table.locals && 0 <= k < PTHREAD_KEYS_MAX :: sys.table.locals[t][k] == LocalKey(0, 0))
  }

  datatype Move = Move(t: Tid, a: Action)

  ghost predicate IsRun(states: seq<System>, moves: seq<Move>) {
    && |states| == |moves| + 1
    && Initial(states[0])
    && forall i :: 0 <= i < |moves| ==>
         Enabled(states[i], moves[i].t, moves[i].a) && states[i + 1] == Step(states[i], moves[i].t, moves[i].a)
  }

  // Invariant --------------------------------------------------------------------------------------------

  /** A thread's slot is never ahead of the global one; it holds what was stored under its own incarnation, and
      nothing has been stored under a later one. */
  ghost predicate SlotOk(sys: System, t: Tid, k: nat)
    requires sys.table.Valid() && t in sys.table.locals && k < PTHREAD_KEYS_MAX
  {
    var l := sys.table.locals[t][k];
    && l.generation <= sys.table.keys[k].generation
    && l.value == Stored(sys, Incarnation(t, k, l.generation))
    && forall g: int | g > l.generation :: Stored(sys, Incarnation(t, k, g)) == 0
  }

  predicate KeyOk(sys: System, k: nat)
    requires sys.table.Valid() && k < PTHREAD_KEYS_MAX
  {
    var key := sys.table.keys[k];
    key.used ==> (k, key.generation) in sys.registered && sys.registered[(k, key.generation)] == key.destructor
  }

  predicate ExitOk(sys: System, t: Tid)
    requires sys.table.Valid() && sys.exits.Keys == sys.table.locals.Keys && t in sys.exits
  {
    match sys.exits[t]
    case Scanning(pass, slot) => pass < PTHREAD_DESTRUCTOR_ITERATIONS && slot < PTHREAD_KEYS_MAX
    case InDestructor(pass, slot) => pass < PTHREAD_DESTRUCTOR_ITERATIONS && slot < PTHREAD_KEYS_MAX
    case Captured(pass, slot, destructor) =>
      && pass < PTHREAD_DESTRUCTOR_ITERATIONS && slot < PTHREAD_KEYS_MAX
      && destructor != 0 && sys.table.locals[t][slot].value != 0
      && (slot, sys.table.locals[t][slot].generation) in sys.registered
      && sys.registered[(slot, sys.table.locals[t][slot].generation)] == destructor
    case _ => true
  }

  /** No incarnation beyond the current one has been created. */
  ghost predicate RegisteredOk(sys: System)
    requires sys.table.Valid()
  {
    forall p | p in sys.registered :: 0 <= p.0 < PTHREAD_KEYS_MAX && p.1 <= sys.table.keys[p.0].generation
  }

  /** Every destructor call so far got a non-null value and the destructor of the incarnation it belongs to. */
  ghost predicate CallOk(sys: System, c: Call) {
    && c.value != 0 && c.destructor != 0
    && (c.slot, c.generation) in sys.registered && sys.registered[(c.slot, c.generation)] == c.destructor
  }

  ghost predicate Inv(sys: System) {
    && sys.table.Valid() && sys.exits.Keys == sys.table.locals.Keys
    && (forall t, k | t in sys.table.locals && 0 <= k < PTHREAD_KEYS_MAX :: SlotOk(sys, t, k))
    && (forall k | 0 <= k < PTHREAD_KEYS_MAX :: KeyOk(sys, k))
    && (forall t | t in sys.exits :: ExitOk(sys, t))
    && RegisteredOk(sys)
    && (forall i | 0 <= i < |sys.calls| :: CallOk(sys, sys.calls[i]))
  }

  lemma StepShape(sys: System, t: Tid, a: Action)
    requires Enabled(sys, t, a)
    ensures var sys' := Step(sys, t, a);
            && sys'.table.Valid() && sys'.exits.Keys == sys'.table.locals.Keys == sys.exits.Keys
  {}

  lemma StepSlotOk(sys: System, t: Tid, a: Action, u: Tid, k: nat)
    requires Inv(sys) && Enabled(sys, t, a) && u in sys.exits && k < PTHREAD_KEYS_MAX
    ensures Step(sys, t, a).table.Valid() && u in Step(sys, t, a).table.locals && SlotOk(Step(sys, t, a), u, k)
  {
    hide CallOk, KeyOk;
    StepShape(sys, t, a);
    assert SlotOk(sys, u, k);
    assert ExitOk(sys, t);
  }

  lemma StepKeyOk(sys: System, t: Tid, a: Action, k: nat)
    requires Inv(sys) && Enabled(sys, t, a) && k < PTHREAD_KEYS_MAX
    ensures Step(sys, t, a).table.Valid() && KeyOk(Step(sys, t, a), k)
  {
    StepShape(sys, t, a);
    assert KeyOk(sys, k);
  }

  /** Creating a key registers an incarnation that did not exist before. */
  lemma StepRegistered(sys: System, t: Tid, a: Action)
    requires Inv(sys) && Enabled(sys, t, a)
    ensures Step(sys, t, a).table.Valid() && RegisteredOk(Step(sys, t, a))
    ensures forall p | p in sys.registered ::
              p in Step(sys, t, a).registered && Step(sys, t, a).registered[p] == sys.registered[p]
  {
    hide Enabled, SlotOk;
    StepShape(sys, t, a);
  }

  lemma StepExitOk(sys: System, t: Tid, a: Action, u: Tid)
    requires Inv(sys) && Enabled(sys, t, a) && u in sys.exits
    ensures var sys' := Step(sys, t, a);
            sys'.table.Valid() && sys'.exits.Keys == sys'.table.locals.Keys && u in sys'.exits && ExitOk(sys', u)
  {
    StepShape(sys, t, a);
    StepRegistered(sys, t, a);
    assert ExitOk(sys, u) && ExitOk(sys, t);
    if sys.exits[t].Scanning? && a.ExitStep? {
      assert KeyOk(sys, sys.exits[t].slot);
    }
  }

  lemma StepCalls(sys: System, t: Tid, a: Action)
    requires Inv(sys) && Enabled(sys, t, a)
    ensures forall i | 0 <= i < |Step(sys, t, a).calls| :: CallOk(Step(sys, t, a), Step(sys, t, a).calls[i])
  {
    StepRegistered(sys, t, a);
    assert ExitOk(sys, t);
    var sys' := Step(sys, t, a);
    forall i | 0 <= i < |sys'.calls| ensures CallOk(sys', sys'.calls[i]) {
      if i < |sys.calls| {
        assert CallOk(sys, sys.calls[i]);
      }
    }
  }

  /** Every operation, exit step and destructor call keeps the invariant. */
  lemma StepInv(sys: System, t: Tid, a: Action, sys': System)
    requires Inv(sys) && Enabled(sys, t, a) && sys' == Step(sys, t, a)
    ensures Inv(sys')
  {
    StepShape(sys, t, a);
    StepRegistered(sys, t, a);
    StepCalls(sys, t, a);
    forall u, k | u in sys'.table.locals && 0 <= k < PTHREAD_KEYS_MAX ensures SlotOk(sys', u, k) {
      StepSlotOk(sys, t, a, u, k);
    }
    forall k | 0 <= k < PTHREAD_KEYS_MAX ensures KeyOk(sys', k) {
      StepKeyOk(sys, t, a, k);
    }
    forall u | u in sys'.exits ensures ExitOk(sys', u) {
      StepExitOk(sys, t, a, u);
    }
  }

  lemma {:induction false} RunInv(states: seq<System>, moves: seq<Move>, n: nat)
    requires IsRun(states, moves) && n < |states|
    ensures Inv(states[n])
  {
    if n > 0 {
      RunInv(states, moves, n - 1);
      StepInv(states[n - 1], moves[n - 1].t, moves[n - 1].a, states[n]);
    }
  }

  // ---------------------------------------------------------------------------------------------------
  // What holds in every run

  /** thread_getspecific reads the abstract map at the current incarnation: it returns the value this thread last
      stored under it and never one stored under an earlier incarnation of the slot. */
  lemma GetReadsOwnIncarnation(states: seq<System>, moves: seq<Move>, n: nat, t: Tid, k: nat)
    requires IsRun(states, moves) && n < |states| && t in states[n].exits && ValidKey(states[n].table, k)
    ensures states[n].table.Valid() && t in states[n].table.locals
    ensures AfterGet(states[n].table, t, k).locals[t][k].value
            == Stored(states[n], Incarnation(t, k, states[n].table.keys[k].generation))
  {
    RunInv(states, moves, n);
    assert SlotOk(states[n], t, k);
  }

  /** A freshly created incarnation reads as null in every thread, whatever was stored in its slot before. */
  lemma FreshIncarnationIsNull(states: seq<System>, moves: seq<Move>, n: nat, t: Tid, destructor: Pointer, u: Tid)
    requires IsRun(states, moves) && n < |states| && Enabled(states[n], t, Create(destructor)) && u in states[n].exits
    requires FirstUnused(states[n].table.keys, 0) < |states[n].table.keys|
    ensures var k := FirstUnused(states[n].table.keys, 0);
            var sys := Step(states[n], t, Create(destructor));
            && sys.table.Valid() && u in sys.table.locals && ValidKey(sys.table, k)
            && AfterGet(sys.table, u, k).locals[u][k].value == 0
  {
    RunInv(states, moves, n);
    assert SlotOk(states[n], u, FirstUnused(states[n].table.keys, 0));
    StepShape(states[n], t, Create(destructor));
  }

  /** A destructor runs with the value stored under the incarnation it was registered for, even if the key has been
      deleted and its slot reused since the check, and by then the thread's slot is already cleared. */
  lemma DestructorGetsOwnValue(states: seq<System>, moves: seq<Move>, n: nat, t: Tid)
    requires IsRun(states, moves) && n < |states| && Enabled(states[n], t, ExitStep) && states[n].exits[t].Captured?
    ensures var sys, sys' := states[n], Step(states[n], t, ExitStep);
            && |sys'.calls| == |sys.calls| + 1
            && var c := sys'.calls[|sys.calls|];
               && c.t == t && c.slot < PTHREAD_KEYS_MAX
               && c.value == Stored(sys, Incarnation(t, c.slot, c.generation)) != 0
               && (c.slot, c.generation) in sys.registered && c.destructor == sys.registered[(c.slot, c.generation)]
               && sys'.table.Valid() && t in sys'.table.locals && sys'.table.locals[t][c.slot].value == 0
  {
    RunInv(states, moves, n);
    var sys := states[n];
    assert ExitOk(sys, t);
    assert SlotOk(sys, t, sys.exits[t].slot);
    StepShape(sys, t, ExitStep);
  }

  function CallCount(calls: seq<Call>, t: Tid, slot: nat): nat {
    if calls == [] then 0
    else
      var c := calls[|calls| - 1];
      CallCount(calls[..|calls| - 1], t, slot) + if c.t == t && c.slot == slot then 1 else 0
  }

  /** How often the exit loops have gone past a slot. */
  function Visits(pc: ExitPc, slot: nat): nat {
    match pc
    case Running => 0
    case Scanning(pass, k) => if slot < k then pass + 1 else pass
    case Captured(pass, k, _) => if slot < k then pass + 1 else pass
    case InDestructor(pass, k) => if slot <= k then pass + 1 else pass
    case Exited => PTHREAD_DESTRUCTOR_ITERATIONS
  }

  lemma StepCallCount(sys: System, t: Tid, a: Action, sys': System, u: Tid, slot: nat)
    requires Inv(sys) && Enabled(sys, t, a) && sys' == Step(sys, t, a) && u in sys.exits && slot < PTHREAD_KEYS_MAX
    requires CallCount(sys.calls, u, slot) <= Visits(sys.exits[u], slot)
    ensures u in sys'.exits && CallCount(sys'.calls, u, slot) <= Visits(sys'.exits[u], slot)
  {
    hide SlotOk, KeyOk, RegisteredOk, CallOk;
    assert ExitOk(sys, t);
    if sys'.calls != sys.calls {
      assert sys'.calls[..|sys'.calls| - 1] == sys.calls;
    }
  }

  lemma {:induction false} CallsBounded(states: seq<System>, moves: seq<Move>, n: nat, t: Tid, slot: nat)
    requires IsRun(states, moves) && n < |states| && t in states[n].exits && slot < PTHREAD_KEYS_MAX
    ensures CallCount(states[n].calls, t, slot) <= Visits(states[n].exits[t], slot)
  {
    if n > 0 {
      RunInv(states, moves, n - 1);
      StepShape(states[n - 1], moves[n - 1].t, moves[n - 1].a);
      CallsBounded(states, moves, n - 1, t, slot);
      StepCallCount(states[n - 1], moves[n - 1].t, moves[n - 1].a, states[n], t, slot);
    }
  }

  /** A thread can use the keys until it exits and inside its destructors, and one that is exiting always has a move
      until it is done. */
  lemma NeverStuck(states: seq<System>, moves: seq<Move>, n: nat, t: Tid, a: Action)
    requires IsRun(states, moves) && n < |states| && t in states[n].exits
    ensures var sys := states[n];
            match sys.exits[t]
            case Running => a != ExitStep && a != DestructorReturns ==> Enabled(sys, t, a)
            case InDestructor(_, _) => a != ExitStep && a != BeginExit ==> Enabled(sys, t, a)
            case Exited => !Enabled(sys, t, a)
            case _ => Enabled(sys, t, ExitStep)
  {
    hide Step;
    RunInv(states, moves, n);
    assert ExitOk(states[n], t);
  }

  // Every slot gets its turn ------------------------------------------------------------------------------

  /** Move i is the visit of an exiting thread to a slot. */
  ghost predicate VisitsSlot(states: seq<System>, moves: seq<Move>, i: nat, t: Tid, slot: nat)
    requires i < |moves| && i < |states|
  {
    && moves[i] == Move(t, ExitStep)
    && t in states[i].exits && states[i].exits[t].Scanning? && states[i].exits[t].slot == slot
  }

  ghost function VisitCount(states: seq<System>, moves: seq<Move>, n: nat, t: Tid, slot: nat): nat
    requires n <= |moves| && n <= |states|
  {
    if n == 0 then 0
    else VisitCount(states, moves, n - 1, t, slot) + if VisitsSlot(states, moves, n - 1, t, slot) then 1 else 0
  }

  /** How many visits to a slot a thread that stands at pc has behind it. */
  function VisitsDone(pc: ExitPc, slot: nat): nat {
    match pc
    case Running => 0
    case Scanning(pass, k) => if slot < k then pass + 1 else pass
    case Captured(pass, k, _) => if slot <= k then pass + 1 else pass
    case InDestructor(pass, k) => if slot <= k then pass + 1 else pass
    case Exited => 4
  }

  lemma StepVisits(sys: System, t: Tid, a: Action, u: Tid, slot: nat)
    requires Inv(sys) && Enabled(sys, t, a) && u in sys.exits && slot < PTHREAD_KEYS_MAX
    ensures u in Step(sys, t, a).exits
    ensures VisitsDone(Step(sys, t, a).exits[u], slot) == VisitsDone(sys.exits[u], slot)
              + if u == t && a == ExitStep && sys.exits[u].Scanning? && sys.exits[u].slot == slot then 1 else 0
  {
    hide SlotOk, KeyOk, RegisteredOk, CallOk, Destructible;
    assert ExitOk(sys, t);
  }

  /** An exiting thread goes past the slots in turn, in four passes: once it is done each slot has had four visits. */
  lemma {:induction false} EverySlotVisited(states: seq<System>, moves: seq<Move>, n: nat, t: Tid, slot: nat)
    requires IsRun(states, moves) && n < |states| && t in states[n].exits && slot < PTHREAD_KEYS_MAX
    ensures VisitCount(states, moves, n, t, slot) == VisitsDone(states[n].exits[t], slot)
    ensures states[n].exits[t].Exited? ==> VisitCount(states, moves, n, t, slot) == 4
    decreases n
  {
    hide Step, Inv, Enabled;
    if n > 0 {
      RunInv(states, moves, n - 1);
      StepShape(states[n - 1], moves[n - 1].t, moves[n - 1].a);
      EverySlotVisited(states, moves, n - 1, t, slot);
      StepVisits(states[n - 1], moves[n - 1].t, moves[n - 1].a, t, slot);
    }
  }

  /** The thread has stored a value under the key's present incarnation, and that one has a destructor. */
  ghost predicate Due(sys: System, t: Tid, k: nat)
    requires sys.table.Valid() && k < PTHREAD_KEYS_MAX
  {
    var g := sys.table.keys[k].generation;
    && sys.table.keys[k].used && Stored(sys, Incarnation(t, k, g)) != 0
    && (k, g) in sys.registered && sys.registered[(k, g)] != 0
  }

  /** A visit captures the destructor exactly when one is due; otherwise it goes on to the next slot. */
  lemma VisitCaptures(sys: System, t: Tid)
    requires Inv(sys) && Enabled(sys, t, ExitStep) && sys.exits[t].Scanning?
    ensures var k, pc := sys.exits[t].slot, Step(sys, t, ExitStep).exits[t];
            if !Due(sys, t, k) then !pc.Captured?
            else pc == Captured(sys.exits[t].pass, k, sys.registered[(k, sys.table.keys[k].generation)])
  {
    var k := sys.exits[t].slot;
    assert SlotOk(sys, t, k) && KeyOk(sys, k) && ExitOk(sys, t);
  }

  /** What other threads do in between leaves an exiting thread where it is, with what it stored. */
  lemma ExitFrame(sys: System, t: Tid, a: Action, u: Tid)
    requires Enabled(sys, t, a) && u in sys.exits && u != t
    ensures var sys' := Step(sys, t, a);
            && u in sys'.exits && sys'.exits[u] == sys.exits[u]
            && u in sys'.table.locals && sys'.table.locals[u] == sys.table.locals[u]
  {}

  lemma {:induction false} ExitUndisturbed(states: seq<System>, moves: seq<Move>, n: nat, m: nat, t: Tid)
    requires IsRun(states, moves) && n <= m < |states| && t in states[n].exits
    requires forall i | n <= i < m :: moves[i].t != t
    ensures t in states[n].table.locals && t in states[m].exits && t in states[m].table.locals
    ensures states[m].exits[t] == states[n].exits[t] && states[m].table.locals[t] == states[n].table.locals[t]
    decreases m
  {
    hide Step, Inv, Enabled;
    if n < m {
      ExitUndisturbed(states, moves, n, m - 1, t);
      ExitFrame(states[m - 1], moves[m - 1].t, moves[m - 1].a, t);
    } else {
      RunInv(states, moves, n);
      InvShape(states[n]);
    }
  }

  lemma InvShape(sys: System)
    requires Inv(sys)
    ensures sys.table.Valid() && sys.exits.Keys == sys.table.locals.Keys
  {}

  /** A destructor that is due when its slot is visited is called: whatever other threads do in between, the next move
      of the thread calls it with the stored value. */
  lemma DueIsCalled(states: seq<System>, moves: seq<Move>, n: nat, m: nat, t: Tid, k: nat)
    requires IsRun(states, moves) && n < m < |moves| && k < PTHREAD_KEYS_MAX
    requires VisitsSlot(states, moves, n, t, k) && states[n].table.Valid() && Due(states[n], t, k)
    requires moves[m].t == t && forall i | n < i < m :: moves[i].t != t
    ensures var g := states[n].table.keys[k].generation;
            moves[m].a == ExitStep && states[m + 1].calls == states[m].calls
              + [Call(t, k, g, states[n].registered[(k, g)], Stored(states[n], Incarnation(t, k, g)))]
  {
    RunInv(states, moves, n);
    VisitCaptures(states[n], t);
    VisitKeepsSlot(states[n], t);
    ExitUndisturbed(states, moves, n + 1, m, t);
  }

  lemma VisitKeepsSlot(sys: System, t: Tid)
    requires Inv(sys) && Enabled(sys, t, ExitStep) && sys.exits[t].Scanning? && Due(sys, t, sys.exits[t].slot)
    ensures var k, g := sys.exits[t].slot, sys.table.keys[sys.exits[t].slot].generation;
            && t in Step(sys, t, ExitStep).table.locals && Step(sys, t, ExitStep).table.locals[t] == sys.table.locals[t]
            && k < PTHREAD_KEYS_MAX
            && sys.table.locals[t][k] == LocalKey(g, Stored(sys, Incarnation(t, k, g)))
  {
    assert SlotOk(sys, t, sys.exits[t].slot);
  }

  /** At most PTHREAD_DESTRUCTOR_ITERATIONS destructor calls for each slot of an exiting thread. */
  lemma AtMostFourCalls(states: seq<System>, moves: seq<Move>, n: nat, t: Tid, slot: nat)
    requires IsRun(states, moves) && n < |states| && t in states[n].exits && slot < PTHREAD_KEYS_MAX
    ensures CallCount(states[n].calls, t, slot) <= 4
  {
    CallsBounded(states, moves, n, t, slot);
    RunInv(states, moves, n);
    assert ExitOk(states[n], t);
  }
}
