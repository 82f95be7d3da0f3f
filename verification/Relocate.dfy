/** Relocation: `process_relocation`, `relocate` and `relocate_libc` of src/rtld/shared_object.cpp, and the two
    passes over libc in src/rtld/main.cpp. Memory is 64-bit words by address; slots with different addresses do not
    overlap. */
module Relocate {
  import opened Options
  import opened Words
  import Relr

  const MAX_SAVED: nat := 1024        // MAX_SAVED_LIBC_REL_ADDENDS

  // ---------------------------------------------------------------------------------------------------
  // One relocation

  datatype Kind = Relative | Absolute | GlobDat | JumpSlot | TpOff | DtpMod | DtpOff | Copy | IRelative | Unsupported

  /** A resolved symbol: its st_value and what the relocations read of the object that defines it. */
  datatype Definition = Definition(base: Word, value: Word, tlsOffset: Word, initialTls: bool, handle: Word)

  /** The object being relocated, which of its symbols are weak, and what each symbol index resolves to. */
  datatype Env = Env(base: Word, tlsOffset: Word, initialTls: bool, handle: Word, weak: set<nat>,
                     resolved: map<nat, Definition>) {
    /** Symbol index 0 is never looked up. */
    function Lookup(sym: nat): Option<Definition> {
      if sym != 0 && sym in resolved then Some(resolved[sym]) else None
    }
  }

  /** What `process_relocation` does: store a word, report an unresolved symbol, or panic. */
  datatype Effect = Write(value: Word) | Unresolved | Abort

  function Resolve(env: Env, sym: nat, offset: Word): Effect {
    match env.Lookup(sym)
    case Some(d) => Write(Wrap(d.base + d.value + offset))
    case None => if sym in env.weak then Write(0) else Unresolved
  }

  /** `process_relocation` for every type but TLSDESC, with thread-local storage below the thread pointer. */
  function Process(env: Env, kind: Kind, sym: nat, addend: Word): Effect {
    var def := env.Lookup(sym);
    match kind
    case Relative => Write(Wrap(env.base + addend))
    case Absolute => Resolve(env, sym, addend)
    case GlobDat => Resolve(env, sym, 0)
    case JumpSlot => Resolve(env, sym, 0)
    case TpOff =>
      if sym != 0 then
        if def.None? || !def.value.initialTls then Abort
        else Write(Wrap(-(def.value.tlsOffset as int) + def.value.value + addend))
      else if !env.initialTls then Abort
      else Write(Wrap(-(env.tlsOffset as int) + addend))
    case DtpMod => if sym == 0 then Write(env.handle) else if def.None? then Abort else Write(def.value.handle)
    case DtpOff => if def.None? then Abort else Write(Wrap(def.value.value + addend))
    case Copy => Abort
    case IRelative => Abort
    case Unsupported => Abort
  }

  /** What is stored is the address of something loaded. */
  predicate StoresAddress(env: Env, kind: Kind, sym: nat) {
    kind == Relative || ((kind == Absolute || kind == GlobDat || kind == JumpSlot) && env.Lookup(sym).Some?)
  }

  /** The same object and definitions, everything loaded d bytes further on. */
  function Moved(env: Env, d: Word): Env {
    env.(base := Wrap(env.base + d),
         resolved := map s | s in env.resolved :: env.resolved[s].(base := Wrap(env.resolved[s].base + d)))
  }

  /** The addresses a relocation stores move with the load addresses; thread-pointer and block offsets, module
      handles and the zero of a missing weak symbol do not. */
  lemma MovedTogether(env: Env, d: Word, kind: Kind, sym: nat, addend: Word)
    ensures var e, e' := Process(env, kind, sym, addend), Process(Moved(env, d), kind, sym, addend);
            if StoresAddress(env, kind, sym) then e.Write? && e' == Write(Wrap(e.value + d)) else e' == e
  {
    hide Wrap;
    Relr.WrapTwice(env.base + d, addend);
    Relr.WrapTwice(env.base + addend, d);
    if env.Lookup(sym).Some? {
      var def := env.resolved[sym];
      MovedSum(def.base, d, def.value + addend);
      MovedSum(def.base, d, def.value + 0);
    }
  }

  lemma MovedSum(base: Word, d: Word, offset: int)
    ensures Wrap(Wrap(base + d) + offset) == Wrap(Wrap(base + offset) + d)
  {
    hide Wrap;
    Relr.WrapTwice(base + d, offset);
    Relr.WrapTwice(base + offset, d);
    assert base + d + offset == base + offset + d;
  }

  /** A symbol that was found; index 0 stands for none. */
  predicate Found(env: Env, sym: nat) {
    sym != 0 && sym in env.resolved
  }

  predicate Symbolic(kind: Kind) {
    kind == Absolute || kind == GlobDat || kind == JumpSlot
  }

  /** When a relocation stores a word, when it reports its symbol and when it panics. */
  lemma EffectOf(env: Env, kind: Kind, sym: nat, addend: Word)
    ensures var e := Process(env, kind, sym, addend);
            && (e.Unresolved? <==> Symbolic(kind) && !Found(env, sym) && sym !in env.weak)
            && (e.Abort? <==>
                  || kind == Copy || kind == IRelative || kind == Unsupported
                  || (kind == TpOff && !(if sym == 0 then env.initialTls
                                         else Found(env, sym) && env.resolved[sym].initialTls))
                  || (kind == DtpMod && sym != 0 && !Found(env, sym))
                  || (kind == DtpOff && !Found(env, sym)))
  {}

  predicate AddsAddend(env: Env, kind: Kind, sym: nat) {
    kind == Relative || kind == TpOff || kind == DtpOff || (kind == Absolute && Found(env, sym))
  }

  /** A larger addend gives a word larger by as much, or makes no difference at all. */
  lemma AddendAdded(env: Env, kind: Kind, sym: nat, addend: Word, d: Word)
    ensures var e, e' := Process(env, kind, sym, addend), Process(env, kind, sym, Wrap(addend + d));
            if e.Write? && AddsAddend(env, kind, sym) then e' == Write(Wrap(e.value + d)) else e' == e
  {
    hide Wrap;
    MovedSum(addend, d, env.base);
    MovedSum(addend, d, -(env.tlsOffset as int));
    if Found(env, sym) {
      var def := env.resolved[sym];
      MovedSum(addend, d, def.base + def.value);
      MovedSum(addend, d, def.value);
      MovedSum(addend, d, -(def.tlsOffset as int) + def.value);
    }
  }

  predicate AddsValue(env: Env, kind: Kind, sym: nat) {
    (Symbolic(kind) || kind == TpOff || kind == DtpOff) && Found(env, sym)
  }

  /** The definition of sym lies d bytes further on in its object. */
  function ValueMoved(env: Env, sym: nat, d: Word): Env {
    if sym !in env.resolved then env
    else
      var def := env.resolved[sym];
      env.(resolved := env.resolved[sym := def.(value := Wrap(def.value + d))])
  }

  /** So with the value of the symbol. */
  lemma ValueAdded(env: Env, kind: Kind, sym: nat, addend: Word, d: Word)
    ensures var e, e' := Process(env, kind, sym, addend), Process(ValueMoved(env, sym, d), kind, sym, addend);
            if e.Write? && AddsValue(env, kind, sym) then e' == Write(Wrap(e.value + d)) else e' == e
  {
    hide Wrap;
    if Found(env, sym) {
      var def := env.resolved[sym];
      MovedSum(def.value, d, def.base + addend);
      MovedSum(def.value, d, def.base + 0);
      MovedSum(def.value, d, addend);
      MovedSum(def.value, d, -(def.tlsOffset as int) + addend);
    }
  }

  /** The definition of sym lies in an object loaded d bytes further on, with its block d bytes further below the thread
      pointer. */
  function DefinerMoved(env: Env, sym: nat, d: Word): Env {
    if sym !in env.resolved then env
    else
      var def := env.resolved[sym];
      env.(resolved := env.resolved[sym := def.(base := Wrap(def.base + d), tlsOffset := Wrap(def.tlsOffset + d))])
  }

  /** Whose load address and whose block count: those of the object that defines the symbol. */
  lemma DefinerCounts(env: Env, kind: Kind, sym: nat, addend: Word, d: Word)
    ensures var e, e' := Process(env, kind, sym, addend), Process(DefinerMoved(env, sym, d), kind, sym, addend);
            if e.Write? && Found(env, sym) && Symbolic(kind) then e' == Write(Wrap(e.value + d))
            else if e.Write? && Found(env, sym) && kind == TpOff then e'.Write? && e == Write(Wrap(e'.value + d))
            else e' == e
  {
    hide Wrap;
    if Found(env, sym) {
      var def := env.resolved[sym];
      MovedSum(def.base, d, def.value + addend);
      MovedSum(def.base, d, def.value + 0);
      LoweredSum(def.tlsOffset, d, def.value + addend);
    }
  }

  /** The object itself counts only where no symbol is named: for R_RELATIVE, and for R_TPOFF without one. */
  lemma OwnPlaceCounts(env: Env, kind: Kind, sym: nat, addend: Word, d: Word)
    ensures var own := env.(base := Wrap(env.base + d), tlsOffset := Wrap(env.tlsOffset + d));
            var e, e' := Process(env, kind, sym, addend), Process(own, kind, sym, addend);
            if kind == Relative then e.Write? && e' == Write(Wrap(e.value + d))
            else if kind == TpOff && sym == 0 && e.Write? then e'.Write? && e == Write(Wrap(e'.value + d))
            else e' == e
  {
    hide Wrap;
    MovedSum(env.base, d, addend);
    LoweredSum(env.tlsOffset, d, addend);
  }

  lemma LoweredSum(offset: Word, d: Word, rest: int)
    ensures Wrap(-(offset as int) + rest) == Wrap(Wrap(-(Wrap(offset + d) as int) + rest) + d)
  {
    hide Wrap;
    Relr.WrapTwice(-(Wrap(offset + d) as int) + rest, d);
    WrapNegated(offset + d, rest + d);
    assert -(offset as int) + rest == -(offset + d) + (rest + d);
  }

  lemma WrapNegated(x: int, y: int)
    ensures Wrap(-(Wrap(x) as int) + y) == Wrap(-x + y)
  {
    var q := (x - Wrap(x)) / WORD;
    assert x == q * WORD + Wrap(x);
    assert -(Wrap(x) as int) + y == (-x + y) + q * WORD;
    Relr.WrapMultiple(-x + y, q);
  }

  /** Everything at zero, the word is zero; only R_DTPMOD stores something else, the handle of the object that defines
      the symbol. */
  lemma ZeroStored(env: Env, kind: Kind, sym: nat)
    requires env.base == 0 && env.tlsOffset == 0
    requires sym in env.resolved ==>
               var def := env.resolved[sym]; def.base == 0 && def.value == 0 && def.tlsOffset == 0
    ensures var e := Process(env, kind, sym, 0);
            e.Write? ==>
              e.value == if kind != DtpMod then 0 else if sym == 0 then env.handle else env.resolved[sym].handle
  {}

  /** An entry of a RELA table, an entry of a REL table (its addend is in the slot), or a word a RELR table lists. */
  datatype Item =
    | Rela(offset: Word, kind: Kind, sym: nat, addend: Word)
    | Rel(offset: Word, kind: Kind, sym: nat)
    | Relr(addr: Word)

  /** R_COPY and R_IRELATIVE are left to `late_relocate`. */
  predicate Active(item: Item) {
    item.Relr? || (item.kind != Copy && item.kind != IRelative)
  }

  function Slot(base: Word, item: Item): Word {
    if item.Relr? then item.addr else Wrap(base + item.offset)
  }

  /** The addend of the entry has to be kept for a second pass. */
  predicate Saves(item: Item) {
    item.Rel? && Active(item) && item.sym != 0
  }

  // ---------------------------------------------------------------------------------------------------
  // A pass over the tables

  /** `relocate_libc`; `relocate` of an object for the first time; `relocate` with SAVED_LIBC_REL_ADDENDS set. */
  datatype Mode = First | Only | Second

  datatype Machine = Machine(mem: Relr.Memory, saved: seq<Word>, next: nat, unresolved: bool)

  function Store(m: Machine, slot: Word, e: Effect): Option<Machine> {
    match e
    case Write(v) => Some(m.(mem := m.mem[slot := v]))
    case Unresolved => Some(m.(unresolved := true))
    case Abort => None
  }

  /** One item in one mode; None is a panic (also for an addend that was never saved). */
  function Step(env: Env, mode: Mode, item: Item, m: Machine): Option<Machine>
    requires Active(item) ==> Slot(env.base, item) in m.mem
  {
    if !Active(item) then Some(m)
    else
      var slot := Slot(env.base, item);
      match item
      case Rela(_, kind, sym, addend) => Store(m, slot, Process(env, kind, sym, addend))
      case Relr(_) =>
        if mode == Second then Some(m) else Some(m.(mem := m.mem[slot := Wrap(m.mem[slot] + env.base)]))
      case Rel(_, kind, sym) =>
        match mode
        case First =>
          if sym == 0 then Store(m, slot, Process(env, kind, sym, m.mem[slot]))
          else if |m.saved| >= MAX_SAVED then None
          else Store(m.(saved := m.saved + [m.mem[slot]]), slot, Process(env, kind, sym, m.mem[slot]))
        case Only => Store(m, slot, Process(env, kind, sym, m.mem[slot]))
        case Second =>
          if sym == 0 then Some(m)
          else if m.next >= |m.saved| then None
          else Store(m.(next := m.next + 1), slot, Process(env, kind, sym, m.saved[m.next]))
  }

  predicate Mapped(base: Word, items: seq<Item>, mem: Relr.Memory) {
    forall i | 0 <= i < |items| && Active(items[i]) :: Slot(base, items[i]) in mem
  }

  lemma StepKeys(env: Env, mode: Mode, item: Item, m: Machine)
    requires Active(item) ==> Slot(env.base, item) in m.mem
    ensures Step(env, mode, item, m).Some? ==> Step(env, mode, item, m).value.mem.Keys == m.mem.Keys
  {
    hide Process;
  }

  function Run(env: Env, mode: Mode, items: seq<Item>, i: nat, m: Machine): Option<Machine>
    requires i <= |items| && Mapped(env.base, items, m.mem)
    decreases |items| - i
  {
    if i == |items| then Some(m)
    else
      StepKeys(env, mode, items[i], m);
      match Step(env, mode, items[i], m)
      case None => None
      case Some(m') => Run(env, mode, items, i + 1, m')
  }

  /** A whole pass: unresolved symbols panic at its end. */
  function Pass(env: Env, mode: Mode, items: seq<Item>, m: Machine): Option<Machine>
    requires Mapped(env.base, items, m.mem)
  {
    var r := Run(env, mode, items, 0, m);
    if r.Some? && r.value.unresolved then None else r
  }

  // ---------------------------------------------------------------------------------------------------
  // Relocating twice is relocating once

  /** The items write to pairwise distinct slots. */
  ghost predicate Distinct(base: Word, items: seq<Item>) {
    forall i, j | 0 <= i < j < |items| && Active(items[i]) && Active(items[j]) ::
      Slot(base, items[i]) != Slot(base, items[j])
  }

  /** What an item leaves in its slot in a first or only pass, from what it finds there. */
  function Outcome(env: Env, item: Item, found: Word): Effect {
    match item
    case Rela(_, kind, sym, addend) => Process(env, kind, sym, addend)
    case Relr(_) => Write(Wrap(found + env.base))
    case Rel(_, kind, sym) => Process(env, kind, sym, found)
  }

  /** Some item from i on writes to a. */
  ghost predicate Pending(base: Word, items: seq<Item>, i: nat, a: Word) {
    exists j :: i <= j < |items| && Active(items[j]) && Slot(base, items[j]) == a
  }

  lemma PendingStep(base: Word, items: seq<Item>, i: nat, a: Word)
    requires i < |items|
    ensures Pending(base, items, i, a)
            <==> (Active(items[i]) && Slot(base, items[i]) == a) || Pending(base, items, i + 1, a)
  {}

  lemma NotPendingAfter(base: Word, items: seq<Item>, i: nat)
    requires i < |items| && Distinct(base, items) && Active(items[i])
    ensures !Pending(base, items, i + 1, Slot(base, items[i]))
  {}

  /** The contents of the slots whose addends a first pass saves, in table order. */
  function SavedFrom(base: Word, items: seq<Item>, i: nat, mem: Relr.Memory): seq<Word>
    requires i <= |items| && Mapped(base, items, mem)
    decreases |items| - i
  {
    if i == |items| then []
    else if Saves(items[i]) then [mem[Slot(base, items[i])]] + SavedFrom(base, items, i + 1, mem)
    else SavedFrom(base, items, i + 1, mem)
  }

  lemma {:induction false} SavedFromFrame(base: Word, items: seq<Item>, i: nat, m: Relr.Memory, m': Relr.Memory)
    requires i <= |items| && Mapped(base, items, m) && Mapped(base, items, m')
    requires forall a | Pending(base, items, i, a) :: a in m && a in m' && m[a] == m'[a]
    ensures SavedFrom(base, items, i, m) == SavedFrom(base, items, i, m')
    decreases |items| - i
  {
    if i < |items| {
      forall a | Pending(base, items, i + 1, a) ensures a in m && a in m' && m[a] == m'[a] {
        PendingStep(base, items, i, a);
      }
      SavedFromFrame(base, items, i + 1, m, m');
      if Saves(items[i]) {
        PendingStep(base, items, i, Slot(base, items[i]));
      }
    }
  }

  /** The slot of item j after a first pass that found `mem`. */
  ghost predicate Relocated(env: Env, item: Item, before: Relr.Memory, after: Relr.Memory)
    requires Slot(env.base, item) in before && Slot(env.base, item) in after
  {
    Outcome(env, item, before[Slot(env.base, item)]) == Write(after[Slot(env.base, item)])
  }

  /** One step of a first pass: it saves the addend if the item has one to save, writes the item's outcome into its
      slot, and changes nothing else. */
  lemma FirstStep(env: Env, item: Item, m: Machine)
    requires Active(item) ==> Slot(env.base, item) in m.mem
    requires Step(env, First, item, m).Some? && !Step(env, First, item, m).value.unresolved
    ensures var m' := Step(env, First, item, m).value;
            && !m.unresolved && m'.mem.Keys == m.mem.Keys
            && m'.saved == m.saved + (if Saves(item) then [m.mem[Slot(env.base, item)]] else [])
            && (Active(item) ==> Relocated(env, item, m.mem, m'.mem))
            && forall a | a in m.mem && !(Active(item) && a == Slot(env.base, item)) :: m'.mem[a] == m.mem[a]
  {
    hide Process;
    assert m.saved + [] == m.saved;
  }

  /** A first pass saves up to 1024 addends and panics at the next one. */
  lemma SaveLimit(env: Env, item: Item, m: Machine)
    requires Saves(item) && Slot(env.base, item) in m.mem
    ensures Step(env, First, item, m).None?
            <==> |m.saved| >= 1024 || Process(env, item.kind, item.sym, m.mem[Slot(env.base, item)]).Abort?
  {
    hide Process;
  }

  lemma {:induction false} UnresolvedStays(env: Env, mode: Mode, items: seq<Item>, i: nat, m: Machine)
    requires i <= |items| && Mapped(env.base, items, m.mem)
    requires m.unresolved && Run(env, mode, items, i, m).Some?
    ensures Run(env, mode, items, i, m).value.unresolved
    decreases |items| - i
  {
    hide Process;
    if i < |items| {
      StepKeys(env, mode, items[i], m);
      UnresolvedStays(env, mode, items, i + 1, Step(env, mode, items[i], m).value);
    }
  }

  /** A whole first pass: the saved addends are the original slot contents in table order, and each slot holds its
      item's outcome. */
  lemma {:induction false} FirstPass(env: Env, items: seq<Item>, i: nat, m: Machine)
    requires i <= |items| && Mapped(env.base, items, m.mem) && Distinct(env.base, items)
    requires Run(env, First, items, i, m).Some? && !Run(env, First, items, i, m).value.unresolved
    ensures var r := Run(env, First, items, i, m).value;
            && r.mem.Keys == m.mem.Keys
            && r.saved == m.saved + SavedFrom(env.base, items, i, m.mem)
            && (forall a | a in m.mem && !Pending(env.base, items, i, a) :: r.mem[a] == m.mem[a])
            && forall j | i <= j < |items| && Active(items[j]) :: Relocated(env, items[j], m.mem, r.mem)
    decreases |items| - i
  {
    hide Process, Step;
    if i == |items| {
      assert m.saved + [] == m.saved;
    } else {
      var item := items[i];
      StepKeys(env, First, item, m);
      var m' := Step(env, First, item, m).value;
      if m'.unresolved {
        UnresolvedStays(env, First, items, i + 1, m');
      }
      FirstStep(env, item, m);
      FirstPass(env, items, i + 1, m');
      FirstPassStep(env, items, i, m, m', Run(env, First, items, i + 1, m').value);
    }
  }

  lemma FirstPassStep(env: Env, items: seq<Item>, i: nat, m: Machine, m': Machine, r: Machine)
    requires i < |items| && Mapped(env.base, items, m.mem) && Distinct(env.base, items)
    requires m'.mem.Keys == m.mem.Keys == r.mem.Keys
    requires m'.saved == m.saved + (if Saves(items[i]) then [m.mem[Slot(env.base, items[i])]] else [])
    requires Active(items[i]) ==> Relocated(env, items[i], m.mem, m'.mem)
    requires forall a | a in m.mem && !(Active(items[i]) && a == Slot(env.base, items[i])) :: m'.mem[a] == m.mem[a]
    requires r.saved == m'.saved + SavedFrom(env.base, items, i + 1, m'.mem)
    requires forall a | a in m.mem && !Pending(env.base, items, i + 1, a) :: r.mem[a] == m'.mem[a]
    requires forall j | i + 1 <= j < |items| && Active(items[j]) :: Relocated(env, items[j], m'.mem, r.mem)
    ensures r.saved == m.saved + SavedFrom(env.base, items, i, m.mem)
    ensures forall a | a in m.mem && !Pending(env.base, items, i, a) :: r.mem[a] == m.mem[a]
    ensures forall j | i <= j < |items| && Active(items[j]) :: Relocated(env, items[j], m.mem, r.mem)
  {
    hide Process, Outcome;
    var base := env.base;
    if Active(items[i]) {
      NotPendingAfter(base, items, i);
    }
    forall a | Pending(base, items, i + 1, a) ensures a in m.mem && m'.mem[a] == m.mem[a] {
      assert !(Active(items[i]) && a == Slot(base, items[i]));
    }
    SavedFromFrame(base, items, i + 1, m.mem, m'.mem);
    forall a | a in m.mem && !Pending(base, items, i, a) ensures r.mem[a] == m.mem[a] {
      PendingStep(base, items, i, a);
    }
    forall j | i <= j < |items| && Active(items[j]) ensures Relocated(env, items[j], m.mem, r.mem) {
      if j > i {
        assert Pending(base, items, i + 1, Slot(base, items[j]));
        assert Relocated(env, items[j], m'.mem, r.mem);
      }
    }
  }

  /** The same object in both passes, with its initial-TLS mark only ever set in between. */
  predicate SameObject(a: Env, b: Env) {
    && a.base == b.base && a.tlsOffset == b.tlsOffset && a.handle == b.handle && a.weak == b.weak
    && (a.initialTls ==> b.initialTls)
  }

  /** Entries without a symbol do not depend on the resolution. */
  lemma SymbolFree(a: Env, b: Env, kind: Kind, addend: Word)
    requires SameObject(a, b) && Process(a, kind, 0, addend).Write?
    ensures Process(b, kind, 0, addend) == Process(a, kind, 0, addend)
  {}

  /** The lockstep relation between the second pass over the memory `once` the first left and a single pass over the
      pristine memory: equal where both are done (unless symbols are missing), untouched where they are not. */
  ghost predicate Lockstep(base: Word, items: seq<Item>, i: nat, pristine: Relr.Memory, once: Relr.Memory,
                           s: Machine, o: Machine)
    requires i <= |items| && Mapped(base, items, pristine)
  {
    && s.mem.Keys == o.mem.Keys == pristine.Keys == once.Keys
    && s.unresolved == o.unresolved
    && s.next <= |s.saved| && s.saved[s.next..] == SavedFrom(base, items, i, pristine)
    && forall a | a in pristine ::
         if Pending(base, items, i, a) then s.mem[a] == once[a] && o.mem[a] == pristine[a]
         else s.unresolved || s.mem[a] == o.mem[a]
  }

  /** Both panic, or both write the same word, or both miss the symbol. */
  ghost predicate Together(slot: Word, s: Machine, o: Machine, s': Option<Machine>, o': Option<Machine>, taken: nat)
    requires slot in s.mem && slot in o.mem
  {
    && (s'.None? <==> o'.None?)
    && (s'.Some? ==>
          && s'.value.saved == s.saved && s'.value.next == s.next + taken
          && s'.value.unresolved == o'.value.unresolved && (s.unresolved ==> s'.value.unresolved)
          && s'.value.mem.Keys == s.mem.Keys && o'.value.mem.Keys == o.mem.Keys
          && (forall a | a in s.mem && a != slot :: s'.value.mem[a] == s.mem[a])
          && (forall a | a in o.mem && a != slot :: o'.value.mem[a] == o.mem[a])
          && (s'.value.unresolved || s'.value.mem[slot] == o'.value.mem[slot]))
  }

  lemma StepTogether(env1: Env, env2: Env, items: seq<Item>, i: nat, pristine: Relr.Memory, once: Relr.Memory,
                     s: Machine, o: Machine)
    requires i < |items| && SameObject(env1, env2) && Mapped(env1.base, items, pristine)
    requires Lockstep(env1.base, items, i, pristine, once, s, o) && Active(items[i])
    requires Relocated(env1, items[i], pristine, once)
    ensures Together(Slot(env1.base, items[i]), s, o, Step(env2, Second, items[i], s), Step(env2, Only, items[i], o),
                     if Saves(items[i]) then 1 else 0)
  {
    hide Process;
    var item := items[i];
    PendingStep(env1.base, items, i, Slot(env1.base, item));
    if item.Rel? {
      if item.sym == 0 {
        SymbolFree(env1, env2, item.kind, pristine[Slot(env1.base, item)]);
      } else {
        assert s.saved[s.next..][0] == pristine[Slot(env1.base, item)];
      }
    }
  }

  lemma LockstepKept(base: Word, items: seq<Item>, i: nat, pristine: Relr.Memory, once: Relr.Memory,
                     s: Machine, o: Machine, s': Machine, o': Machine)
    requires i < |items| && Mapped(base, items, pristine) && Distinct(base, items) && Active(items[i])
    requires Lockstep(base, items, i, pristine, once, s, o)
    requires Together(Slot(base, items[i]), s, o, Some(s'), Some(o'), if Saves(items[i]) then 1 else 0)
    ensures Lockstep(base, items, i + 1, pristine, once, s', o')
  {
    NotPendingAfter(base, items, i);
    if Saves(items[i]) {
      assert s'.saved[s'.next..] == s.saved[s.next..][1..];
    }
    forall a | a in pristine
      ensures if Pending(base, items, i + 1, a) then s'.mem[a] == once[a] && o'.mem[a] == pristine[a]
              else s'.unresolved || s'.mem[a] == o'.mem[a]
    {
      PendingStep(base, items, i, a);
    }
  }

  lemma LockstepSkips(base: Word, items: seq<Item>, i: nat, pristine: Relr.Memory, once: Relr.Memory,
                      s: Machine, o: Machine)
    requires i < |items| && Mapped(base, items, pristine) && !Active(items[i])
    requires Lockstep(base, items, i, pristine, once, s, o)
    ensures Lockstep(base, items, i + 1, pristine, once, s, o)
  {
    forall a | a in pristine ensures Pending(base, items, i + 1, a) == Pending(base, items, i, a) {
      PendingStep(base, items, i, a);
    }
  }

  lemma {:induction false} LockstepRuns(env1: Env, env2: Env, items: seq<Item>, i: nat, pristine: Relr.Memory,
                                        once: Relr.Memory, s: Machine, o: Machine)
    requires i <= |items| && SameObject(env1, env2) && Mapped(env1.base, items, pristine) && Distinct(env1.base, items)
    requires Lockstep(env1.base, items, i, pristine, once, s, o)
    requires forall j | i <= j < |items| && Active(items[j]) :: Relocated(env1, items[j], pristine, once)
    ensures Mapped(env1.base, items, s.mem) && Mapped(env1.base, items, o.mem)
    ensures var rs, ro := Run(env2, Second, items, i, s), Run(env2, Only, items, i, o);
            && (rs.None? <==> ro.None?)
            && (rs.Some? ==> Lockstep(env1.base, items, |items|, pristine, once, rs.value, ro.value))
            && (rs.Some? ==> rs.value.saved == s.saved)
    decreases |items| - i
  {
    hide Process;
    if i < |items| {
      var item := items[i];
      StepKeys(env2, Second, item, s);
      StepKeys(env2, Only, item, o);
      if Active(item) {
        StepTogether(env1, env2, items, i, pristine, once, s, o);
        var s', o' := Step(env2, Second, item, s), Step(env2, Only, item, o);
        if s'.Some? {
          LockstepKept(env1.base, items, i, pristine, once, s, o, s'.value, o'.value);
          LockstepRuns(env1, env2, items, i + 1, pristine, once, s'.value, o'.value);
        }
      } else {
        LockstepSkips(env1.base, items, i, pristine, once, s, o);
        LockstepRuns(env1, env2, items, i + 1, pristine, once, s, o);
      }
    }
  }

  function Start(mem: Relr.Memory, saved: seq<Word>): Machine {
    Machine(mem, saved, 0, false)
  }

  /** `relocate_libc` and then `relocate` with the saved addends leave what one `relocate` of the pristine object
      under the final resolution leaves: they panic together, otherwise the memories are equal and every saved addend
      is used. */
  lemma TwiceIsOnce(env1: Env, env2: Env, items: seq<Item>, mem: Relr.Memory, m1: Machine)
    requires SameObject(env1, env2) && Mapped(env1.base, items, mem) && Distinct(env1.base, items)
    requires Pass(env1, First, items, Start(mem, [])) == Some(m1)
    ensures Mapped(env1.base, items, m1.mem)
    ensures var twice := Pass(env2, Second, items, Start(m1.mem, m1.saved));
            var once := Pass(env2, Only, items, Start(mem, []));
            && (twice.None? <==> once.None?)
            && (twice.Some? ==> twice.value.mem == once.value.mem && twice.value.next == |m1.saved|)
  {
    hide Process, Step;
    var m0 := Start(mem, []);
    FirstPass(env1, items, 0, m0);
    var s := Start(m1.mem, m1.saved);
    assert s.saved[0..] == s.saved == SavedFrom(env1.base, items, 0, mem);
    LockstepRuns(env1, env2, items, 0, mem, m1.mem, s, m0);
  }

  // ---------------------------------------------------------------------------------------------------
  // The loops

  datatype RelaEntry = RelaEntry(offset: Word, kind: Kind, sym: nat, addend: Word) {
    function Item(): Item {
      Rela(offset, kind, sym, addend)
    }
  }

  datatype RelEntry = RelEntry(offset: Word, kind: Kind, sym: nat) {
    function Item(): Item {
      Rel(offset, kind, sym)
    }
  }

  /** DT_JMPREL with DT_PLTREL; any other DT_PLTREL value panics. */
  datatype Plt = NoPlt | PltRela(relas: seq<RelaEntry>) | PltRel(rels: seq<RelEntry>) | PltUnknown

  datatype Tables = Tables(rela: seq<RelaEntry>, relr: seq<Word>, rel: seq<RelEntry>, plt: Plt)

  function RelaItems(entries: seq<RelaEntry>): (items: seq<Item>)
    ensures |items| == |entries|
    ensures forall i | 0 <= i < |items| :: items[i] == entries[i].Item()
  {
    seq(|entries|, i requires 0 <= i < |entries| => entries[i].Item())
  }

  function RelItems(entries: seq<RelEntry>): (items: seq<Item>)
    ensures |items| == |entries|
    ensures forall i | 0 <= i < |items| :: items[i] == entries[i].Item()
  {
    seq(|entries|, i requires 0 <= i < |entries| => entries[i].Item())
  }

  function RelrItems(addrs: seq<Word>): (items: seq<Item>)
    ensures |items| == |addrs| && forall i | 0 <= i < |items| :: items[i] == Relr(addrs[i])
  {
    seq(|addrs|, i requires 0 <= i < |addrs| => Relr(addrs[i]))
  }

  function PltItems(plt: Plt): seq<Item> {
    match plt
    case NoPlt => []
    case PltRela(entries) => RelaItems(entries)
    case PltRel(entries) => RelItems(entries)
    case PltUnknown => []
  }

  function Decoded(base: Word, t: Tables): Relr.Decoded {
    Relr.Decode(base, t.relr, 0)
  }

  /** The order of both functions: RELA, RELR, REL, PLT. */
  function Items(base: Word, t: Tables): seq<Item> {
    RelaItems(t.rela) + (RelrItems(Decoded(base, t).addrs) + (RelItems(t.rel) + PltItems(t.plt)))
  }

  /** The tables themselves do not panic: no bitmap without an address, no unknown DT_PLTREL. */
  predicate Sound(base: Word, t: Tables) {
    Decoded(base, t).ok && !t.plt.PltUnknown?
  }

  lemma {:induction false} RunTail(env: Env, mode: Mode, a: seq<Item>, b: seq<Item>, i: nat, m: Machine)
    requires i <= |b| && Mapped(env.base, a + b, m.mem) && Mapped(env.base, b, m.mem)
    ensures Run(env, mode, a + b, |a| + i, m) == Run(env, mode, b, i, m)
    decreases |b| - i
  {
    hide Step;
    if i < |b| {
      assert (a + b)[|a| + i] == b[i];
      StepKeys(env, mode, b[i], m);
      if Step(env, mode, b[i], m).Some? {
        RunTail(env, mode, a, b, i + 1, Step(env, mode, b[i], m).value);
      }
    }
  }

  lemma MappedParts(base: Word, a: seq<Item>, b: seq<Item>, mem: Relr.Memory)
    requires Mapped(base, a + b, mem)
    ensures Mapped(base, a, mem) && Mapped(base, b, mem)
  {
    forall i | 0 <= i < |a| && Active(a[i]) ensures Slot(base, a[i]) in mem {
      assert (a + b)[i] == a[i];
    }
    forall i | 0 <= i < |b| && Active(b[i]) ensures Slot(base, b[i]) in mem {
      assert (a + b)[|a| + i] == b[i];
    }
  }

  /** Running two lists is running the first and then, from where it ends, the second. */
  lemma {:induction false} RunAppend(env: Env, mode: Mode, a: seq<Item>, b: seq<Item>, i: nat, m: Machine)
    requires i <= |a| && Mapped(env.base, a + b, m.mem)
    ensures Mapped(env.base, a, m.mem) && Mapped(env.base, b, m.mem)
    ensures var r := Run(env, mode, a, i, m);
            && (r.Some? ==> Mapped(env.base, b, r.value.mem))
            && Run(env, mode, a + b, i, m) == if r.None? then None else Run(env, mode, b, 0, r.value)
    decreases |a| - i
  {
    hide Step;
    MappedParts(env.base, a, b, m.mem);
    if i == |a| {
      RunTail(env, mode, a, b, 0, m);
    } else {
      assert (a + b)[i] == a[i];
      StepKeys(env, mode, a[i], m);
      if Step(env, mode, a[i], m).Some? {
        RunAppend(env, mode, a, b, i + 1, Step(env, mode, a[i], m).value);
      }
    }
  }

  /** Adding base at the listed words is running their items in a pass that relocates them. */
  lemma {:induction false} RelrRun(env: Env, mode: Mode, addrs: seq<Word>, i: nat, m: Machine)
    requires i <= |addrs| && (forall a | a in addrs :: a in m.mem) && mode != Second
    ensures Mapped(env.base, RelrItems(addrs), m.mem)
    ensures Run(env, mode, RelrItems(addrs), i, m) == Some(m.(mem := Relr.AddAll(m.mem, env.base, addrs[i..])))
    decreases |addrs| - i
  {
    if i < |addrs| {
      assert addrs[i..][1..] == addrs[i + 1..];
      RelrRun(env, mode, addrs, i + 1, m.(mem := m.mem[addrs[i] := Wrap(m.mem[addrs[i]] + env.base)]));
    }
  }

  lemma {:induction false} RelrSkipped(env: Env, addrs: seq<Word>, i: nat, m: Machine)
    requires i <= |addrs| && Mapped(env.base, RelrItems(addrs), m.mem)
    ensures Run(env, Second, RelrItems(addrs), i, m) == Some(m)
    decreases |addrs| - i
  {
    if i < |addrs| {
      RelrSkipped(env, addrs, i + 1, m);
    }
  }

  /** The object's memory, the saved addends with the position reached in them, and `has_unresolved_symbols`. */
  class Linker {
    const image: Relr.Image
    var saved: seq<Word>
    var next: nat
    var unresolved: bool

    constructor (image: Relr.Image)
      ensures this.image == image && saved == [] && next == 0 && !unresolved
    {
      this.image := image;
      saved, next, unresolved := [], 0, false;
    }

    ghost function State(): Machine
      reads this, image
    {
      Machine(image.mem, saved, next, unresolved)
    }

    /** Carries out the effect of one relocation; false is a panic. */
    method Apply(slot: Word, effect: Effect) returns (ok: bool)
      modifies this`unresolved, image
      ensures Store(old(State()), slot, effect) == if ok then Some(State()) else None
    {
      match effect {
        case Write(v) => image.mem := image.mem[slot := v];
        case Unresolved => unresolved := true;
        case Abort => return false;
      }
      return true;
    }

    /** The loop over a RELA table. */
    method RelaLoop(env: Env, ghost mode: Mode, entries: seq<RelaEntry>) returns (ok: bool)
      requires Mapped(env.base, RelaItems(entries), image.mem)
      modifies this`unresolved, image
      ensures Run(env, mode, RelaItems(entries), 0, old(State())) == if ok then Some(State()) else None
    {
      hide Process;
      ghost var items := RelaItems(entries);
      for i := 0 to |entries|
        invariant Mapped(env.base, items, image.mem) && saved == old(saved) && next == old(next)
        invariant Run(env, mode, items, i, State()) == Run(env, mode, items, 0, old(State()))
      {
        var entry := entries[i];
        StepKeys(env, mode, items[i], State());
        if entry.kind == Copy || entry.kind == IRelative {
          continue;
        }
        var done := Apply(Wrap(env.base + entry.offset), Process(env, entry.kind, entry.sym, entry.addend));
        if !done {
          return false;
        }
      }
      return true;
    }

    /** The loop of `relocate_libc` over a REL table. */
    method RelLoopSaving(env: Env, entries: seq<RelEntry>) returns (ok: bool)
      requires Mapped(env.base, RelItems(entries), image.mem)
      modifies this, image
      ensures Run(env, First, RelItems(entries), 0, old(State())) == if ok then Some(State()) else None
    {
      hide Process;
      ghost var items := RelItems(entries);
      for i := 0 to |entries|
        invariant Mapped(env.base, items, image.mem)
        invariant Run(env, First, items, i, State()) == Run(env, First, items, 0, old(State()))
      {
        var entry := entries[i];
        StepKeys(env, First, items[i], State());
        if entry.kind == Copy || entry.kind == IRelative {
          continue;
        }
        var slot := Wrap(env.base + entry.offset);
        var addend := image.mem[slot];
        if entry.sym != 0 {
          if |saved| >= MAX_SAVED {
            return false;
          }
          saved := saved + [addend];
        }
        var done := Apply(slot, Process(env, entry.kind, entry.sym, addend));
        if !done {
          return false;
        }
      }
      return true;
    }

    /** The loop of `relocate` over a REL table. */
    method RelLoop(env: Env, useSaved: bool, entries: seq<RelEntry>) returns (ok: bool)
      requires Mapped(env.base, RelItems(entries), image.mem)
      modifies this, image
      ensures Run(env, if useSaved then Second else Only, RelItems(entries), 0, old(State()))
              == if ok then Some(State()) else None
    {
      hide Process;
      ghost var items, mode := RelItems(entries), if useSaved then Second else Only;
      for i := 0 to |entries|
        invariant Mapped(env.base, items, image.mem)
        invariant Run(env, mode, items, i, State()) == Run(env, mode, items, 0, old(State()))
      {
        var entry := entries[i];
        StepKeys(env, mode, items[i], State());
        if entry.kind == Copy || entry.kind == IRelative {
          continue;
        }
        var slot := Wrap(env.base + entry.offset);
        var addend := image.mem[slot];
        if useSaved {
          if entry.sym == 0 {
            continue;
          }
          if next >= |saved| {
            return false;
          }
          addend := saved[next];
          next := next + 1;
        }
        var done := Apply(slot, Process(env, entry.kind, entry.sym, addend));
        if !done {
          return false;
        }
      }
      return true;
    }

    method RelrLoop(env: Env, ghost mode: Mode, entries: seq<Word>) returns (ok: bool)
      requires mode != Second
      requires forall a | a in Relr.Decode(env.base, entries, 0).addrs :: a in image.mem
      modifies image
      ensures ok == Relr.Decode(env.base, entries, 0).ok
      ensures Mapped(env.base, RelrItems(Relr.Decode(env.base, entries, 0).addrs), old(image.mem))
      ensures Run(env, mode, RelrItems(Relr.Decode(env.base, entries, 0).addrs), 0, old(State())) == Some(State())
    {
      hide Process, Relr.Decode;
      ghost var addrs := Relr.Decode(env.base, entries, 0).addrs;
      RelrRun(env, mode, addrs, 0, State());
      assert addrs[0..] == addrs;
      ok := image.Apply(env.base, entries);
    }

    /** The PLT table of `relocate_libc`; an unknown DT_PLTREL panics. */
    method PltLoopSaving(env: Env, plt: Plt) returns (ok: bool)
      requires Mapped(env.base, PltItems(plt), image.mem)
      modifies this, image
      ensures plt.PltUnknown? ==> !ok
      ensures !plt.PltUnknown? ==> Run(env, First, PltItems(plt), 0, old(State())) == if ok then Some(State()) else None
    {
      match plt {
        case NoPlt => ok := true;
        case PltRela(entries) => ok := RelaLoop(env, First, entries);
        case PltRel(entries) => ok := RelLoopSaving(env, entries);
        case PltUnknown => ok := false;
      }
    }

    method PltLoop(env: Env, useSaved: bool, plt: Plt) returns (ok: bool)
      requires Mapped(env.base, PltItems(plt), image.mem)
      modifies this, image
      ensures plt.PltUnknown? ==> !ok
      ensures !plt.PltUnknown? ==>
                Run(env, if useSaved then Second else Only, PltItems(plt), 0, old(State()))
                == if ok then Some(State()) else None
    {
      match plt {
        case NoPlt => ok := true;
        case PltRela(entries) => ok := RelaLoop(env, if useSaved then Second else Only, entries);
        case PltRel(entries) => ok := RelLoop(env, useSaved, entries);
        case PltUnknown => ok := false;
      }
    }

    /** `relocate_libc`; false is a panic. */
    method RelocateLibc(env: Env, t: Tables) returns (ok: bool)
      requires Mapped(env.base, Items(env.base, t), image.mem)
      requires saved == [] && next == 0
      modifies this, image
      ensures ok <==> Sound(env.base, t) && Pass(env, First, Items(env.base, t), Start(old(image.mem), [])).Some?
      ensures ok ==> Pass(env, First, Items(env.base, t), Start(old(image.mem), [])) == Some(State())
    {
      hide Run, Relr.Decode;
      unresolved := false;
      ghost var plt := PltItems(t.plt);
      ghost var relPlt := RelItems(t.rel) + plt;
      ghost var relr := RelrItems(Decoded(env.base, t).addrs);
      RunAppend(env, First, RelaItems(t.rela), relr + relPlt, 0, State());
      ok := RelaLoop(env, First, t.rela);
      if !ok { return false; }
      RunAppend(env, First, relr, relPlt, 0, State());
      ListedMapped(env.base, Decoded(env.base, t).addrs, image.mem);
      ok := RelrLoop(env, First, t.relr);
      if !ok { return false; }
      RunAppend(env, First, RelItems(t.rel), plt, 0, State());
      ok := RelLoopSaving(env, t.rel);
      if !ok { return false; }
      ok := PltLoopSaving(env, t.plt);
      return ok && !unresolved;
    }

    /** `relocate`; useSaved stands for a non-null SAVED_LIBC_REL_ADDENDS, which also skips the RELR table. */
    method Relocate(env: Env, useSaved: bool, t: Tables) returns (ok: bool)
      requires Mapped(env.base, Items(env.base, t), image.mem)
      modifies this, image
      ensures var mode := if useSaved then Second else Only;
              var pass := Pass(env, mode, Items(env.base, t), Start(old(image.mem), old(saved)));
              && (ok <==> !t.plt.PltUnknown? && (useSaved || Decoded(env.base, t).ok) && pass.Some?)
              && (ok ==> pass == Some(State()))
    {
      hide Run, Relr.Decode;
      unresolved, next := false, 0;
      ghost var mode := if useSaved then Second else Only;
      ghost var plt := PltItems(t.plt);
      ghost var relPlt := RelItems(t.rel) + plt;
      ghost var relr := RelrItems(Decoded(env.base, t).addrs);
      RunAppend(env, mode, RelaItems(t.rela), relr + relPlt, 0, State());
      ok := RelaLoop(env, mode, t.rela);
      if !ok { return false; }
      RunAppend(env, mode, relr, relPlt, 0, State());
      if useSaved {
        RelrSkipped(env, Decoded(env.base, t).addrs, 0, State());
      } else {
        ListedMapped(env.base, Decoded(env.base, t).addrs, image.mem);
        ok := RelrLoop(env, mode, t.relr);
        if !ok { return false; }
      }
      RunAppend(env, mode, RelItems(t.rel), plt, 0, State());
      ok := RelLoop(env, useSaved, t.rel);
      if !ok { return false; }
      ok := PltLoop(env, useSaved, t.plt);
      return ok && !unresolved;
    }

    /** Startup: libc relocates itself with its own symbols, and again once every object is loaded. */
    method RelocateTwice(env1: Env, env2: Env, t: Tables) returns (ok: bool)
      requires SameObject(env1, env2) && saved == [] && next == 0
      requires Mapped(env1.base, Items(env1.base, t), image.mem) && Distinct(env1.base, Items(env1.base, t))
      modifies this, image
      ensures var items := Items(env1.base, t);
              var first := Pass(env1, First, items, Start(old(image.mem), []));
              var once := Pass(env2, Only, items, Start(old(image.mem), []));
              && (ok <==> Sound(env1.base, t) && first.Some? && once.Some?)
              && (ok ==> image.mem == once.value.mem)
    {
      hide Pass, Items, Mapped, Distinct, Decoded;
      ok := RelocateLibc(env1, t);
      if !ok { return false; }
      TwiceIsOnce(env1, env2, Items(env1.base, t), old(image.mem), State());
      ok := Relocate(env2, true, t);
    }
  }

  lemma ListedMapped(base: Word, addrs: seq<Word>, mem: Relr.Memory)
    requires Mapped(base, RelrItems(addrs), mem)
    ensures forall a | a in addrs :: a in mem
  {
    forall a | a in addrs ensures a in mem {
      var i :| 0 <= i < |addrs| && addrs[i] == a;
      assert RelrItems(addrs)[i] == Relr(a);
    }
  }
}
