/** Static thread-local storage below the thread pointer: the offsets of src/rtld/main.cpp and
    src/rtld/object_storage.cpp, the area of `__dlapi_create_tcb` in src/rtld/rtld.cpp, `init_tls`, and R_TPOFF. */
module TlsLayout {
  import opened Options
  import opened Words
  import opened PowersOfTwo
  import opened Nonlinear
  import Relr
  import Relocate

  // ---------------------------------------------------------------------------------------------------
  // (x + align - 1) & ~(align - 1)

  /** x & ~m, bit by bit. */
  function AndNot(x: nat, m: nat): nat
    decreases x
  {
    if x == 0 then 0 else 2 * AndNot(x / 2, m / 2) + (if x % 2 == 1 && m % 2 == 0 then 1 else 0)
  }

  function AlignUp(x: nat, align: nat): nat {
    AndNot(Wrap(x + align - 1), Wrap(align - 1))
  }

  lemma {:induction false} AndNotNothing(x: nat)
    ensures AndNot(x, 0) == x
    decreases x
  {
    if x > 0 {
      AndNotNothing(x / 2);
    }
  }

  /** Masking with a power of two drops the remainder. */
  lemma {:induction false} AndNotPower(x: nat, k: nat)
    ensures AndNot(x, Pow2(k) - 1) == x - Remainder(x, Pow2(k))
    decreases k
  {
    hide Remainder, Quotient;
    if k == 0 {
      AndNotNothing(x);
      DivisionTheorem(x, 1);
    } else {
      var p := Pow2(k - 1);
      AndNotPower(x / 2, k - 1);
      HalvedRemainder(x, p);
      assert (Pow2(k) - 1) / 2 == p - 1 && (Pow2(k) - 1) % 2 == 1;
    }
  }

  lemma HalvedRemainder(x: nat, p: nat)
    requires p > 0
    ensures Remainder(x, 2 * p) == 2 * Remainder(x / 2, p) + x % 2
  {
    hide Remainder, Quotient;
    DivisionTheorem(x / 2, p);
    var q, r := Quotient(x / 2, p), Remainder(x / 2, p);
    Double(q, p);
    Distribute(q, q, p);
    QuotientUnique(x, 2 * p, q, 2 * r + x % 2);
  }

  /** Clearing every bit leaves nothing: what an alignment of 0 does. */
  lemma {:induction false} AndNotAll(x: nat, n: nat)
    requires x < Pow2(n)
    ensures AndNot(x, Pow2(n) - 1) == 0
    decreases n
  {
    if x > 0 {
      AndNotAll(x / 2, n - 1);
      assert (Pow2(n) - 1) / 2 == Pow2(n - 1) - 1 && (Pow2(n) - 1) % 2 == 1;
    }
  }

  ghost predicate IsPower(a: nat) {
    exists k: nat :: a == Pow2(k)
  }

  /** For a power of two, the next multiple. */
  lemma AlignUpPower(x: nat, a: nat)
    requires IsPower(a) && x + a <= WORD
    ensures a > 0 && x <= AlignUp(x, a) < x + a && AlignUp(x, a) % a == 0
  {
    hide Pow2, AndNot, Remainder, Quotient, Wrap;
    var k: nat :| a == Pow2(k);
    var y := x + a - 1;
    Relr.NoWrap(y);
    Relr.NoWrap(a - 1);
    AndNotPower(y, k);
    RoundedDown(y, a);
  }

  lemma RoundedDown(y: nat, a: nat)
    requires a > 0
    ensures 0 <= y - Remainder(y, a) && (y - Remainder(y, a)) % a == 0
  {
    hide Remainder, Quotient;
    DivisionTheorem(y, a);
    MulMonotone(0, Quotient(y, a), a);
    QuotientUnique(y - Remainder(y, a), a, Quotient(y, a), 0);
    QuotientIsDivision(y - Remainder(y, a), a);
  }

  lemma AlignUpZero(x: nat)
    requires x <= WORD
    ensures AlignUp(x, 0) == 0
  {
    hide Pow2, AndNot;
    Relr.WordSize();
    AndNotAll(Wrap(x - 1), 64);
  }

  // ---------------------------------------------------------------------------------------------------
  // Assigning offsets

  /** An object with a place in the static area: it occupies the bytes from TP - offset on. */
  datatype Block = Block(size: nat, align: nat, offset: nat)

  /** `initial_tls_size`, `total_initial_tls_size` (0 until the area is laid out) and the blocks placed so far. */
  datatype Area = Area(used: nat, total: nat, blocks: seq<Block>)

  /** The room left for TLS of objects loaded later. */
  const SPARE: nat := 4096

  /** The TLS segments of the executable (size 0 and alignment 1 if it has none) and of libc (0 and 0). */
  datatype Segments = Segments(exeSize: nat, exeAlign: nat, libcSize: nat, libcAlign: nat)

  /** Startup: the executable's block, then libc's. */
  function Startup(p: Segments): Area {
    var exe := AlignUp(p.exeSize, p.exeAlign);
    var libc := AlignUp(exe + p.libcSize, p.libcAlign);
    Area(libc, 0, [Block(p.exeSize, p.exeAlign, exe), Block(p.libcSize, p.libcAlign, libc)])
  }

  /** What happens to the area: an object with initial-exec TLS is loaded, or the area is sized for the first thread. */
  datatype Action = Load(size: nat, align: nat) | Freeze

  /** The load goes through: the limit applies only once the area is sized. */
  predicate Enabled(s: Area, a: Action) {
    match a
    case Load(size, align) => size > 0 && (s.total == 0 || AlignUp(s.used + size, align) <= s.total)
    case Freeze => s.total == 0
  }

  function Step(s: Area, a: Action): Area
    requires Enabled(s, a)
  {
    match a
    case Load(size, align) =>
      var offset := AlignUp(s.used + size, align);
      Area(offset, s.total, s.blocks + [Block(size, align, offset)])
    case Freeze => s.(total := s.used + SPARE)
  }

  /** The alignments ELF allows: a power of two, or 0 for none. */
  ghost predicate Legal(align: nat) {
    align == 0 || IsPower(align)
  }

  /** Alignments are legal and the sums do not leave the address space. */
  ghost predicate Proper(s: Area, a: Action) {
    a.Load? ==> Legal(a.align) && s.used + a.size + a.align <= WORD
  }

  ghost predicate ProperStart(p: Segments) {
    && Legal(p.exeAlign) && p.exeSize + p.exeAlign <= WORD
    && Legal(p.libcAlign) && AlignUp(p.exeSize, p.exeAlign) + p.libcSize + p.libcAlign <= WORD
  }

  /** Each block is aligned and ends before the thread pointer, and each lies below all earlier ones. */
  ghost predicate Laid(blocks: seq<Block>) {
    && (forall i | 0 <= i < |blocks| ::
          && blocks[i].size <= blocks[i].offset
          && (blocks[i].align > 0 ==> blocks[i].offset % blocks[i].align == 0))
    && (forall i, j | 0 <= i < j < |blocks| :: blocks[i].offset <= blocks[j].offset - blocks[j].size)
  }

  /** The blocks are laid out within the used part, and that within the area. */
  ghost predicate Inv(s: Area) {
    && Laid(s.blocks)
    && (forall i | 0 <= i < |s.blocks| :: s.blocks[i].offset <= s.used)
    && (s.total > 0 ==> s.used <= s.total)
  }

  /** What the segments must be for that: an alignment of 0 makes the mask clear the whole offset, which is right only
      when nothing has to be placed or kept clear of. */
  predicate StartsClear(p: Segments) {
    && (p.exeAlign != 0 || p.exeSize == 0)
    && (p.libcAlign != 0 || (p.libcSize == 0 && p.exeSize == 0))
  }

  lemma AlignUpLegal(x: nat, a: nat)
    requires Legal(a) && x + a <= WORD
    ensures a == 0 ==> AlignUp(x, a) == 0
    ensures a != 0 ==> x <= AlignUp(x, a) < x + a && AlignUp(x, a) % a == 0
    ensures x == 0 ==> AlignUp(x, a) == 0
  {
    hide AlignUp, IsPower;
    if a == 0 {
      AlignUpZero(x);
    } else {
      AlignUpPower(x, a);
      if x == 0 && AlignUp(x, a) != 0 {
        SmallMultiple(AlignUp(x, a), a);
      }
    }
  }

  lemma SmallMultiple(y: nat, a: nat)
    requires y < a
    ensures y % a == y
  {}

  /** Startup lays the blocks out exactly under that condition, for all alignments ELF allows. */
  lemma StartupInvIff(p: Segments)
    requires ProperStart(p)
    ensures Inv(Startup(p)) <==> StartsClear(p)
    ensures Laid(Startup(p).blocks) <==> StartsClear(p)
  {
    hide AlignUp, IsPower, Legal;
    AlignUpLegal(p.exeSize, p.exeAlign);
    AlignUpLegal(AlignUp(p.exeSize, p.exeAlign) + p.libcSize, p.libcAlign);
    var blocks := Startup(p).blocks;
    assert blocks[0] == Block(p.exeSize, p.exeAlign, AlignUp(p.exeSize, p.exeAlign));
    assert |blocks| == 2 && blocks[1].size == p.libcSize && blocks[1].align == p.libcAlign;
  }

  /** A load keeps the layout exactly when its alignment is not 0. */
  lemma StepInvIff(s: Area, a: Action)
    requires Inv(s) && Enabled(s, a) && Proper(s, a)
    ensures Inv(Step(s, a)) <==> (a.Load? ==> a.align != 0)
    ensures Laid(Step(s, a).blocks) <==> (a.Load? ==> a.align != 0)
  {
    hide AlignUp, IsPower, Legal;
    if a.Load? {
      AlignUpLegal(s.used + a.size, a.align);
      var blocks := Step(s, a).blocks;
      assert blocks[|s.blocks|] == Block(a.size, a.align, AlignUp(s.used + a.size, a.align));
      assert forall i | 0 <= i < |s.blocks| :: blocks[i] == s.blocks[i];
    }
  }

  /** A run from startup on: any loads before and after the area is sized. */
  ghost predicate IsRun(p: Segments, states: seq<Area>, actions: seq<Action>) {
    && |states| == |actions| + 1
    && ProperStart(p) && states[0] == Startup(p)
    && forall i | 0 <= i < |actions| ::
         Enabled(states[i], actions[i]) && Proper(states[i], actions[i]) && states[i + 1] == Step(states[i], actions[i])
  }

  /** No segment placed so far had alignment 0, except where that is harmless. */
  predicate AllClear(p: Segments, actions: seq<Action>) {
    StartsClear(p) && forall i | 0 <= i < |actions| && actions[i].Load? :: actions[i].align != 0
  }

  lemma AllClearStep(p: Segments, actions: seq<Action>, i: nat)
    requires i < |actions|
    ensures AllClear(p, actions[..i + 1])
            <==> AllClear(p, actions[..i]) && (actions[i].Load? ==> actions[i].align != 0)
  {
    assert actions[..i + 1] == actions[..i] + [actions[i]];
  }

  /** A layout once spoilt stays spoilt, since blocks are only added. */
  lemma LaidPrefix(a: seq<Block>, b: seq<Block>)
    requires a <= b && Laid(b)
    ensures Laid(a)
  {
    assert forall i | 0 <= i < |a| :: a[i] == b[i];
  }

  /** In every state of every run the blocks are laid out exactly when no alignment of 0 got in the way. */
  lemma {:induction false} RunInvIff(p: Segments, states: seq<Area>, actions: seq<Action>, i: nat)
    requires IsRun(p, states, actions) && i < |states|
    ensures Inv(states[i]) <==> AllClear(p, actions[..i])
    ensures Laid(states[i].blocks) <==> AllClear(p, actions[..i])
    decreases i
  {
    hide Step, Enabled, Proper, ProperStart, Startup, StartsClear, Laid;
    if i == 0 {
      StartupInvIff(p);
    } else {
      RunInvIff(p, states, actions, i - 1);
      AllClearStep(p, actions, i - 1);
      if Inv(states[i - 1]) {
        StepInvIff(states[i - 1], actions[i - 1]);
      } else {
        StepKeeps(states[i - 1], actions[i - 1]);
        if Laid(states[i].blocks) {
          LaidPrefix(states[i - 1].blocks, states[i].blocks);
        }
      }
    }
  }

  lemma StepKeeps(s: Area, a: Action)
    requires Enabled(s, a)
    ensures s.blocks <= Step(s, a).blocks && (s.total > 0 ==> Step(s, a).total == s.total)
  {
    hide AlignUp;
  }

  /** Offsets and the size of the area never change once set. */
  lemma {:induction false} RunKeeps(p: Segments, states: seq<Area>, actions: seq<Action>, i: nat, j: nat)
    requires IsRun(p, states, actions) && i <= j < |states|
    ensures states[i].blocks <= states[j].blocks
    ensures states[i].total > 0 ==> states[j].total == states[i].total
    decreases j
  {
    hide Step, Enabled, Proper, ProperStart, Startup;
    if i < j {
      RunKeeps(p, states, actions, i, j - 1);
      StepKeeps(states[j - 1], actions[j - 1]);
    }
  }

  /** The state of the linker that assigns the offsets. */
  class ObjectStorage {
    var initialTlsSize: nat
    var totalInitialTlsSize: nat
    ghost var blocks: seq<Block>

    ghost function State(): Area
      reads this
    {
      Area(initialTlsSize, totalInitialTlsSize, blocks)
    }

    /** main.cpp: the executable and libc. */
    constructor (p: Segments)
      ensures State() == Startup(p)
    {
      var exeOffset := AlignUp(p.exeSize, p.exeAlign);
      var libcOffset := AlignUp(exeOffset + p.libcSize, p.libcAlign);
      initialTlsSize, totalInitialTlsSize := libcOffset, 0;
      blocks := [Block(p.exeSize, p.exeAlign, exeOffset), Block(p.libcSize, p.libcAlign, libcOffset)];
    }

    /** `load_dependencies` for one object: Some is its offset in the static area, None that it has none. */
    method Place(size: nat, align: nat, initialModel: bool, rtldLoaded: bool) returns (ok: bool, offset: Option<nat>)
      modifies this
      ensures size == 0 || !initialModel || !rtldLoaded ==> ok && offset.None? && State() == old(State())
      ensures size > 0 && initialModel && rtldLoaded ==>
                && (ok <==> Enabled(old(State()), Load(size, align)))
                && (ok ==> State() == Step(old(State()), Load(size, align)) && offset == Some(initialTlsSize))
                && (!ok ==> State() == old(State()))
    {
      if size != 0 && initialModel && rtldLoaded {
        var end := AlignUp(initialTlsSize + size, align);
        if totalInitialTlsSize != 0 && end > totalInitialTlsSize {
          return false, None;
        }
        initialTlsSize := end;
        blocks := blocks + [Block(size, align, end)];
        return true, Some(end);
      }
      return true, None;
    }
  }

  // ---------------------------------------------------------------------------------------------------
  // The area of a thread

  const TCB_ALIGN: nat := 16          // alignof(Tcb)

  /** `__dlapi_create_tcb`: the TCB, which is also the thread pointer, follows the area. */
  function TcbAddress(mem: nat, total: nat): nat {
    mem + AlignUp(total, TCB_ALIGN)
  }

  /** The bytes of a block as [Start, Start + size). */
  function BlockStart(tcb: nat, b: Block): int {
    tcb - b.offset
  }

  predicate Apart(tcb: nat, a: Block, b: Block) {
    BlockStart(tcb, a) + a.size <= BlockStart(tcb, b) || BlockStart(tcb, b) + b.size <= BlockStart(tcb, a)
  }

  lemma TcbAlignIsPower()
    ensures IsPower(TCB_ALIGN)
  {
    assert Pow2(4) == 16;
  }

  /** Blocks between the start of the allocation and the TCB, each below all earlier ones, with aligned offsets. */
  ghost predicate Sound(mem: nat, tcb: nat, blocks: seq<Block>) {
    && (forall k | 0 <= k < |blocks| ::
          && mem <= BlockStart(tcb, blocks[k]) <= BlockStart(tcb, blocks[k]) + blocks[k].size <= tcb
          && (blocks[k].align > 0 ==> blocks[k].offset % blocks[k].align == 0))
    && (forall k, l | 0 <= k < l < |blocks| ::
          BlockStart(tcb, blocks[l]) + blocks[l].size <= BlockStart(tcb, blocks[k]))
  }

  /** Over any run, in every thread created after the area was sized (state i) and for all objects placed by state j,
      those loaded after the thread included: the static blocks are sound exactly when no alignment of 0 got in the
      way. Sound blocks are pairwise disjoint. */
  lemma StaticTls(p: Segments, states: seq<Area>, actions: seq<Action>, i: nat, j: nat, mem: nat)
    requires IsRun(p, states, actions) && i <= j < |states|
    requires 0 < states[i].total <= WORD - TCB_ALIGN
    ensures var tcb, blocks := TcbAddress(mem, states[i].total), states[j].blocks;
            && (Sound(mem, tcb, blocks) <==> AllClear(p, actions[..j]))
            && (Sound(mem, tcb, blocks) ==>
                  forall k, l | 0 <= k < l < |blocks| :: Apart(tcb, blocks[k], blocks[l]))
  {
    hide AlignUp, IsPower, IsRun, AllClear;
    RunInvIff(p, states, actions, j);
    RunKeeps(p, states, actions, i, j);
    TcbAlignIsPower();
    AlignUpPower(states[i].total, TCB_ALIGN);
  }

  /** A block's address is aligned as its segment asks exactly when the area, rounded to 16 as `__dlapi_create_tcb`
      rounds it, ends on a multiple of the alignment; alignments that divide 16 are safe in aligned memory. */
  lemma AddressAlignedIff(mem: nat, total: nat, b: Block)
    requires b.align > 0 && b.offset % b.align == 0 && b.offset <= TcbAddress(mem, total)
    ensures BlockStart(TcbAddress(mem, total), b) % b.align == 0
            <==> (mem + AlignUp(total, TCB_ALIGN)) % b.align == 0
    ensures mem % b.align == 0 ==>
              (BlockStart(TcbAddress(mem, total), b) % b.align == 0 <==> AlignUp(total, TCB_ALIGN) % b.align == 0)
  {
    hide AlignUp;
    SameRemainder(TcbAddress(mem, total), b.offset, b.align);
    if mem % b.align == 0 {
      SameRemainder(TcbAddress(mem, total), mem, b.align);
    }
  }

  /** The TCB itself is as far from a multiple of 16 as the allocation. */
  lemma TcbPlacement(mem: nat, total: nat)
    requires total + TCB_ALIGN <= WORD
    ensures TcbAddress(mem, total) % TCB_ALIGN == mem % TCB_ALIGN
  {
    hide AlignUp;
    TcbAlignIsPower();
    AlignUpPower(total, TCB_ALIGN);
  }

  /** An address that is not aligned: an executable with 64-aligned TLS, in memory aligned to a page. */
  lemma OverAlignedBlock(k: nat)
    ensures var s := Step(Startup(Segments(64, 64, 8, 8)), Freeze);
            s.blocks[0].align == 64 && BlockStart(TcbAddress(4096 * k, s.total), s.blocks[0]) % 64 == 16
  {
    hide AlignUp;
    SmallPowers();
    hide Pow2;
    NextMultiple(64, 6, 64);
    NextMultiple(72, 3, 72);
    NextMultiple(4168, 4, 4176);
  }

  lemma SmallPowers()
    ensures Pow2(3) == 8 && Pow2(4) == 16 && Pow2(6) == 64
  {}

  /** The next multiple is the only multiple less than one step above. */
  lemma NextMultiple(x: nat, k: nat, y: nat)
    requires x + Pow2(k) <= WORD && x <= y < x + Pow2(k) && y % Pow2(k) == 0
    ensures AlignUp(x, Pow2(k)) == y
  {
    hide AlignUp, Pow2;
    var a := Pow2(k);
    AlignUpPower(x, a);
    var z := AlignUp(x, a);
    if z < y {
      SameRemainder(y, z, a);
      SmallMultiple(y - z, a);
    } else if y < z {
      SameRemainder(z, y, a);
      SmallMultiple(z - y, a);
    }
  }

  lemma SameRemainder(x: nat, y: nat, a: nat)
    requires a > 0 && y <= x && y % a == 0
    ensures (x - y) % a == x % a
  {
    QuotientIsDivision(x, a);
    QuotientIsDivision(y, a);
    QuotientIsDivision(x - y, a);
    DivisionTheorem(x - y, a);
    DivisionTheorem(y, a);
    hide Quotient, Remainder;
    Distribute(Quotient(x - y, a), Quotient(y, a), a);
    QuotientUnique(x, a, Quotient(x - y, a) + Quotient(y, a), Remainder(x - y, a));
  }

  /** A R_TPOFF word added to the thread pointer is the address `init_tls` gives the variable, for a symbol of another
      object and for the object's own block. */
  lemma TpOffAddress(env: Relocate.Env, sym: nat, addend: Word, w: Word, tcb: nat, b: Block, value: Word)
    requires Relocate.Process(env, Relocate.TpOff, sym, addend) == Relocate.Write(w)
    requires if sym == 0 then b.offset == env.tlsOffset && value == 0
             else sym in env.resolved && b.offset == env.resolved[sym].tlsOffset && value == env.resolved[sym].value
    ensures Wrap(tcb + w) == Wrap(BlockStart(tcb, b) + value + addend)
  {
    hide Wrap;
    var offset: int := b.offset;
    Relr.WrapTwice(-offset + value + addend, tcb);
  }

  /** An object as `init_tls` sees it. */
  datatype TlsObject = TlsObject(initialModel: bool, initialized: bool, block: Block, image: seq<Byte>) {
    /** Its block is to be filled; with `checkInitialized`, blocks filled before are left alone. */
    predicate Chosen(checkInitialized: bool) {
      initialModel && !(checkInitialized && initialized) && block.size != 0
    }
  }

  /** The block holds the image of its segment, and zeros after it. */
  ghost predicate Holds(bytes: map<int, Byte>, tcb: nat, o: TlsObject) {
    forall a | Inside(tcb, o, a) ::
      && a in bytes
      && var k := a - BlockStart(tcb, o.block); bytes[a] == if k < |o.image| then o.image[k] else 0
  }

  predicate Inside(tcb: nat, o: TlsObject, a: int) {
    BlockStart(tcb, o.block) <= a < BlockStart(tcb, o.block) + o.block.size
  }

  /** No chosen block contains the address. */
  ghost predicate Outside(tcb: nat, checkInitialized: bool, objects: seq<TlsObject>, a: int) {
    forall i | 0 <= i < |objects| && objects[i].Chosen(checkInitialized) :: !Inside(tcb, objects[i], a)
  }

  lemma OutsideMore(tcb: nat, checkInitialized: bool, objects: seq<TlsObject>, n: nat, a: int)
    requires n < |objects|
    ensures Outside(tcb, checkInitialized, objects[..n + 1], a)
            <==> Outside(tcb, checkInitialized, objects[..n], a)
                 && (objects[n].Chosen(checkInitialized) ==> !Inside(tcb, objects[n], a))
  {
    assert forall i | 0 <= i < n :: objects[..n + 1][i] == objects[..n][i];
    assert objects[..n + 1][n] == objects[n];
  }

  class Memory {
    var bytes: map<int, Byte>

    /** rtld_memcpy of the image and rtld_memset of the rest. */
    method Fill(tcb: nat, o: TlsObject)
      requires |o.image| <= o.block.size
      requires forall a | Inside(tcb, o, a) :: a in bytes
      modifies this
      ensures bytes.Keys == old(bytes).Keys && Holds(bytes, tcb, o)
      ensures forall a | a in bytes && !Inside(tcb, o, a) :: bytes[a] == old(bytes)[a]
    {
      var ptr := BlockStart(tcb, o.block);
      for k := 0 to |o.image|
        invariant bytes.Keys == old(bytes).Keys
        invariant forall a | ptr <= a < ptr + k :: a in bytes && bytes[a] == o.image[a - ptr]
        invariant forall a | a in bytes && !(ptr <= a < ptr + k) :: bytes[a] == old(bytes)[a]
      {
        assert Inside(tcb, o, ptr + k);
        bytes := bytes[ptr + k := o.image[k]];
      }
      for k := |o.image| to o.block.size
        invariant bytes.Keys == old(bytes).Keys
        invariant forall a | ptr <= a < ptr + k ::
                    a in bytes && bytes[a] == if a - ptr < |o.image| then o.image[a - ptr] else 0
        invariant forall a | a in bytes && !(ptr <= a < ptr + k) :: bytes[a] == old(bytes)[a]
      {
        assert Inside(tcb, o, ptr + k);
        bytes := bytes[ptr + k := 0];
      }
    }

    /** `init_tls`: no block disturbs another, so in the end each chosen one holds its image and then zeros. */
    method InitTls(tcb: nat, checkInitialized: bool, objects: seq<TlsObject>)
      requires forall i, j | 0 <= i < j < |objects| :: Apart(tcb, objects[i].block, objects[j].block)
      requires forall i, a | 0 <= i < |objects| && Inside(tcb, objects[i], a) :: a in bytes
      requires forall i | 0 <= i < |objects| :: |objects[i].image| <= objects[i].block.size
      modifies this
      ensures bytes.Keys == old(bytes).Keys
      ensures forall i | 0 <= i < |objects| && objects[i].Chosen(checkInitialized) :: Holds(bytes, tcb, objects[i])
      ensures forall a | a in bytes && Outside(tcb, checkInitialized, objects, a) :: bytes[a] == old(bytes)[a]
    {
      hide Holds;
      for n := 0 to |objects|
        invariant bytes.Keys == old(bytes).Keys
        invariant forall i | 0 <= i < n && objects[i].Chosen(checkInitialized) :: Holds(bytes, tcb, objects[i])
        invariant forall a | a in bytes && Outside(tcb, checkInitialized, objects[..n], a) :: bytes[a] == old(bytes)[a]
      {
        forall a {
          OutsideMore(tcb, checkInitialized, objects, n, a);
        }
        var o := objects[n];
        if !o.initialModel || (checkInitialized && o.initialized) || o.block.size == 0 {
          continue;
        }
        ghost var before := bytes;
        Fill(tcb, objects[n]);
        forall i | 0 <= i < n && objects[i].Chosen(checkInitialized) ensures Holds(bytes, tcb, objects[i]) {
          HoldsStill(before, bytes, tcb, objects[i], objects[n]);
        }
      }
      assert objects[..|objects|] == objects;
    }

    /** `__dlapi_create_tcb` in a state of a run: every object placed so far has its image in the new thread's block. */
    method CreateTcb(ghost p: Segments, ghost states: seq<Area>, ghost actions: seq<Action>, ghost i: nat,
                     mem: nat, total: nat, objects: seq<TlsObject>) returns (tcb: nat)
      requires IsRun(p, states, actions) && i < |states| && AllClear(p, actions[..i])
      requires 0 < total == states[i].total <= WORD - TCB_ALIGN
      requires Placed(objects, states[i].blocks)
      requires forall a | mem <= a < TcbAddress(mem, total) :: a in bytes
      modifies this
      ensures tcb == TcbAddress(mem, total) && bytes.Keys == old(bytes).Keys
      ensures forall k | 0 <= k < |objects| :: Holds(bytes, tcb, objects[k])
      ensures forall a | a in bytes && !(mem <= a < tcb) :: bytes[a] == old(bytes)[a]
    {
      hide AlignUp, IsRun, AllClear;
      tcb := mem + AlignUp(total, TCB_ALIGN);
      StaticTls(p, states, actions, i, i, mem);
      InitTls(tcb, false, objects);
      forall k | 0 <= k < |objects| ensures Holds(bytes, tcb, objects[k]) {
        assert objects[k].Chosen(false) || objects[k].block.size == 0;
      }
    }
  }

  lemma HoldsStill(before: map<int, Byte>, after: map<int, Byte>, tcb: nat, o: TlsObject, filled: TlsObject)
    requires Holds(before, tcb, o) && Apart(tcb, o.block, filled.block) && after.Keys == before.Keys
    requires forall a | a in after && !Inside(tcb, filled, a) :: after[a] == before[a]
    ensures Holds(after, tcb, o)
  {
    assert forall a | Inside(tcb, o, a) :: !Inside(tcb, filled, a);
  }

  /** The objects that were given the blocks, each with an image that fits. */
  ghost predicate Placed(objects: seq<TlsObject>, blocks: seq<Block>) {
    && |objects| == |blocks|
    && forall k | 0 <= k < |objects| ::
         objects[k].block == blocks[k] && objects[k].initialModel && |objects[k].image| <= objects[k].block.size
  }

  /** In a thread whose block holds the object's image, the byte at the thread pointer plus the R_TPOFF word of a
      variable is the variable's initial byte. */
  lemma ThreadVariable(bytes: map<int, Byte>, mem: nat, tcb: nat, o: TlsObject, env: Relocate.Env, sym: nat,
                       addend: Word, w: Word, value: Word)
    requires Holds(bytes, tcb, o) && mem <= BlockStart(tcb, o.block) && o.block.size <= o.block.offset && tcb < WORD
    requires Relocate.Process(env, Relocate.TpOff, sym, addend) == Relocate.Write(w)
    requires if sym == 0 then o.block.offset == env.tlsOffset && value == 0
             else && sym in env.resolved && o.block.offset == env.resolved[sym].tlsOffset
                  && value == env.resolved[sym].value
    requires Wrap(value + addend) < o.block.size
    ensures && Wrap(tcb + w) in bytes
            && var k := Wrap(value + addend); bytes[Wrap(tcb + w)] == if k < |o.image| then o.image[k] else 0
  {
    hide Relocate.Process, Wrap;
    TpOffAddress(env, sym, addend, w, tcb, o.block, value);
    var start := BlockStart(tcb, o.block);
    Relr.WrapTwice(value + addend, start);
    Relr.NoWrap(start + Wrap(value + addend));
    assert Inside(tcb, o, start + Wrap(value + addend));
  }

  // ---------------------------------------------------------------------------------------------------
  // Which threads get an object's image

  type Tid = nat

  /** The objects with static TLS so far, those marked `tls_initialized`, and for which thread and object `init_tls` has
      written the image. `createdAt` (objects at a thread's creation) and `openedBy` only record history. */
  datatype Images = Images(objects: nat, initialized: set<nat>, written: set<(Tid, nat)>,
                           createdAt: map<Tid, nat>, openedBy: map<nat, Tid>)

  /** Loading at startup, creating a thread, and a run-time load by a thread; the linker's lock makes each one step. */
  datatype Event = LoadEarly(count: nat) | Create(t: Tid) | Open(t: Tid, count: nat)

  predicate Possible(s: Images, e: Event) {
    match e
    case LoadEarly(_) => s.createdAt == map[]
    case Create(t) => t !in s.createdAt
    case Open(t, _) => t in s.createdAt
  }

  /** `init_tls` for thread t: the objects it chooses are written and all are marked. */
  function WithImages(s: Images, t: Tid, checkInitialized: bool): Images {
    var all := Numbers(0, s.objects);
    s.(written := s.written + set k | k in all && !(checkInitialized && k in s.initialized) :: (t, k),
       initialized := all)
  }

  function Numbers(from: nat, to: nat): set<nat> {
    set k: nat | from <= k < to && Within(k, to)
  }

  predicate Within(k: nat, n: nat) {
    k < n
  }

  function After(s: Images, e: Event): Images
    requires Possible(s, e)
  {
    match e
    case LoadEarly(count) => s.(objects := s.objects + count)
    case Create(t) => WithImages(s.(createdAt := s.createdAt[t := s.objects]), t, false)
    case Open(t, count) =>
      var added := Numbers(s.objects, s.objects + count);
      WithImages(s.(objects := s.objects + count, openedBy := s.openedBy + map k | k in added :: t), t, true)
  }

  /** The thread came after the object, or loaded it. */
  predicate Entitled(s: Images, t: Tid, k: nat) {
    t in s.createdAt && (k < s.createdAt[t] || (k in s.openedBy && s.openedBy[k] == t))
  }

  ghost predicate ImagesInv(s: Images) {
    && (forall k | k in s.openedBy :: k < s.objects)
    && (forall t | t in s.createdAt :: s.createdAt[t] <= s.objects)
    && (forall k: nat | s.createdAt != map[] :: k in s.initialized <==> k < s.objects)
    && (s.createdAt == map[] ==> s.initialized == {} && s.openedBy == map[])
    && (forall t: Tid, k: nat | k < s.objects :: (t, k) in s.written <==> Entitled(s, t, k))
    && (forall t: Tid, k: nat | (t, k) in s.written :: k < s.objects)
  }

  ghost predicate IsHistory(states: seq<Images>, events: seq<Event>) {
    && |states| == |events| + 1
    && states[0] == Images(0, {}, {}, map[], map[])
    && forall i | 0 <= i < |events| :: Possible(states[i], events[i]) && states[i + 1] == After(states[i], events[i])
  }

  lemma AfterInv(s: Images, e: Event)
    requires ImagesInv(s) && Possible(s, e)
    ensures ImagesInv(After(s, e))
  {
    var s' := After(s, e);
    if e.Create? || e.Open? {
      assert e.t in s'.createdAt;
    }
    assert forall k: nat, m: nat, n: nat :: k in Numbers(m, n) <==> m <= k && Within(k, n);
  }

  /** In every history `init_tls` has written an object's image for a thread exactly when the thread was created after
      the object was loaded or loaded it itself. */
  lemma {:induction false} ImageWrittenIff(states: seq<Images>, events: seq<Event>, n: nat)
    requires IsHistory(states, events) && n < |states|
    ensures ImagesInv(states[n])
    ensures forall t: Tid, k: nat | k < states[n].objects :: (t, k) in states[n].written <==> Entitled(states[n], t, k)
    decreases n
  {
    hide Possible, After;
    if n > 0 {
      ImageWrittenIff(states, events, n - 1);
      AfterInv(states[n - 1], events[n - 1]);
    }
  }

  /** A thread without an image: thread 0 loads an object while thread 1 runs. */
  lemma OtherThreadMisses()
    ensures var s0 := Images(0, {}, {}, map[], map[]);
            var s1 := After(s0, Create(0));
            var s2 := After(s1, Create(1));
            var s3 := After(s2, Open(0, 1));
            s3.objects == 1 && (0, 0) in s3.written && (1, 0) !in s3.written
  {}

  /** Indeed nothing that `init_tls` writes for one thread lies in the area of another. */
  lemma OtherThreadsUntouched(mem: nat, tcb: nat, checkInitialized: bool, objects: seq<TlsObject>, a: int)
    requires forall k | 0 <= k < |objects| ::
               mem <= BlockStart(tcb, objects[k].block) && objects[k].block.size <= objects[k].block.offset
    requires !(mem <= a < tcb)
    ensures Outside(tcb, checkInitialized, objects, a)
  {}

  // ---------------------------------------------------------------------------------------------------
  // Alignment 0

  /** A new block lies clear of the used part exactly when its alignment is not 0, or nothing is used or needed. */
  lemma PlacedClearIff(used: nat, size: nat, align: nat)
    requires Legal(align) && used + size + align <= WORD
    ensures used <= AlignUp(used + size, align) - size <==> align != 0 || used + size == 0
  {
    hide AlignUp, IsPower, Legal;
    AlignUpLegal(used + size, align);
  }

  // ---------------------------------------------------------------------------------------------------
  // Disjoint blocks, in whatever order

  /** Every block ends before the thread pointer and no two share a byte. */
  ghost predicate Disjoint(tcb: nat, blocks: seq<Block>) {
    && (forall k | 0 <= k < |blocks| :: blocks[k].size <= blocks[k].offset)
    && (forall k, l | 0 <= k < l < |blocks| :: Apart(tcb, blocks[k], blocks[l]))
  }

  /** No segment with bytes in it has alignment 0. */
  predicate StartsApart(p: Segments) {
    && (p.exeAlign != 0 || p.exeSize == 0)
    && (p.libcAlign != 0 || p.libcSize == 0)
  }

  /** Libc's alignment of 0 sets the used size back to 0, so that loads start over beside the executable's block. */
  predicate StartsOver(p: Segments) {
    p.libcAlign == 0 && p.exeSize > 0
  }

  /** A load that fits between the executable's block and the thread pointer, or goes below the block. */
  predicate Misses(p: Segments, used: nat, size: nat, align: nat) {
    var exe, offset := AlignUp(p.exeSize, p.exeAlign), AlignUp(used + size, align);
    offset + p.exeSize <= exe || exe + size <= offset
  }

  /** A test before each load. */
  predicate Harmless(p: Segments, s: Area, a: Action) {
    a.Load? ==> a.align != 0 && (StartsOver(p) ==> Misses(p, s.used, a.size, a.align))
  }

  ghost predicate StaysApart(p: Segments, states: seq<Area>, actions: seq<Action>, i: nat)
    requires i <= |actions| && i <= |states|
  {
    StartsApart(p) && forall k | 0 <= k < i :: Harmless(p, states[k], actions[k])
  }

  /** Disjoint blocks, all within the used part but for the executable's when loads start over. */
  ghost predicate Tracked(p: Segments, tcb: nat, s: Area) {
    && Disjoint(tcb, s.blocks)
    && |s.blocks| >= 2 && s.blocks[0] == Block(p.exeSize, p.exeAlign, AlignUp(p.exeSize, p.exeAlign))
    && (forall k | 1 <= k < |s.blocks| :: s.blocks[k].offset <= s.used)
    && (!StartsOver(p) ==> s.blocks[0].offset <= s.used)
  }

  /** Right after startup the two blocks are disjoint exactly when no segment with bytes in it has alignment 0. */
  lemma StartupDisjointIff(p: Segments, tcb: nat)
    requires ProperStart(p)
    ensures Disjoint(tcb, Startup(p).blocks) <==> StartsApart(p)
    ensures StartsApart(p) ==> Tracked(p, tcb, Startup(p))
  {
    hide AlignUp, IsPower, Legal;
    AlignUpLegal(p.exeSize, p.exeAlign);
    AlignUpLegal(AlignUp(p.exeSize, p.exeAlign) + p.libcSize, p.libcAlign);
    var blocks := Startup(p).blocks;
    assert |blocks| == 2 && blocks[0] == Block(p.exeSize, p.exeAlign, AlignUp(p.exeSize, p.exeAlign));
    assert blocks[1].size == p.libcSize && blocks[1].align == p.libcAlign;
  }

  /** A load keeps the blocks disjoint exactly when it passes the test. */
  lemma StepDisjointIff(p: Segments, tcb: nat, s: Area, a: Action)
    requires Tracked(p, tcb, s) && Enabled(s, a) && Proper(s, a)
    ensures Disjoint(tcb, Step(s, a).blocks) <==> Harmless(p, s, a)
    ensures Harmless(p, s, a) ==> Tracked(p, tcb, Step(s, a))
  {
    hide AlignUp, IsPower, Legal;
    if a.Load? {
      AlignUpLegal(s.used + a.size, a.align);
      var n, blocks := |s.blocks|, Step(s, a).blocks;
      assert blocks[n] == Block(a.size, a.align, AlignUp(s.used + a.size, a.align));
      assert forall i | 0 <= i < n :: blocks[i] == s.blocks[i];
      assert Disjoint(tcb, blocks) ==> Apart(tcb, blocks[0], blocks[n]);
    }
  }

  lemma DisjointPrefix(tcb: nat, a: seq<Block>, b: seq<Block>)
    requires a <= b && Disjoint(tcb, b)
    ensures Disjoint(tcb, a)
  {
    assert forall i | 0 <= i < |a| :: a[i] == b[i];
  }

  /** In every state of every run the blocks are disjoint exactly when every load so far passed the test. */
  lemma {:induction false} RunDisjointIff(p: Segments, states: seq<Area>, actions: seq<Action>, i: nat, tcb: nat)
    requires IsRun(p, states, actions) && i < |states|
    ensures Disjoint(tcb, states[i].blocks) <==> StaysApart(p, states, actions, i)
    ensures StaysApart(p, states, actions, i) ==> Tracked(p, tcb, states[i])
    decreases i
  {
    hide Step, Enabled, Proper, ProperStart, Startup, StartsApart, Disjoint, Tracked, Harmless;
    if i == 0 {
      StartupDisjointIff(p, tcb);
    } else {
      RunDisjointIff(p, states, actions, i - 1, tcb);
      if StaysApart(p, states, actions, i - 1) {
        StepDisjointIff(p, tcb, states[i - 1], actions[i - 1]);
      } else {
        StepKeeps(states[i - 1], actions[i - 1]);
        if Disjoint(tcb, states[i].blocks) {
          DisjointPrefix(tcb, states[i - 1].blocks, states[i].blocks);
        }
      }
    }
  }

  lemma {:induction false} UsedWithinTotal(p: Segments, states: seq<Area>, actions: seq<Action>, i: nat)
    requires IsRun(p, states, actions) && i < |states| && states[i].total > 0
    ensures states[i].used <= states[i].total
    decreases i
  {
    hide AlignUp, Proper, ProperStart;
    if states[i - 1].total > 0 {
      UsedWithinTotal(p, states, actions, i - 1);
    }
  }

  /** All blocks lie between the start of the allocation and the TCB, and no two share a byte. */
  ghost predicate Separate(mem: nat, tcb: nat, blocks: seq<Block>) {
    Disjoint(tcb, blocks) && forall k | 0 <= k < |blocks| :: mem <= BlockStart(tcb, blocks[k])
  }

  /** Over any run, in every thread created after the area was sized (state i) and for all objects placed by state j:
      the blocks are separate and inside the allocation exactly when every load passed the test and, should loads have
      started over, the executable's block still fits the area. */
  lemma StaticDisjointIff(p: Segments, states: seq<Area>, actions: seq<Action>, i: nat, j: nat, mem: nat)
    requires IsRun(p, states, actions) && i <= j < |states|
    requires 0 < states[i].total <= WORD - TCB_ALIGN
    ensures Separate(mem, TcbAddress(mem, states[i].total), states[j].blocks)
            <==> && StaysApart(p, states, actions, j)
                 && (StartsOver(p) ==> AlignUp(p.exeSize, p.exeAlign) <= AlignUp(states[i].total, TCB_ALIGN))
  {
    hide AlignUp, IsPower, IsRun, Disjoint, StaysApart, StartsOver;
    var tcb := TcbAddress(mem, states[i].total);
    RunDisjointIff(p, states, actions, j, tcb);
    RunKeeps(p, states, actions, i, j);
    UsedWithinTotal(p, states, actions, j);
    TcbAlignIsPower();
    AlignUpPower(states[i].total, TCB_ALIGN);
  }

  /** Disjoint though not in order: the load takes the padding of an executable whose alignment is large. */
  lemma DisjointOutOfOrder(tcb: nat)
    ensures var p := Segments(8, 64, 0, 0);
            var s := Startup(p);
            && !StartsClear(p) && Enabled(s, Load(8, 8)) && Harmless(p, s, Load(8, 8))
            && Disjoint(tcb, Step(s, Load(8, 8)).blocks)
  {
    hide AlignUp;
    SmallPowers();
    hide Pow2;
    NextMultiple(8, 6, 64);
    NextMultiple(8, 3, 8);
    AlignUpZero(64);
  }

  /** A libc without a TLS segment: the layout is spoilt for every executable with TLS, and with 8 bytes of it the next
      object of 8 bytes shares them. */
  lemma LibcWithoutTls(tcb: nat)
    ensures var s := Startup(Segments(8, 8, 0, 0));
            && Enabled(s, Load(8, 8))
            && var blocks := Step(s, Load(8, 8)).blocks;
               blocks[0].offset == blocks[2].offset == 8 && !Apart(tcb, blocks[0], blocks[2])
  {
    hide AlignUp;
    SmallPowers();
    hide Pow2;
    NextMultiple(8, 3, 8);
    AlignUpZero(8);
  }
}
