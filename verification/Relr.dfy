/** DT_RELR: the in-place loop of `relocate` and `relocate_libc` (src/rtld/shared_object.cpp), a decoder that lists the
    addresses it touches, and the encoder of the gABI's SHT_RELR section type. */
module Relr {
  import opened Words
  import opened Nonlinear
  import opened PowersOfTwo

  const SIZE := 8                     // sizeof(Elf_Relr)
  const BITMAP_BITS: nat := 63        // 8 * sizeof(Elf_Relr) - 1

  // ---------------------------------------------------------------------------------------------------
  // Decoding

  /** The addresses of the set bits, the lowest bit standing for addr. */
  function BitmapAddresses(addr: nat, bits: nat): seq<Word>
    decreases bits
  {
    if bits == 0 then []
    else (if bits % 2 == 1 then [Wrap(addr)] else []) + BitmapAddresses(addr + SIZE, bits / 2)
  }

  predicate BitSet(bits: nat, j: nat)
    decreases j
  {
    if j == 0 then bits % 2 == 1 else BitSet(bits / 2, j - 1)
  }

  /** a is the address of the set bit j. */
  ghost predicate Marks(addr: nat, bits: nat, a: Word, j: nat) {
    BitSet(bits, j) && a == Wrap(addr + SIZE * j)
  }

  lemma {:induction false} ListedIsMarked(addr: nat, bits: nat, a: Word) returns (j: nat)
    requires a in BitmapAddresses(addr, bits)
    ensures Marks(addr, bits, a, j)
    decreases bits
  {
    if bits % 2 == 1 && a == Wrap(addr) {
      j := 0;
    } else {
      j := ListedIsMarked(addr + SIZE, bits / 2, a);
      j := j + 1;
    }
  }

  lemma {:induction false} MarkedIsListed(addr: nat, bits: nat, a: Word, j: nat)
    requires Marks(addr, bits, a, j)
    ensures a in BitmapAddresses(addr, bits)
    decreases j
  {
    if bits == 0 {
      ZeroBits(j);
    } else if j > 0 {
      MarkedIsListed(addr + SIZE, bits / 2, a, j - 1);
    }
  }

  /** An address is listed exactly when it is that of a set bit. */
  lemma BitmapMeaning(addr: nat, bits: nat, a: Word)
    ensures a in BitmapAddresses(addr, bits) <==> exists j: nat :: Marks(addr, bits, a, j)
  {
    if a in BitmapAddresses(addr, bits) {
      var j := ListedIsMarked(addr, bits, a);
    }
    forall j: nat | Marks(addr, bits, a, j) ensures a in BitmapAddresses(addr, bits) {
      MarkedIsListed(addr, bits, a, j);
    }
  }

  lemma {:induction false} ZeroBits(j: nat)
    ensures !BitSet(0, j)
  {
    if j > 0 {
      ZeroBits(j - 1);
    }
  }

  /** The addresses in the order they are relocated; ok is false when a bitmap has no address to refer to. */
  datatype Decoded = Decoded(addrs: seq<Word>, ok: bool)

  function Before(addrs: seq<Word>, d: Decoded): Decoded {
    Decoded(addrs + d.addrs, d.ok)
  }

  /** Decoding from entry i on, with `next` the address after the last one described (0 is the null pointer). */
  function Decode(base: Word, entries: seq<Word>, next: Word): Decoded {
    if entries == [] then Decoded([], true)
    else
      var entry := entries[0];
      if entry % 2 == 0 then
        Before([Wrap(base + entry)], Decode(base, entries[1..], Wrap(base + entry + SIZE)))
      else if next == 0 then Decoded([], false)
      else
        Before(BitmapAddresses(next, entry / 2), Decode(base, entries[1..], Wrap(next + BITMAP_BITS * SIZE)))
  }

  // The table read entry by entry -------------------------------------------------------------------------

  /** Where the words of a bitmap at position q start: after the word of an address, or after the 63 words of the
      bitmap before it. */
  function WindowStart(base: Word, entries: seq<Word>, next: Word, q: nat): nat
    requires q <= |entries|
  {
    if q == 0 then next
    else if entries[q - 1] % 2 == 0 then base + entries[q - 1] + 8
    else WindowStart(base, entries, next, q - 1) + 63 * 8
  }

  /** Bit j + 1 of a bitmap stands for word j of its window. */
  ghost predicate Stands(start: nat, entry: Word, a: Word, j: nat) {
    BitSet(entry, j + 1) && a == Wrap(start + 8 * j)
  }

  ghost predicate Describes(base: Word, entries: seq<Word>, next: Word, q: int, a: Word) {
    && 0 <= q < |entries|
    && if entries[q] % 2 == 0 then a == Wrap(base + entries[q])
       else exists j: nat :: Stands(WindowStart(base, entries, next, q), entries[q], a, j)
  }

  /** The pointer after the first entry. */
  function NextOf(base: Word, entry: Word, next: Word): Word {
    if entry % 2 == 0 then Wrap(base + entry + 8) else Wrap(next + 63 * 8)
  }

  lemma {:induction false} WindowShift(base: Word, entries: seq<Word>, next: Word, q: nat)
    requires 1 <= q <= |entries|
    ensures Wrap(WindowStart(base, entries, next, q))
            == Wrap(WindowStart(base, entries[1..], NextOf(base, entries[0], next), q - 1))
    decreases q
  {
    hide Wrap;
    var next' := NextOf(base, entries[0], next);
    if q == 1 {
      WrapTwice(if entries[0] % 2 == 0 then base + entries[0] + 8 else next + 63 * 8, 0);
    } else {
      assert entries[1..][q - 2] == entries[q - 1];
      WindowShift(base, entries, next, q - 1);
      WrapTwice(WindowStart(base, entries, next, q - 1), 63 * 8);
      WrapTwice(WindowStart(base, entries[1..], next', q - 2), 63 * 8);
    }
  }

  lemma StandsWrapped(start: nat, start': nat, entry: Word, a: Word, j: nat)
    requires Wrap(start) == Wrap(start')
    ensures Stands(start, entry, a, j) <==> Stands(start', entry, a, j)
  {
    hide Wrap, BitSet;
    WrapTwice(start, 8 * j);
    WrapTwice(start', 8 * j);
  }

  lemma DescribesShift(base: Word, entries: seq<Word>, next: Word, q: int, a: Word)
    requires q >= 1 && entries != []
    ensures Describes(base, entries, next, q, a)
            <==> Describes(base, entries[1..], NextOf(base, entries[0], next), q - 1, a)
  {
    hide Wrap, Stands, WindowStart;
    if q < |entries| {
      WindowShift(base, entries, next, q);
      var start := WindowStart(base, entries, next, q);
      var start' := WindowStart(base, entries[1..], NextOf(base, entries[0], next), q - 1);
      forall j: nat ensures Stands(start, entries[q], a, j) <==> Stands(start', entries[q], a, j) {
        StandsWrapped(start, start', entries[q], a, j);
      }
    }
  }

  lemma DescribesFirst(base: Word, entries: seq<Word>, next: Word, a: Word)
    requires entries != [] && entries[0] % 2 == 1
    ensures a in BitmapAddresses(next, entries[0] / 2) <==> Describes(base, entries, next, 0, a)
  {
    hide Wrap, BitmapAddresses;
    BitmapMeaning(next, entries[0] / 2, a);
    assert WindowStart(base, entries, next, 0) == next;
    if a in BitmapAddresses(next, entries[0] / 2) {
      var j: nat :| Marks(next, entries[0] / 2, a, j);
      assert Stands(next, entries[0], a, j);
    }
    if Describes(base, entries, next, 0, a) {
      var j: nat :| Stands(next, entries[0], a, j);
      assert Marks(next, entries[0] / 2, a, j);
    }
  }

  lemma {:induction false} DecodeMeaningFrom(base: Word, entries: seq<Word>, next: Word, a: Word)
    requires Decode(base, entries, next).ok
    ensures a in Decode(base, entries, next).addrs <==> exists q :: Describes(base, entries, next, q, a)
    decreases entries
  {
    hide Wrap, BitmapAddresses;
    if entries != [] {
      var rest, next' := entries[1..], NextOf(base, entries[0], next);
      if entries[0] % 2 == 1 {
        DescribesFirst(base, entries, next, a);
      }
      DecodeMeaningFrom(base, rest, next', a);
      if exists q :: Describes(base, entries, next, q, a) {
        var q :| Describes(base, entries, next, q, a);
        if q > 0 {
          DescribesShift(base, entries, next, q, a);
        }
      }
      if exists q :: Describes(base, rest, next', q, a) {
        var q :| Describes(base, rest, next', q, a);
        DescribesShift(base, entries, next, q + 1, a);
      }
      assert entries[0] % 2 == 0 && a == Wrap(base + entries[0]) ==> Describes(base, entries, next, 0, a);
    }
  }

  /** The words a table lists are those its entries describe, by their positions; the table is accepted exactly when no
      bitmap comes before the first address, or where the pointer has wrapped to null. */
  lemma DecodeMeaning(base: Word, entries: seq<Word>, a: Word)
    ensures var d := Decode(base, entries, 0);
            && (d.ok ==> (a in d.addrs <==> exists q :: Describes(base, entries, 0, q, a)))
            && (d.ok <==> forall q | 0 <= q < |entries| && entries[q] % 2 == 1 ::
                            Wrap(WindowStart(base, entries, 0, q)) != 0)
  {
    hide *;
    AcceptedIff(base, entries, 0);
    if Decode(base, entries, 0).ok {
      DecodeMeaningFrom(base, entries, 0, a);
    }
  }

  lemma {:induction false} AcceptedIff(base: Word, entries: seq<Word>, next: Word)
    ensures Decode(base, entries, next).ok
            <==> forall q | 0 <= q < |entries| && entries[q] % 2 == 1 ::
                   Wrap(WindowStart(base, entries, next, q)) != 0
    decreases entries
  {
    hide Wrap, BitmapAddresses;
    if entries != [] {
      var rest, next' := entries[1..], NextOf(base, entries[0], next);
      AcceptedIff(base, rest, next');
      NoWrap(next);
      forall q | 1 <= q < |entries|
        ensures Wrap(WindowStart(base, entries, next, q)) == Wrap(WindowStart(base, rest, next', q - 1))
        ensures rest[q - 1] == entries[q]
      {
        WindowShift(base, entries, next, q);
      }
      if Decode(base, rest, next').ok {
        assert forall q | 1 <= q < |entries| && entries[q] % 2 == 1 :: Wrap(WindowStart(base, entries, next, q)) != 0;
      } else {
        var q :| 0 <= q < |rest| && rest[q] % 2 == 1 && Wrap(WindowStart(base, rest, next', q)) == 0;
        assert entries[q + 1] % 2 == 1 && Wrap(WindowStart(base, entries, next, q + 1)) == 0;
      }
    }
  }

  /** Memory as 64-bit words by address. */
  type Memory = map<Word, Word>

  /** Adding base at each address in turn. */
  function AddAll(m: Memory, base: Word, addrs: seq<Word>): (r: Memory)
    requires forall a | a in addrs :: a in m
    ensures r.Keys == m.Keys
  {
    if addrs == [] then m
    else AddAll(m[addrs[0] := Wrap(m[addrs[0]] + base)], base, addrs[1..])
  }

  lemma {:induction false} AddAllAppend(m: Memory, base: Word, a: seq<Word>, b: seq<Word>)
    requires forall x | x in a + b :: x in m
    ensures forall x | x in a :: x in m
    ensures forall x | x in b :: x in m
    ensures AddAll(m, base, a + b) == AddAll(AddAll(m, base, a), base, b)
  {
    assert forall x | x in a :: x in a + b;
    assert forall x | x in b :: x in a + b;
    if a == [] {
      assert a + b == b;
    } else {
      assert (a + b)[1..] == a[1..] + b;
      AddAllAppend(m[a[0] := Wrap(m[a[0]] + base)], base, a[1..], b);
    }
  }

  /** How often an address is listed. */
  ghost function Listings(addrs: seq<Word>, a: Word): nat {
    multiset(addrs)[a]
  }

  /** What the additions do to one word: base once per listing of its address, and nothing to other words. */
  lemma {:induction false} AddAllMeaning(m: Memory, base: Word, addrs: seq<Word>, a: Word)
    requires (forall x | x in addrs :: x in m) && a in m
    ensures AddAll(m, base, addrs)[a] == Wrap(m[a] + Listings(addrs, a) * base)
    decreases addrs
  {
    hide Wrap, Listings;
    if addrs == [] {
      NoListings(m, base, a);
    } else {
      var m' := m[addrs[0] := Wrap(m[addrs[0]] + base)];
      AddAllMeaning(m', base, addrs[1..], a);
      FirstListing(m, base, addrs, a);
    }
  }

  lemma NoListings(m: Memory, base: Word, a: Word)
    requires a in m
    ensures m[a] == Wrap(m[a] + Listings([], a) * base)
  {
    assert Listings([], a) == 0;
    assert 0 * base == 0;
  }

  lemma FirstListing(m: Memory, base: Word, addrs: seq<Word>, a: Word)
    requires addrs != [] && addrs[0] in m && a in m
    ensures var m' := m[addrs[0] := Wrap(m[addrs[0]] + base)];
            Wrap(m'[a] + Listings(addrs[1..], a) * base) == Wrap(m[a] + Listings(addrs, a) * base)
  {
    hide Wrap;
    assert addrs == [addrs[0]] + addrs[1..];
    var k := Listings(addrs[1..], a);
    if addrs[0] == a {
      assert Listings(addrs, a) == k + 1;
      Increment(k, base);
      WrapTwice(m[a] + base, k * base);
    } else {
      assert Listings(addrs, a) == k;
    }
  }

  lemma WrapTwice(x: int, y: int)
    ensures Wrap(Wrap(x) + y) == Wrap(x + y)
  {
    var q := x / WORD;
    assert x == q * WORD + Wrap(x);
    WrapMultiple(Wrap(x) + y, q);
  }

  lemma WrapMultiple(x: int, q: int)
    ensures Wrap(x + q * WORD) == Wrap(x)
  {
    var d := x / WORD;
    assert x + q * WORD == (d + q) * WORD + Wrap(x);
  }

  /** The memory of the object being relocated. */
  class Image {
    var mem: Memory

    /** `*addr += base` */
    method AddBase(addr: Word, base: Word)
      requires addr in mem
      modifies this
      ensures mem == AddAll(old(mem), base, [addr])
    {
      assert [addr][1..] == [];
      mem := mem[addr := Wrap(mem[addr] + base)];
    }

    /** The bitmap loop. */
    method ApplyBitmap(base: Word, relrAddr: Word, entry0: Word)
      requires forall a | a in BitmapAddresses(relrAddr, entry0 / 2) :: a in mem
      modifies this
      ensures mem == AddAll(old(mem), base, BitmapAddresses(relrAddr, entry0 / 2))
    {
      var entry: nat, j: nat := entry0 / 2, 0;
      ghost var all := BitmapAddresses(relrAddr, entry);
      ghost var done: seq<Word> := [];
      assert done + all == all;
      while entry != 0
        invariant all == done + BitmapAddresses(relrAddr + SIZE * j, entry)
        invariant mem.Keys == old(mem).Keys && (forall a | a in all :: a in mem)
        invariant (forall a | a in done :: a in old(mem)) && mem == AddAll(old(mem), base, done)
        decreases entry
      {
        ghost var addr: nat := relrAddr + SIZE * j;
        ghost var rest := BitmapAddresses(addr + SIZE, entry / 2);
        if entry % 2 == 1 {
          ghost var this_ := [Wrap(addr)];
          assert all == (done + this_) + rest;
          assert Wrap(addr) in all;
          AddBase(Wrap(relrAddr + SIZE * j), base);
          assert forall a | a in done + this_ :: a in old(mem);
          AddAllAppend(old(mem), base, done, this_);
          done := done + this_;
        } else {
          assert [] + rest == rest;
        }
        entry := entry / 2;
        j := j + 1;
      }
      assert all == done;
    }

    /** The loop over the table; ok is false when `__ensure(relr_addr)` panics. */
    method Apply(base: Word, entries: seq<Word>) returns (ok: bool)
      requires forall a | a in Decode(base, entries, 0).addrs :: a in mem
      modifies this
      ensures ok == Decode(base, entries, 0).ok
      ensures mem == AddAll(old(mem), base, Decode(base, entries, 0).addrs)
    {
      hide BitmapAddresses;
      ghost var whole := Decode(base, entries, 0);
      ghost var done: seq<Word> := [];
      var relrAddr: Word := 0;
      assert entries[0..] == entries && done + whole.addrs == whole.addrs;
      for i := 0 to |entries|
        invariant whole == Before(done, Decode(base, entries[i..], relrAddr))
        invariant mem.Keys == old(mem).Keys
        invariant (forall a | a in done :: a in old(mem)) && mem == AddAll(old(mem), base, done)
      {
        var entry := entries[i];
        assert entries[i..][1..] == entries[i + 1..];
        ghost var now := if entry % 2 == 0 then [Wrap(base + entry)] else BitmapAddresses(relrAddr, entry / 2);
        if entry % 2 == 0 {
          relrAddr := Wrap(base + entry);
          ListedInMemory(whole, done, now, Decode(base, entries[i + 1..], Wrap(base + entry + SIZE)), old(mem));
          AddBase(relrAddr, base);
          WrapTwice(base + entry, SIZE);
          relrAddr := Wrap(relrAddr + SIZE);
        } else {
          if relrAddr == 0 {
            assert whole.addrs == done;
            return false;
          }
          ListedInMemory(whole, done, now, Decode(base, entries[i + 1..], Wrap(relrAddr + BITMAP_BITS * SIZE)),
                         old(mem));
          ApplyBitmap(base, relrAddr, entry);
          relrAddr := Wrap(relrAddr + BITMAP_BITS * SIZE);
        }
        AddAllAppend(old(mem), base, done, now);
        done := done + now;
      }
      assert entries[|entries|..] == [];
      assert whole.addrs == done;
      return true;
    }
  }

  lemma ListedInMemory(whole: Decoded, done: seq<Word>, now: seq<Word>, rest: Decoded, m: Memory)
    requires whole == Before(done, Before(now, rest)) && forall a | a in whole.addrs :: a in m
    ensures whole == Before(done + now, rest)
    ensures forall a | a in done + now :: a in m
    ensures forall a | a in now :: a in m
  {
    assert whole.addrs == (done + now) + rest.addrs;
    assert forall a | a in done + now :: a in whole.addrs;
    assert forall a | a in now :: a in done + now;
  }

  // ---------------------------------------------------------------------------------------------------
  // Encoding

  predicate StrictlyIncreasing(xs: seq<Word>) {
    forall i, j | 0 <= i < j < |xs| :: xs[i] < xs[j]
  }

  predicate Aligned(xs: seq<Word>) {
    forall i | 0 <= i < |xs| :: xs[i] % SIZE == 0
  }

  datatype Bits = Bits(bits: nat, rest: seq<Word>)

  /** The bitmap of the listed offsets among the next n words from `at`, and the offsets beyond them. */
  function TakeBits(at: nat, n: nat, xs: seq<Word>): (r: Bits)
    ensures |r.rest| <= |xs| && (r.bits != 0 ==> |r.rest| < |xs|)
    decreases n
  {
    if n == 0 || xs == [] then Bits(0, xs)
    else if xs[0] == at then
      var r := TakeBits(at + SIZE, n - 1, xs[1..]);
      Bits(1 + 2 * r.bits, r.rest)
    else
      var r := TakeBits(at + SIZE, n - 1, xs);
      Bits(2 * r.bits, r.rest)
  }

  lemma {:induction false} BitsFit(at: nat, n: nat, xs: seq<Word>)
    ensures TakeBits(at, n, xs).bits < Pow2(n)
    decreases n
  {
    if n > 0 && xs != [] {
      BitsFit(at + SIZE, n - 1, if xs[0] == at then xs[1..] else xs);
    }
  }

  lemma WordSize()
    ensures Pow2(64) == WORD
  {
    assert Pow2(8) == 0x100;
    hide Pow2;
    Pow2Add(8, 8);
    Pow2Add(16, 16);
    Pow2Add(32, 32);
  }

  lemma BitmapWord(at: nat, xs: seq<Word>)
    ensures 2 * TakeBits(at, BITMAP_BITS, xs).bits + 1 < WORD
  {
    hide Pow2, TakeBits;
    BitsFit(at, BITMAP_BITS, xs);
    Pow2Positive(64);
    WordSize();
  }

  /** Greedy encoding: bitmaps while the next 63 words hold an offset, otherwise a new start address. */
  function Encode(xs: seq<Word>, at: nat): seq<Word>
    requires Aligned(xs)
    decreases |xs|
  {
    if xs == [] then []
    else
      var r := TakeBits(at, BITMAP_BITS, xs);
      if at > 0 && r.bits != 0 then
        BitmapWord(at, xs);
        RestAligned(at, BITMAP_BITS, xs);
        [2 * r.bits + 1] + Encode(r.rest, at + BITMAP_BITS * SIZE)
      else
        [xs[0]] + Encode(xs[1..], xs[0] + SIZE)
  }

  /** What a bitmap leaves is a suffix. */
  lemma {:induction false} RestSuffix(at: nat, n: nat, xs: seq<Word>) returns (k: nat)
    ensures k <= |xs| && TakeBits(at, n, xs).rest == xs[k..]
    decreases n
  {
    k := 0;
    if n > 0 && xs != [] {
      if xs[0] == at {
        k := RestSuffix(at + SIZE, n - 1, xs[1..]);
        assert xs[1..][k..] == xs[k + 1..];
        k := k + 1;
      } else {
        k := RestSuffix(at + SIZE, n - 1, xs);
      }
    }
  }

  lemma RestAligned(at: nat, n: nat, xs: seq<Word>)
    requires Aligned(xs)
    ensures Aligned(TakeBits(at, n, xs).rest)
  {
    var k := RestSuffix(at, n, xs);
  }

  function Shifted(base: Word, xs: seq<Word>): (r: seq<Word>)
    ensures |r| == |xs| && forall i | 0 <= i < |xs| :: r[i] == Wrap(base + xs[i])
  {
    if xs == [] then [] else [Wrap(base + xs[0])] + Shifted(base, xs[1..])
  }

  /** Offsets from `at` on, word aligned relative to it. */
  ghost predicate From(xs: seq<Word>, at: nat) {
    StrictlyIncreasing(xs) && forall i | 0 <= i < |xs| :: xs[i] >= at && (xs[i] - at) % SIZE == 0
  }

  lemma FromTail(xs: seq<Word>, at: nat)
    requires From(xs, at) && xs != []
    ensures xs[0] == at ==> From(xs[1..], at + SIZE)
    ensures xs[0] != at ==> From(xs, at + SIZE)
  {
    if xs[0] == at {
      forall i | 0 <= i < |xs[1..]| ensures xs[1..][i] >= at + SIZE && (xs[1..][i] - (at + SIZE)) % SIZE == 0 {
        assert xs[1..][i] == xs[i + 1] > xs[0];
      }
    } else {
      forall i | 0 <= i < |xs| ensures xs[i] >= at + SIZE && (xs[i] - (at + SIZE)) % SIZE == 0 {
        assert xs[i] >= xs[0] > at;
      }
    }
  }

  lemma {:induction false} BitmapLeaves(at: nat, n: nat, xs: seq<Word>)
    requires From(xs, at)
    ensures From(TakeBits(at, n, xs).rest, at + n * SIZE)
    decreases n
  {
    if n > 0 && xs != [] {
      FromTail(xs, at);
      BitmapLeaves(at + SIZE, n - 1, if xs[0] == at then xs[1..] else xs);
    }
  }

  /** A bitmap lists the offsets it took, in order. */
  lemma {:induction false} BitmapRoundTrip(base: Word, at: nat, n: nat, xs: seq<Word>)
    requires From(xs, at)
    ensures BitmapAddresses(base + at, TakeBits(at, n, xs).bits) + Shifted(base, TakeBits(at, n, xs).rest)
            == Shifted(base, xs)
    decreases n
  {
    hide From, Wrap, BitmapAddresses;
    if n == 0 || xs == [] {
      NoBits(base + at);
      assert [] + Shifted(base, xs) == Shifted(base, xs);
    } else {
      FromTail(xs, at);
      var tail := if xs[0] == at then xs[1..] else xs;
      BitmapRoundTrip(base, at + SIZE, n - 1, tail);
      var r := TakeBits(at + SIZE, n - 1, tail);
      BitmapStep(base + at, r.bits);
      var listed := BitmapAddresses(base + at + SIZE, r.bits);
      assert base + (at + SIZE) == base + at + SIZE;
      if xs[0] == at {
        assert ([Wrap(base + at)] + listed) + Shifted(base, r.rest)
            == [Wrap(base + at)] + (listed + Shifted(base, r.rest));
      }
    }
  }

  lemma NoBits(addr: nat)
    ensures BitmapAddresses(addr, 0) == []
  {}

  lemma BitmapStep(addr: nat, bits: nat)
    ensures BitmapAddresses(addr, 2 * bits) == BitmapAddresses(addr + SIZE, bits)
    ensures BitmapAddresses(addr, 2 * bits + 1) == [Wrap(addr)] + BitmapAddresses(addr + SIZE, bits)
  {
    assert (2 * bits) / 2 == bits && (2 * bits + 1) / 2 == bits;
    assert [] + BitmapAddresses(addr + SIZE, bits) == BitmapAddresses(addr + SIZE, bits);
  }

  /** base + offset stays in the address space. */
  ghost predicate Fits(base: Word, xs: seq<Word>) {
    forall i | 0 <= i < |xs| :: base + xs[i] < WORD
  }

  lemma FirstFrom(base: Word, xs: seq<Word>)
    requires StrictlyIncreasing(xs) && Aligned(xs) && Fits(base, xs) && xs != []
    ensures xs[0] % SIZE == 0
    ensures From(xs[1..], xs[0] + SIZE) && StrictlyIncreasing(xs[1..]) && Aligned(xs[1..]) && Fits(base, xs[1..])
  {
    forall i | 0 <= i < |xs[1..]| ensures xs[1..][i] >= xs[0] + SIZE && (xs[1..][i] - (xs[0] + SIZE)) % SIZE == 0 {
      assert xs[1..][i] == xs[i + 1] > xs[0];
    }
  }

  /** Decoding an encoding lists every offset of a strictly increasing, word-aligned list once and in order. */
  lemma {:induction false} RoundTripFrom(base: Word, xs: seq<Word>, at: nat, next: Word)
    requires Aligned(xs) && StrictlyIncreasing(xs) && Fits(base, xs)
    requires at > 0 ==> From(xs, at) && next == Wrap(base + at)
    ensures Decode(base, Encode(xs, at), next) == Decoded(Shifted(base, xs), true)
    decreases |xs|
  {
    if xs != [] {
      var r := TakeBits(at, BITMAP_BITS, xs);
      if at > 0 && r.bits != 0 {
        RoundTripBitmap(base, xs, at, next);
      } else {
        RoundTripStart(base, xs, at, next);
      }
    }
  }

  lemma RoundTripStart(base: Word, xs: seq<Word>, at: nat, next: Word)
    requires Aligned(xs) && StrictlyIncreasing(xs) && Fits(base, xs) && xs != []
    requires at == 0 || TakeBits(at, BITMAP_BITS, xs).bits == 0
    ensures Decode(base, Encode(xs, at), next) == Decoded(Shifted(base, xs), true)
    decreases |xs|, 0
  {
    hide From, Wrap, Decode, TakeBits, Aligned, StrictlyIncreasing, Fits;
    FirstFrom(base, xs);
    RoundTripFrom(base, xs[1..], xs[0] + SIZE, Wrap(base + xs[0] + SIZE));
    DecodeStart(base, xs[0], Encode(xs[1..], xs[0] + SIZE), next);
  }

  lemma DecodeStart(base: Word, entry: Word, rest: seq<Word>, next: Word)
    requires entry % SIZE == 0
    ensures Decode(base, [entry] + rest, next)
            == Before([Wrap(base + entry)], Decode(base, rest, Wrap(base + entry + SIZE)))
  {
    hide Wrap;
    assert ([entry] + rest)[1..] == rest;
  }

  lemma DecodeBitmap(base: Word, bits: nat, rest: seq<Word>, next: Word)
    requires 2 * bits + 1 < WORD && next != 0
    ensures Decode(base, [2 * bits + 1] + rest, next)
            == Before(BitmapAddresses(next, bits), Decode(base, rest, Wrap(next + BITMAP_BITS * SIZE)))
  {
    hide Wrap, BitmapAddresses;
    assert ([2 * bits + 1] + rest)[1..] == rest;
    assert (2 * bits + 1) / 2 == bits;
  }

  lemma RoundTripBitmap(base: Word, xs: seq<Word>, at: nat, next: Word)
    requires Aligned(xs) && StrictlyIncreasing(xs) && Fits(base, xs) && xs != []
    requires at > 0 && From(xs, at) && next == Wrap(base + at)
    requires TakeBits(at, BITMAP_BITS, xs).bits != 0
    ensures Decode(base, Encode(xs, at), next) == Decoded(Shifted(base, xs), true)
    decreases |xs|, 0
  {
    hide From, Wrap, Decode, Encode, BitmapAddresses, TakeBits, Aligned, StrictlyIncreasing, Fits;
    var r := TakeBits(at, BITMAP_BITS, xs);
    var end := at + BITMAP_BITS * SIZE;
    RestOf(base, xs, at);
    RoundTripFrom(base, r.rest, end, Wrap(base + end));
    BitmapRoundTrip(base, at, BITMAP_BITS, xs);
    EncodeBitmap(xs, at);
    DecodeBitmap(base, r.bits, Encode(r.rest, end), next);
  }

  lemma EncodeBitmap(xs: seq<Word>, at: nat)
    requires Aligned(xs) && xs != [] && at > 0 && TakeBits(at, BITMAP_BITS, xs).bits != 0
    ensures var r := TakeBits(at, BITMAP_BITS, xs);
            && 2 * r.bits + 1 < WORD && Aligned(r.rest)
            && Encode(xs, at) == [2 * r.bits + 1] + Encode(r.rest, at + BITMAP_BITS * SIZE)
  {
    hide TakeBits, Aligned;
    RestAligned(at, BITMAP_BITS, xs);
    BitmapWord(at, xs);
  }

  lemma RestOf(base: Word, xs: seq<Word>, at: nat)
    requires Aligned(xs) && StrictlyIncreasing(xs) && Fits(base, xs) && From(xs, at)
    ensures var rest := TakeBits(at, BITMAP_BITS, xs).rest;
            && Aligned(rest) && StrictlyIncreasing(rest) && Fits(base, rest) && From(rest, at + BITMAP_BITS * SIZE)
    ensures xs != [] ==> Wrap(base + at) == base + at
  {
    hide TakeBits;
    BitmapLeaves(at, BITMAP_BITS, xs);
    var k := RestSuffix(at, BITMAP_BITS, xs);
    if xs != [] {
      assert base + at <= base + xs[0] < WORD;
    }
  }

  /** The encoding of a list decodes to it, starting from the null pointer. */
  lemma RoundTrip(base: Word, xs: seq<Word>)
    requires Aligned(xs) && StrictlyIncreasing(xs) && Fits(base, xs)
    ensures Decode(base, Encode(xs, 0), 0) == Decoded(Shifted(base, xs), true)
  {
    RoundTripFrom(base, xs, 0, 0);
  }

  lemma {:induction false} DistinctListings(xs: seq<Word>, a: Word)
    requires forall i, j | 0 <= i < j < |xs| :: xs[i] != xs[j]
    ensures Listings(xs, a) == if a in xs then 1 else 0
    decreases xs
  {
    if xs != [] {
      DistinctListings(xs[1..], a);
      assert xs == [xs[0]] + xs[1..];
      assert a in xs[1..] ==> exists k | 1 <= k < |xs| :: xs[k] == a;
    }
  }

  /** Relocating with an encoded table adds base once to each listed word and leaves every other word alone. */
  lemma EncodedOnce(m: Memory, base: Word, xs: seq<Word>, a: Word)
    requires Aligned(xs) && StrictlyIncreasing(xs) && Fits(base, xs) && a in m
    requires forall x | x in Shifted(base, xs) :: x in m
    ensures var addrs := Decode(base, Encode(xs, 0), 0).addrs;
            && (forall x | x in addrs :: x in m)
            && AddAll(m, base, addrs)[a] == if a in Shifted(base, xs) then Wrap(m[a] + base) else m[a]
  {
    hide *;
    RoundTrip(base, xs);
    OnceEach(base, xs, a);
    AddAllMeaning(m, base, Shifted(base, xs), a);
    OneOrNone(base, m[a]);
  }

  lemma OnceEach(base: Word, xs: seq<Word>, a: Word)
    requires StrictlyIncreasing(xs) && Fits(base, xs)
    ensures Listings(Shifted(base, xs), a) == if a in Shifted(base, xs) then 1 else 0
  {
    hide Listings, Wrap, Shifted;
    var targets := Shifted(base, xs);
    forall i, j | 0 <= i < j < |targets| ensures targets[i] != targets[j] {
      NoWrap(base + xs[i]);
      NoWrap(base + xs[j]);
    }
    DistinctListings(targets, a);
  }

  lemma NoWrap(x: nat)
    requires x < WORD
    ensures Wrap(x) == x
  {}

  lemma OneOrNone(base: Word, w: Word)
    ensures Wrap(w + 1 * base) == Wrap(w + base) && Wrap(w + 0 * base) == w
  {}
}
