/** C strings as the linker reads them: a pointer is the sequence of bytes from it to the end of its object. */
module CString {
  import opened Words

  predicate Terminated(s: seq<Byte>) {
    0 in s
  }

  /** The bytes before the terminator. */
  function Text(s: seq<Byte>): seq<Byte>
    requires Terminated(s)
  {
    if s[0] == 0 then [] else [s[0]] + Text(s[1..])
  }

  /** Stepping over the i-th byte. */
  lemma TextStep(s: seq<Byte>, i: nat)
    requires i < |s| && Terminated(s[i..]) && s[i] != 0
    ensures i + 1 < |s| && Terminated(s[i + 1..]) && Text(s[i..]) == [s[i]] + Text(s[i + 1..])
  {
    assert s[i..][1..] == s[i + 1..];
  }

  /** `rtld_strcmp` */
  method StringsEqual(a: seq<Byte>, b: seq<Byte>) returns (r: bool)
    requires Terminated(a) && Terminated(b)
    ensures r <==> Text(a) == Text(b)
  {
    var i := 0;
    assert a[0..] == a && b[0..] == b;
    while true
      invariant i < |a| && i < |b| && Terminated(a[i..]) && Terminated(b[i..])
      invariant Text(a) == Text(b) <==> Text(a[i..]) == Text(b[i..])
      decreases |a| - i
    {
      if a[i] != b[i] {
        HeadsDiffer(a[i..], b[i..]);
        return false;
      } else if a[i] == 0 {
        return true;
      }
      TextStep(a, i);
      TextStep(b, i);
      SameHead(a[i], Text(a[i + 1..]), Text(b[i + 1..]));
      i := i + 1;
    }
  }

  lemma HeadsDiffer(a: seq<Byte>, b: seq<Byte>)
    requires Terminated(a) && Terminated(b) && a[0] != b[0]
    ensures Text(a) != Text(b)
  {
    if a[0] != 0 && b[0] != 0 {
      assert Text(a)[0] == a[0] && Text(b)[0] == b[0];
    }
  }

  lemma SameHead(c: Byte, s: seq<Byte>, t: seq<Byte>)
    ensures [c] + s == [c] + t <==> s == t
  {
    assert ([c] + s)[1..] == s && ([c] + t)[1..] == t;
  }
}

/** The part of a shared object both hash tables index. */
module SymbolNames {
  import opened Options
  import opened Words
  import opened CString

  /** `strtab` and, per symbol, `st_name`. */
  datatype Symbols = Symbols(strtab: seq<Byte>, names: seq<nat>) {
    predicate Valid() {
      forall i | 0 <= i < |names| :: names[i] < |strtab| && Terminated(strtab[names[i]..])
    }

    function Name(i: nat): seq<Byte>
      requires Valid() && i < |names|
    {
      Text(strtab[names[i]..])
    }

    /** The reference search: the lowest index from i on whose symbol has the name. */
    function Scan(name: seq<Byte>, i: nat): Option<nat>
      requires Valid() && i <= |names|
      decreases |names| - i
    {
      if i == |names| then None else if Name(i) == name then Some(i) else Scan(name, i + 1)
    }
  }

  lemma {:induction false} ScanMeaning(t: Symbols, name: seq<Byte>, i: nat)
    requires t.Valid() && i <= |t.names|
    ensures match t.Scan(name, i)
            case None => forall k | i <= k < |t.names| :: t.Name(k) != name
            case Some(r) => i <= r < |t.names| && t.Name(r) == name && forall k | i <= k < r :: t.Name(k) != name
    decreases |t.names| - i
  {
    hide Text;
    if i < |t.names| && t.Name(i) != name {
      ScanMeaning(t, name, i + 1);
    }
  }
}

/** DT_GNU_HASH: `gnu_hash`, `gnu_lookup` and the symbol count of src/rtld/shared_object.cpp. */
module GnuHash {
  import opened Options
  import opened Words
  import opened CString
  import opened SymbolNames

  const CLASS_BITS: nat := 64

  /** The published definition of the hash: h * 33 + c in 32 bits, from 5381. */
  function Times33(h: bv32): bv32 {
    h * 33
  }

  function Plus(h: bv32, c: Byte): bv32 {
    h + c as bv32
  }

  function HashStep(h: bv32, c: Byte): bv32 {
    Plus(Times33(h), c)
  }

  /** The same step with a shift, as the code writes it. */
  function ShiftStep(h: bv32, c: Byte): bv32 {
    Plus((h << 5) + h, c)
  }

  function HashFrom(h: bv32, name: seq<Byte>): bv32
    decreases name
  {
    if name == [] then h else HashFrom(HashStep(h, name[0]), name[1..])
  }

  function Hash(name: seq<Byte>): bv32 {
    HashFrom(5381, name)
  }

  lemma {:induction false} HashFromAppend(h: bv32, name: seq<Byte>, c: Byte)
    ensures HashFrom(h, name + [c]) == HashStep(HashFrom(h, name), c)
    decreases name
  {
    hide HashStep;
    if name == [] {
      assert [c][1..] == [];
    } else {
      assert (name + [c])[1..] == name[1..] + [c];
      HashFromAppend(HashStep(h, name[0]), name[1..], c);
    }
  }

  /** A step takes the hash to 33 times itself plus the character. */
  lemma StepMeaning(h: bv32, c: Byte)
    ensures HashStep(h, c) == h * 33 + c as bv32
  {}

  /** The hash grows from the left: the empty name has 5381, and each further character is one step more. */
  lemma HashAppend(name: seq<Byte>, c: Byte)
    ensures Hash([]) == 5381
    ensures Hash(name + [c]) == HashStep(Hash(name), c)
  {
    hide HashStep;
    HashFromAppend(5381, name, c);
  }

  /** `gnu_hash` */
  method ComputeHash(s: seq<Byte>) returns (hash: bv32)
    requires Terminated(s)
    ensures hash == Hash(Text(s))
  {
    hide HashStep, ShiftStep;
    hash := 5381;
    var i := 0;
    assert s[0..] == s;
    while s[i] != 0
      invariant i < |s| && Terminated(s[i..]) && HashFrom(hash, Text(s[i..])) == Hash(Text(s))
      decreases |s| - i
    {
      TextStep(s, i);
      StepAgrees(hash, s[i]);
      assert Text(s[i..])[1..] == Text(s[i + 1..]);
      hash := ShiftStep(hash, s[i]);
      i := i + 1;
    }
  }

  lemma StepAgrees(h: bv32, c: Byte)
    ensures ShiftStep(h, c) == HashStep(h, c)
  {
    hide Times33, Plus;
    ShiftAdds(h);
  }

  lemma ShiftAdds(h: bv32)
    ensures (h << 5) + h == Times33(h)
  {}

  /** An unsigned word used as an index. */
  function Index(hash: bv32): nat {
    hash as nat
  }

  lemma IndexIsValue(hash: bv32)
    ensures Index(hash) == hash as nat
  {}

  /** Equal but for the low bit, which the chain uses as its end mark. */
  predicate SameHash(a: bv32, b: bv32) {
    a | 1 == b | 1
  }

  predicate LowBit(w: bv32) {
    w & 1 != 0
  }

  predicate Admits(word: bv64, mask: bv64) {
    word & mask == mask
  }

  function Both(a: bv64, b: bv64): bv64 {
    a | b
  }

  /** The word whose only set bit is bit k. */
  function Bit(k: nat): bv64
    requires k < 64
  {
    (1 as bv64) << k
  }

  /** Bit k is at place k, and it is the only one. */
  lemma BitShiftsBack(k: nat)
    requires k < 64
    ensures Bit(k) >> k == 1
  {}

  lemma BitIsOne(k: nat)
    requires k < 64
    ensures Bit(k) & (Bit(k) - 1) == 0
  {}

  /** Where the format puts a hash in a filter of n words: the word, and the bit in it. */
  function FilterWord(hash: bv32, n: nat): (k: nat)
    requires n > 0
    ensures k < n
  {
    Index(hash) / 64 % n
  }

  function FilterBit(hash: bv32): (k: nat)
    ensures k < 64
  {
    Index(hash) % 64
  }

  predicate HasBit(word: bv64, k: nat)
    requires k < 64
  {
    Admits(word, Bit(k))
  }

  /** A symbol in the filter has two bits set: for its hash and for its hash shifted. */
  predicate InWord(word: bv64, hash: bv32, shift: nat)
    requires shift < 32
  {
    HasBit(word, FilterBit(hash)) && HasBit(word, FilterBit(hash >> shift))
  }

  function BloomMask(hash: bv32, shift: nat): bv64
    requires shift < 32
  {
    Both(Bit(Index(hash) % CLASS_BITS), Bit(Index(hash >> shift) % CLASS_BITS))
  }

  datatype Table = Table(symOffset: nat, bloomShift: nat, bloom: seq<bv64>, buckets: seq<nat>, chain: seq<bv32>,
                         symbols: Symbols) {
    /** Sizes that make every access of the code in bounds. */
    predicate Shaped() {
      && symbols.Valid() && |symbols.names| == symOffset + |chain|
      && symOffset >= 1 && bloomShift < 32 && |bloom| > 0 && |buckets| > 0
    }

    predicate Hashed(i: nat) {
      symOffset <= i < symOffset + |chain|
    }

    function HashOf(i: nat): bv32
      requires Shaped() && Hashed(i)
    {
      Hash(symbols.Name(i))
    }

    function Bucket(hash: bv32): nat
      requires Shaped()
    {
      Index(hash) % |buckets|
    }

    function BloomWord(hash: bv32): bv64
      requires Shaped()
    {
      bloom[Index(hash) / CLASS_BITS % |bloom|]
    }

    function Group(i: nat): nat
      requires Shaped() && Hashed(i)
    {
      Bucket(HashOf(i))
    }

    predicate EndBit(i: nat)
      requires Shaped() && Hashed(i)
    {
      LowBit(chain[i - symOffset])
    }

    /** What a link editor writes: the chain holds each hash with its low bit replaced by an end-of-group mark, the
        bloom filter admits every hashed symbol, the symbols of a bucket are consecutive, and a bucket holds the first
        of them or 0. */
    ghost predicate WellFormed() {
      Shaped() && ChainsHashes() && FilterAdmits() && GroupsConsecutive() && BucketsStart() && EndsMarked()
    }

    ghost predicate ChainsHashes()
      requires Shaped()
    {
      forall i: nat | Hashed(i) :: SameHash(HashOf(i), chain[i - symOffset])
    }

    ghost predicate FilterAdmits()
      requires Shaped()
    {
      forall i: nat | Hashed(i) :: FilterHolds(HashOf(i))
    }

    predicate FilterHolds(hash: bv32)
      requires Shaped()
    {
      InWord(bloom[FilterWord(hash, |bloom|)], hash, bloomShift)
    }

    ghost predicate GroupsConsecutive()
      requires Shaped()
    {
      forall i: nat, j: nat, k: nat | Hashed(i) && Hashed(j) && Hashed(k) && i <= j <= k && Group(i) == Group(k) ::
        Group(j) == Group(i)
    }

    ghost predicate BucketsStart()
      requires Shaped()
    {
      && (forall i: nat | Hashed(i) :: StartsAt(Group(i)) && buckets[Group(i)] <= i)
      && (forall b | 0 <= b < |buckets| && buckets[b] != 0 :: StartsAt(b))
    }

    ghost predicate EndsMarked()
      requires Shaped()
    {
      forall i: nat | Hashed(i) :: EndBit(i) <==> !(Hashed(i + 1) && Group(i + 1) == Group(i))
    }

    predicate StartsAt(b: nat)
      requires Shaped()
    {
      b < |buckets| && Hashed(buckets[b]) && Group(buckets[b]) == b
    }
  }

  /** A symbol followed by one of its own bucket has no end mark. */
  lemma NoEndInside(t: Table, i: nat, k: nat)
    requires t.WellFormed() && t.Hashed(i) && t.Hashed(k) && i < k && t.Group(i) == t.Group(k)
    ensures !t.EndBit(i)
  {
    InsideGroup(t, i, k);
  }

  lemma InsideGroup(t: Table, i: nat, k: nat)
    requires t.WellFormed() && t.Hashed(i) && t.Hashed(k) && i < k && t.Group(i) == t.Group(k)
    ensures t.Hashed(i + 1) && t.Group(i + 1) == t.Group(i) && !t.EndBit(i)
  {
    hide Hash, Index, LowBit, SameHash, Admits, BloomMask;
  }

  /** No hashed symbol has the name. */
  ghost predicate Absent(t: Table, name: seq<Byte>)
    requires t.Shaped()
  {
    forall k: nat | t.Hashed(k) :: t.symbols.Name(k) != name
  }

  lemma BothAdmitted(word: bv64, a: bv64, b: bv64)
    ensures Admits(word, Both(a, b)) <==> Admits(word, a) && Admits(word, b)
  {
    hide Admits, Both;
    if Admits(word, Both(a, b)) {
      LeftAdmitted(word, a, b);
      RightAdmitted(word, a, b);
    }
    if Admits(word, a) && Admits(word, b) {
      AdmittedTogether(word, a, b);
    }
  }

  lemma LeftAdmitted(word: bv64, a: bv64, b: bv64)
    requires Admits(word, Both(a, b))
    ensures Admits(word, a)
  {}

  lemma RightAdmitted(word: bv64, a: bv64, b: bv64)
    requires Admits(word, Both(a, b))
    ensures Admits(word, b)
  {}

  lemma AdmittedTogether(word: bv64, a: bv64, b: bv64)
    requires Admits(word, a) && Admits(word, b)
    ensures Admits(word, Both(a, b))
  {}

  lemma MaskIsBits(hash: bv32, shift: nat)
    requires shift < 32
    ensures BloomMask(hash, shift) == Both(Bit(FilterBit(hash)), Bit(FilterBit(hash >> shift)))
  {
    hide Bit, Index, Both;
  }

  /** The mask test of the code reads the two bits of the format. */
  lemma MaskReadsBits(word: bv64, hash: bv32, shift: nat)
    requires shift < 32
    ensures Admits(word, BloomMask(hash, shift)) <==> InWord(word, hash, shift)
  {
    hide Bit, Index, BloomMask, FilterBit, Both, Admits;
    MaskIsBits(hash, shift);
    BothAdmitted(word, Bit(FilterBit(hash)), Bit(FilterBit(hash >> shift)));
  }

  lemma WordOfFilter(t: Table, hash: bv32)
    requires t.Shaped()
    ensures t.BloomWord(hash) == t.bloom[FilterWord(hash, |t.bloom|)]
  {
    hide Index;
  }

  lemma BloomRejects(t: Table, name: seq<Byte>)
    requires t.WellFormed() && !Admits(t.BloomWord(Hash(name)), BloomMask(Hash(name), t.bloomShift))
    ensures Absent(t, name)
  {
    hide Hash, Admits, BloomMask, InWord, FilterWord, Table.BloomWord;
    WordOfFilter(t, Hash(name));
    MaskReadsBits(t.BloomWord(Hash(name)), Hash(name), t.bloomShift);
    forall k: nat | t.Hashed(k) ensures t.symbols.Name(k) != name {
      assert t.FilterHolds(t.HashOf(k));
    }
  }

  lemma EmptyBucketRejects(t: Table, name: seq<Byte>)
    requires t.WellFormed() && t.buckets[t.Bucket(Hash(name))] < t.symOffset
    ensures Absent(t, name)
  {
    hide Hash;
    forall k: nat | t.Hashed(k) ensures t.symbols.Name(k) != name {
      assert t.StartsAt(t.Group(k));
    }
  }

  lemma UsedBucket(t: Table, b: nat)
    requires t.WellFormed() && b < |t.buckets| && t.buckets[b] >= t.symOffset
    ensures t.StartsAt(b)
  {}

  lemma NextInGroup(t: Table, i: nat)
    requires t.WellFormed() && t.Hashed(i) && !t.EndBit(i)
    ensures t.Hashed(i + 1) && t.Group(i + 1) == t.Group(i)
  {
    hide Hash, LowBit;
  }

  lemma SameNameSameHash(t: Table, name: seq<Byte>, i: nat)
    requires t.WellFormed() && t.Hashed(i) && t.symbols.Name(i) == name
    ensures SameHash(Hash(name), t.chain[i - t.symOffset])
  {
    hide Hash, SameHash, Table.FilterHolds, Table.Bucket, LowBit;
  }

  lemma ScanAbsent(t: Table, name: seq<Byte>)
    requires t.Shaped() && Absent(t, name)
    ensures t.symbols.Scan(name, t.symOffset) == None
  {
    ScanMeaning(t.symbols, name, t.symOffset);
  }

  lemma ScanFirst(t: Table, name: seq<Byte>, i: nat)
    requires t.Shaped() && t.Hashed(i) && t.symbols.Name(i) == name
    requires forall k: nat | t.symOffset <= k < i :: t.symbols.Name(k) != name
    ensures t.symbols.Scan(name, t.symOffset) == Some(i)
  {
    ScanMeaning(t.symbols, name, t.symOffset);
  }

  lemma WellShaped(t: Table)
    requires t.WellFormed()
    ensures t.Shaped()
  {}

  /** `gnu_lookup` finds what a linear scan of the hashed symbols finds. */
  method Lookup(t: Table, symName: seq<Byte>) returns (r: Option<nat>)
    requires t.WellFormed() && Terminated(symName)
    ensures r == t.symbols.Scan(Text(symName), t.symOffset)
  {
    hide Index, SameHash, LowBit, Admits, BloomMask, Hash, Absent, Table.WellFormed, Text, Table.Group;
    WellShaped(t);
    ghost var name := Text(symName);
    var hash := ComputeHash(symName);
    var word := t.bloom[Index(hash) / CLASS_BITS % |t.bloom|];
    var mask := BloomMask(hash, t.bloomShift);
    if !Admits(word, mask) {
      BloomRejects(t, name);
      ScanAbsent(t, name);
      return None;
    }
    var bucket := Index(hash) % |t.buckets|;
    var symIndex := t.buckets[bucket];
    if symIndex < t.symOffset {
      EmptyBucketRejects(t, name);
      ScanAbsent(t, name);
      return None;
    }
    UsedBucket(t, bucket);
    ghost var first := symIndex;
    while true
      invariant first <= symIndex && t.Hashed(symIndex) && t.Group(symIndex) == bucket
      invariant forall k: nat | first <= k < symIndex :: t.symbols.Name(k) != name
      decreases |t.symbols.names| - symIndex
    {
      var symHash := t.chain[symIndex - t.symOffset];
      var found := false;
      if SameHash(hash, symHash) {
        found := StringsEqual(symName, t.symbols.strtab[t.symbols.names[symIndex]..]);
      }
      if found {
        NoneBefore(t, name, first, symIndex);
        ScanFirst(t, name, symIndex);
        return Some(symIndex);
      }
      if t.symbols.Name(symIndex) == name {
        SameNameSameHash(t, name, symIndex);
      }
      if LowBit(symHash) {
        NoneAtAll(t, name, first, symIndex);
        ScanAbsent(t, name);
        return None;
      }
      NextInGroup(t, symIndex);
      symIndex := symIndex + 1;
    }
  }

  /** A symbol with the name lies in the name's group. */
  lemma NamedInGroup(t: Table, name: seq<Byte>, first: nat, k: nat)
    requires t.WellFormed() && t.Hashed(first) && t.Hashed(k) && t.symbols.Name(k) == name
    requires t.Group(first) == t.Bucket(Hash(name)) && t.buckets[t.Group(first)] == first
    ensures first <= k && t.Group(k) == t.Group(first)
  {
    hide Hash;
  }

  lemma NoneBefore(t: Table, name: seq<Byte>, first: nat, i: nat)
    requires t.WellFormed() && t.Hashed(first) && t.Hashed(i)
    requires t.Group(first) == t.Bucket(Hash(name)) && t.buckets[t.Group(first)] == first
    requires forall k: nat | first <= k < i :: t.symbols.Name(k) != name
    ensures forall k: nat | t.symOffset <= k < i :: t.symbols.Name(k) != name
  {
    hide Hash;
    forall k: nat | t.symOffset <= k < i ensures t.symbols.Name(k) != name {
      if t.symbols.Name(k) == name {
        NamedInGroup(t, name, first, k);
      }
    }
  }

  lemma NoneAtAll(t: Table, name: seq<Byte>, first: nat, last: nat)
    requires t.WellFormed() && t.Hashed(first) && t.Hashed(last) && t.EndBit(last) && t.Group(last) == t.Group(first)
    requires t.Group(first) == t.Bucket(Hash(name)) && t.buckets[t.Group(first)] == first
    requires forall k: nat | first <= k <= last :: t.symbols.Name(k) != name
    ensures Absent(t, name)
  {
    hide Hash;
    forall k: nat | t.Hashed(k) ensures t.symbols.Name(k) != name {
      if t.symbols.Name(k) == name {
        NamedInGroup(t, name, first, k);
        if k > last {
          NoEndInside(t, last, k);
        }
      }
    }
  }

  /** `num_symbols`: one past the last hashed symbol; a table that hashes nothing reports one symbol. */
  method NumSymbols(t: Table) returns (n: nat)
    requires t.WellFormed()
    ensures n == if t.chain == [] then 1 else |t.symbols.names|
    ensures n == |t.symbols.names| <==> t.chain != [] || t.symOffset == 1
  {
    hide Index, LowBit, Hash, Table.WellFormed;
    WellShaped(t);
    var symIndex: nat := 0;
    for i := 0 to |t.buckets|
      invariant forall b | 0 <= b < i :: t.buckets[b] <= symIndex
      invariant symIndex == 0 || exists b | 0 <= b < i :: t.buckets[b] == symIndex
    {
      symIndex := if t.buckets[i] > symIndex then t.buckets[i] else symIndex;
    }
    LastBucket(t, symIndex);
    if symIndex != 0 {
      ghost var last := |t.symbols.names| - 1;
      LastGroup(t, symIndex, last);
      while !LowBit(t.chain[symIndex - t.symOffset])
        invariant t.Hashed(symIndex) && t.Group(symIndex) == t.Group(last)
        decreases |t.symbols.names| - symIndex
      {
        NextInGroup(t, symIndex);
        symIndex := symIndex + 1;
      }
      if symIndex < last {
        NoEndInside(t, symIndex, last);
      }
    }
    n := symIndex + 1;
  }

  /** The largest bucket entry is 0 exactly when nothing is hashed. */
  lemma LastBucket(t: Table, start: nat)
    requires t.WellFormed()
    requires start == 0 || exists b | 0 <= b < |t.buckets| :: t.buckets[b] == start
    requires forall b | 0 <= b < |t.buckets| :: t.buckets[b] <= start
    ensures if start == 0 then t.chain == [] else t.Hashed(start)
  {
    hide Hash;
    if t.chain != [] {
      assert t.Hashed(t.symOffset);
      assert t.StartsAt(t.Group(t.symOffset));
    }
  }

  /** The group that starts last holds the last symbol. */
  lemma LastGroup(t: Table, start: nat, last: nat)
    requires t.WellFormed() && t.Hashed(start) && t.Hashed(last) && last + 1 == |t.symbols.names|
    requires exists b | 0 <= b < |t.buckets| :: t.buckets[b] == start
    requires forall b | 0 <= b < |t.buckets| :: t.buckets[b] <= start
    ensures t.Group(start) == t.Group(last)
  {
    var first := t.buckets[t.Group(last)];
    assert first <= start <= last;
    assert t.Group(first) == t.Group(last);
  }

  // ---------------------------------------------------------------------------------------------------
  // A link editor's table

  function GroupFor(s: Symbols, n: nat, i: nat): nat
    requires s.Valid() && i < |s.names| && n > 0
  {
    Index(Hash(s.Name(i))) % n
  }

  /** The first symbol of bucket b from i on, or 0. */
  function FirstOf(s: Symbols, n: nat, b: nat, i: nat): nat
    requires s.Valid() && i <= |s.names| && n > 0
    decreases |s.names| - i
  {
    if i == |s.names| then 0 else if GroupFor(s, n, i) == b then i else FirstOf(s, n, b, i + 1)
  }

  function MarkedHash(hash: bv32, end: bool): bv32 {
    if end then hash | 1 else hash & 0xFFFF_FFFE
  }

  predicate LastOfGroup(s: Symbols, n: nat, i: nat)
    requires s.Valid() && i < |s.names| && n > 0
  {
    i + 1 == |s.names| || GroupFor(s, n, i + 1) != GroupFor(s, n, i)
  }

  /** Symbols from symOffset on, already sorted by bucket, with a bloom filter that admits everything. */
  function Build(s: Symbols, symOffset: nat, n: nat): Table
    requires s.Valid() && 1 <= symOffset <= |s.names| && n > 0
  {
    Table(symOffset, 0, [0xFFFF_FFFF_FFFF_FFFF],
          seq(n, b requires 0 <= b < n => FirstOf(s, n, b, symOffset)),
          seq(|s.names| - symOffset, k requires 0 <= k < |s.names| - symOffset =>
            MarkedHash(Hash(s.Name(symOffset + k)), LastOfGroup(s, n, symOffset + k))), s)
  }

  ghost predicate SortedByBucket(s: Symbols, symOffset: nat, n: nat)
    requires s.Valid() && n > 0
  {
    forall i: nat, j: nat | symOffset <= i <= j < |s.names| :: GroupFor(s, n, i) <= GroupFor(s, n, j)
  }

  lemma {:induction false} FirstOfMeaning(s: Symbols, n: nat, b: nat, i: nat)
    requires s.Valid() && 1 <= i <= |s.names| && n > 0
    ensures var f := FirstOf(s, n, b, i);
            && (f != 0 ==> i <= f < |s.names| && GroupFor(s, n, f) == b)
            && (forall k: nat | i <= k < |s.names| && GroupFor(s, n, k) == b :: 0 < f <= k)
    decreases |s.names| - i
  {
    hide GroupFor;
    if i < |s.names| && GroupFor(s, n, i) != b {
      FirstOfMeaning(s, n, b, i + 1);
    }
  }

  lemma MarkedHashFacts(hash: bv32, end: bool)
    ensures SameHash(hash, MarkedHash(hash, end)) && (LowBit(MarkedHash(hash, end)) <==> end)
  {}

  lemma AllOnes(mask: bv64)
    ensures Admits(0xFFFF_FFFF_FFFF_FFFF, mask)
  {}

  lemma OnesInWord(hash: bv32, shift: nat)
    requires shift < 32
    ensures InWord(0xFFFF_FFFF_FFFF_FFFF, hash, shift)
  {
    hide Bit, FilterBit, Admits;
    AllOnes(Bit(FilterBit(hash)));
    AllOnes(Bit(FilterBit(hash >> shift)));
  }

  /** A filter of ones holds every hash. */
  lemma OpenFilter(t: Table, hash: bv32)
    requires t.Shaped() && t.bloom == [0xFFFF_FFFF_FFFF_FFFF]
    ensures t.FilterHolds(hash)
  {
    hide Bit, Index, FilterBit;
    OnesInWord(hash, t.bloomShift);
  }

  lemma BuiltEntry(s: Symbols, symOffset: nat, n: nat, i: nat)
    requires s.Valid() && 1 <= symOffset <= i < |s.names| && n > 0
    ensures var t := Build(s, symOffset, n);
            && t.Shaped() && t.Hashed(i) && t.Group(i) == GroupFor(s, n, i)
            && SameHash(t.HashOf(i), t.chain[i - symOffset]) && (t.EndBit(i) <==> LastOfGroup(s, n, i))
            && t.FilterHolds(t.HashOf(i))
  {
    hide Hash, Index, SameHash, LowBit, Bit, MarkedHash, FirstOf, LastOfGroup, Table.FilterHolds;
    var t := Build(s, symOffset, n);
    MarkedHashFacts(t.HashOf(i), LastOfGroup(s, n, i));
    OpenFilter(t, t.HashOf(i));
  }

  lemma BuiltBuckets(s: Symbols, symOffset: nat, n: nat)
    requires s.Valid() && 1 <= symOffset <= |s.names| && n > 0
    ensures Build(s, symOffset, n).Shaped() && Build(s, symOffset, n).BucketsStart()
  {
    hide Hash, Index, SameHash, LowBit, Admits, BloomMask, MarkedHash, FirstOf, LastOfGroup;
    var t := Build(s, symOffset, n);
    forall i: nat | t.Hashed(i) ensures t.Group(i) == GroupFor(s, n, i) {
      BuiltEntry(s, symOffset, n, i);
    }
    forall b | 0 <= b < n
      ensures t.buckets[b] != 0 ==> t.StartsAt(b)
      ensures forall k: nat | t.Hashed(k) && t.Group(k) == b :: 0 < t.buckets[b] <= k
    {
      FirstOfMeaning(s, n, b, symOffset);
    }
  }

  lemma BuiltChain(s: Symbols, symOffset: nat, n: nat)
    requires s.Valid() && 1 <= symOffset <= |s.names| && n > 0
    ensures Build(s, symOffset, n).Shaped()
    ensures Build(s, symOffset, n).ChainsHashes() && Build(s, symOffset, n).FilterAdmits()
  {
    hide Hash, Index, SameHash, LowBit, Admits, BloomMask, MarkedHash, FirstOf, GroupFor;
    var t := Build(s, symOffset, n);
    forall i: nat | t.Hashed(i)
      ensures SameHash(t.HashOf(i), t.chain[i - symOffset])
      ensures t.FilterHolds(t.HashOf(i))
    {
      BuiltEntry(s, symOffset, n, i);
    }
  }

  lemma BuiltGroups(s: Symbols, symOffset: nat, n: nat)
    requires s.Valid() && 1 <= symOffset <= |s.names| && n > 0 && SortedByBucket(s, symOffset, n)
    ensures Build(s, symOffset, n).Shaped()
    ensures Build(s, symOffset, n).GroupsConsecutive() && Build(s, symOffset, n).EndsMarked()
  {
    hide Hash, Index, SameHash, LowBit, Admits, BloomMask, MarkedHash, FirstOf, GroupFor, Table.Group, Table.EndBit;
    var t := Build(s, symOffset, n);
    assert t.Shaped();
    forall i: nat | t.Hashed(i)
      ensures t.Group(i) == GroupFor(s, n, i) && (t.EndBit(i) <==> LastOfGroup(s, n, i))
    {
      BuiltEntry(s, symOffset, n, i);
    }
  }

  /** Every list of symbols sorted by bucket has a table that `Lookup` accepts. */
  lemma BuiltWellFormed(s: Symbols, symOffset: nat, n: nat)
    requires s.Valid() && 1 <= symOffset <= |s.names| && n > 0 && SortedByBucket(s, symOffset, n)
    ensures Build(s, symOffset, n).WellFormed()
  {
    hide Build, Table.Shaped, Table.BucketsStart, Table.ChainsHashes, Table.FilterAdmits, Table.GroupsConsecutive,
         Table.EndsMarked;
    BuiltBuckets(s, symOffset, n);
    BuiltChain(s, symOffset, n);
    BuiltGroups(s, symOffset, n);
  }

  /** A table that hashes nothing exists for every symbol table; `NumSymbols` gives 1 for it. */
  lemma NothingHashed(s: Symbols, n: nat)
    requires s.Valid() && s.names != [] && n > 0
    ensures Build(s, |s.names|, n).WellFormed() && Build(s, |s.names|, n).chain == []
  {
    hide Table.WellFormed;
    BuiltWellFormed(s, |s.names|, n);
  }
}

/** DT_HASH: `elf_hash` and `elf_lookup`. */
module SysvHash {
  import opened Options
  import opened Words
  import opened CString
  import opened SymbolNames

  const HIGH: bv32 := 0xF000_0000

  /** The hash function of the System V gABI ("Hash Table", chapter 5), with a 32-bit unsigned long: the high nibble,
      when it is not zero, is folded into bits 4 to 7, and then cleared. */
  function ReferenceFold(x: bv32): bv32 {
    var g := x & HIGH;
    if g != 0 then (x ^ (g >> 24)) & !g else x & !g
  }

  function ReferenceStep(h: bv32, c: Byte): bv32 {
    ReferenceFold((h << 4) + c as bv32)
  }

  function HashFrom(h: bv32, name: seq<Byte>): bv32
    decreases name
  {
    if name == [] then h else HashFrom(ReferenceStep(h, name[0]), name[1..])
  }

  function Hash(name: seq<Byte>): bv32 {
    HashFrom(0, name)
  }

  function Folded(x: bv32): bv32 {
    x ^ ((x >> 24) & 0xF0)
  }

  function CodeStep(h: bv32, c: Byte): bv32 {
    Folded((h << 4) + c as bv32)
  }

  function Low28(x: bv32): bv32 {
    x & 0xFFF_FFFF
  }

  lemma FoldHigh(x: bv32)
    ensures Low28(Folded(x)) == (x ^ ((x & HIGH) >> 24)) & !(x & HIGH)
  {}

  lemma FoldNothing(x: bv32)
    requires x & HIGH == 0
    ensures Low28(Folded(x)) == x & !(x & HIGH)
  {}

  lemma FoldAgrees(x: bv32)
    ensures Low28(Folded(x)) == ReferenceFold(x)
  {
    hide Low28, Folded;
    if x & HIGH == 0 {
      FoldNothing(x);
    } else {
      FoldHigh(x);
    }
  }

  lemma ShiftedOut(h: bv32)
    ensures Low28(h) << 4 == h << 4
  {}

  /** The branch-free step keeps the reference value in the low 28 bits. */
  lemma StepAgrees(h: bv32, c: Byte)
    ensures Low28(CodeStep(h, c)) == ReferenceStep(Low28(h), c)
  {
    hide Low28, Folded, ReferenceFold;
    ShiftedOut(h);
    FoldAgrees((h << 4) + c as bv32);
  }

  /** `elf_hash`: masked once at the end, it is the reference hash of every string. */
  method ComputeHash(s: seq<Byte>) returns (r: bv32)
    requires Terminated(s)
    ensures r == Hash(Text(s))
  {
    var hash: bv32 := 0;
    assert Low28(hash) == 0;
    hide ReferenceStep, CodeStep, Low28;
    var i := 0;
    assert s[0..] == s;
    while s[i] != 0
      invariant i < |s| && Terminated(s[i..]) && HashFrom(Low28(hash), Text(s[i..])) == Hash(Text(s))
      decreases |s| - i
    {
      TextStep(s, i);
      StepAgrees(hash, s[i]);
      assert Text(s[i..])[1..] == Text(s[i + 1..]);
      hash := CodeStep(hash, s[i]);
      i := i + 1;
    }
    return Low28(hash);
  }

  /** Index 0 is the null symbol and ends a chain. */
  datatype Table = Table(buckets: seq<nat>, chain: seq<nat>, symbols: Symbols) {
    predicate Shaped() {
      && symbols.Valid() && |buckets| > 0 && |chain| == |symbols.names|
      && (forall b | 0 <= b < |buckets| :: buckets[b] == 0 || buckets[b] < |chain|)
      && (forall i | 0 <= i < |chain| :: chain[i] < |chain|)
    }

    function Bucket(hash: bv32): nat
      requires Shaped()
    {
      (hash as nat) % |buckets|
    }

    /** The chain from i runs along the path and ends; a cyclic chain has no path. */
    ghost predicate Chain(i: nat, path: seq<nat>)
      requires Shaped()
      decreases |path|
    {
      if i == 0 then path == []
      else path != [] && path[0] == i && i < |chain| && Chain(chain[i], path[1..])
    }

    /** Every symbol but the null one is on the chain of its bucket. */
    ghost predicate Lists(b: nat, path: seq<nat>)
      requires Shaped() && b < |buckets|
    {
      && Chain(buckets[b], path)
      && forall i | 0 < i < |chain| && Bucket(Hash(symbols.Name(i))) == b :: i in path
    }

    ghost predicate WellFormed() {
      Shaped() && forall b | 0 <= b < |buckets| :: Complete(b)
    }

    ghost predicate Complete(b: nat)
      requires Shaped() && b < |buckets|
    {
      exists path :: Lists(b, path)
    }
  }

  /** `elf_lookup` finds a symbol with the name exactly when a linear scan of the non-null entries does. */
  method Lookup(t: Table, symName: seq<Byte>) returns (r: Option<nat>)
    requires t.WellFormed() && Terminated(symName)
    ensures r.Some? ==> 0 < r.value < |t.symbols.names| && t.symbols.Name(r.value) == Text(symName)
    ensures r.None? <==> |t.symbols.names| == 0 || t.symbols.Scan(Text(symName), 1).None?
  {
    ghost var name := Text(symName);
    var hash := ComputeHash(symName);
    var bucket := (hash as nat) % |t.buckets|;
    assert t.Complete(bucket);
    ghost var whole :| t.Lists(bucket, whole);
    if |t.symbols.names| > 0 {
      ScanMeaning(t.symbols, name, 1);
    }
    var i := t.buckets[bucket];
    ghost var path := whole;
    while i != 0
      invariant t.Chain(i, path)
      invariant forall k | k in whole && k !in path && k < |t.chain| :: t.symbols.Name(k) != name
      decreases |path|
    {
      var found := StringsEqual(symName, t.symbols.strtab[t.symbols.names[i]..]);
      if found {
        return Some(i);
      }
      assert path == [i] + path[1..];
      i := t.chain[i];
      path := path[1..];
    }
    return None;
  }

  // ---------------------------------------------------------------------------------------------------
  // A link editor's table

  function GroupFor(s: Symbols, n: nat, i: nat): nat
    requires s.Valid() && i < |s.names| && n > 0
  {
    (Hash(s.Name(i)) as nat) % n
  }

  /** The last symbol of bucket b before i, or 0. */
  function LastBefore(s: Symbols, n: nat, b: nat, i: nat): (r: nat)
    requires s.Valid() && i <= |s.names| && n > 0
    ensures r == 0 || r < i
  {
    if i <= 1 then 0 else if GroupFor(s, n, i - 1) == b then i - 1 else LastBefore(s, n, b, i - 1)
  }

  /** Each symbol put at the head of its bucket's chain in turn. */
  function Build(s: Symbols, n: nat): Table
    requires s.Valid() && s.names != [] && n > 0
  {
    Table(seq(n, b requires 0 <= b < n => LastBefore(s, n, b, |s.names|)),
          seq(|s.names|, i requires 0 <= i < |s.names| => LastBefore(s, n, GroupFor(s, n, i), i)), s)
  }

  lemma {:induction false} LastBeforeMeaning(s: Symbols, n: nat, b: nat, i: nat)
    requires s.Valid() && i <= |s.names| && n > 0
    ensures var r := LastBefore(s, n, b, i);
            && (r != 0 ==> r < i && GroupFor(s, n, r) == b)
            && (forall k: nat | 0 < k < i && GroupFor(s, n, k) == b :: k <= r)
    decreases i
  {
    hide GroupFor;
    if i > 1 && GroupFor(s, n, i - 1) != b {
      LastBeforeMeaning(s, n, b, i - 1);
    }
  }

  lemma BuiltShaped(s: Symbols, n: nat)
    requires s.Valid() && s.names != [] && n > 0
    ensures Build(s, n).Shaped()
  {
    hide GroupFor;
  }

  /** The chain from the last symbol of bucket b before i ends and passes every earlier symbol of the bucket. */
  lemma {:induction false} BuiltChain(s: Symbols, n: nat, b: nat, i: nat) returns (path: seq<nat>)
    requires s.Valid() && s.names != [] && n > 0 && i <= |s.names|
    ensures Build(s, n).Shaped() && Build(s, n).Chain(LastBefore(s, n, b, i), path)
    ensures forall k: nat | 0 < k < i && GroupFor(s, n, k) == b :: k in path
    decreases i
  {
    hide GroupFor;
    BuiltShaped(s, n);
    LastBeforeMeaning(s, n, b, i);
    var r := LastBefore(s, n, b, i);
    if r == 0 {
      path := [];
    } else {
      var rest := BuiltChain(s, n, b, r);
      path := [r] + rest;
      assert path[1..] == rest;
    }
  }

  /** Every symbol table has a hash table that `Lookup` accepts, for every number of buckets. */
  lemma BuiltWellFormed(s: Symbols, n: nat)
    requires s.Valid() && s.names != [] && n > 0
    ensures Build(s, n).WellFormed()
  {
    BuiltShaped(s, n);
    hide Hash;
    var t := Build(s, n);
    forall b | 0 <= b < n ensures t.Complete(b) {
      var path := BuiltChain(s, n, b, |s.names|);
      assert t.Lists(b, path);
    }
  }
}
