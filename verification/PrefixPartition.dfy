/** What the allocated sub-prefixes are, as sets of addresses: a partition of the seed prefix.
    Addresses are numbers; a prefix with `host` host bits holds the addresses that agree with its
    own on all higher bits (section 2.3 of RFC 4291). */
module PrefixPartition {
  import opened Bits
  import opened SubPrefix

  ghost predicate InPrefix(x: nat, base: nat, host: nat) {
    Shift(x, host) == Shift(base, host)
  }

  lemma InPrefixIs(x: nat, base: nat, host: nat)
    ensures InPrefix(x, base, host) <==> x / Pow2(host) == base / Pow2(host)
  {
    ShiftIs(x, host);
    ShiftIs(base, host);
  }

  /** The address whose `a` bits above the `h` lowest are replaced by those of the number `k`. */
  function Nth(seed: nat, h: nat, a: nat, k: nat): nat {
    Glue(seed, h, Glue(k, a, Shift(seed, h + a)))
  }

  lemma NthIs(seed: nat, h: nat, a: nat, k: nat)
    requires k < Pow2(a)
    ensures Nth(seed, h, a, k) == seed % Pow2(h) + Pow2(h) * (k + Pow2(a) * (seed / Pow2(h + a)))
  {
    ShiftIs(seed, h);
    ShiftIs(seed, h + a);
    var high := Shift(seed, h + a);
    var above := Glue(k, a, high);
    assert above == k + Pow2(a) * high by {
      GlueIs(k, a, high);
      LowSmall(k, a);
    }
    GlueIs(seed, h, above);
  }

  /** Replacing bits is this arithmetic. */
  lemma ReplacedIsNth(bits: seq<bool>, h: nat, a: nat, k: nat)
    requires h + a <= |bits| && k < Pow2(a)
    ensures Value(Replaced(bits, h, BitsOf(k, a))) == Nth(Value(bits), h, a, k)
  {
    ReplacedParts(bits, h, BitsOf(k, a));
    ValueOfBits(k, a);
    LowAndHigh(bits, h, a);
    GlueLow(Value(bits), h, Glue(k, a, Shift(Value(bits), h + a)));
  }

  lemma ReplacedParts(bits: seq<bool>, h: nat, field: seq<bool>)
    requires h + |field| <= |bits|
    ensures Value(Replaced(bits, h, field)) ==
      Glue(Value(bits[..h]), h, Glue(Value(field), |field|, Value(bits[h + |field|..])))
  {
    var low, high := bits[..h], bits[h + |field|..];
    ValueConcat(field, high);
    ValueConcat(low, field + high);
    assert Replaced(bits, h, field) == low + (field + high);
  }

  lemma LowAndHigh(bits: seq<bool>, h: nat, a: nat)
    requires h + a <= |bits|
    ensures Value(bits[..h]) == Low(Value(bits), h) && Value(bits[h + a..]) == Shift(Value(bits), h + a)
  {
    ValueSplit(bits, h);
    ValueSplit(bits, h + a);
  }

  /** Dropping the host bits of the n-th address leaves `k` below the seed's own higher bits. */
  lemma NthHigh(seed: nat, h: nat, a: nat, k: nat)
    ensures Shift(Nth(seed, h, a, k), h) == Glue(k, a, Shift(seed, h + a))
  {
    GlueParts(seed, h, Glue(k, a, Shift(seed, h + a)));
  }

  lemma SameAbove(x: nat, y: nat, n: nat, s: nat)
    requires InPrefix(x, y, n) && n <= s
    ensures InPrefix(x, y, s)
  {
    ShiftAdd(x, n, s - n);
    ShiftAdd(y, n, s - n);
  }

  /** An address in the k-th sub-prefix tells `k` by its bits, and lies in the seed prefix. */
  lemma InNth(seed: nat, s: nat, h: nat, a: nat, k: nat, x: nat)
    requires k < Pow2(a) && h + a <= s && InPrefix(x, Nth(seed, h, a, k), h)
    ensures k == Low(Shift(x, h), a)
    ensures InPrefix(x, seed, h + a) && InPrefix(x, seed, s)
  {
    InNthHigh(seed, h, a, k, x);
    SameAbove(x, seed, h + a, s);
  }

  lemma InNthHigh(seed: nat, h: nat, a: nat, k: nat, x: nat)
    requires k < Pow2(a) && InPrefix(x, Nth(seed, h, a, k), h)
    ensures k == Low(Shift(x, h), a) && InPrefix(x, seed, h + a)
  {
    NthHigh(seed, h, a, k);
    PartsAbove(x, h, a, k, Shift(seed, h + a));
  }

  lemma PartsAbove(x: nat, h: nat, a: nat, k: nat, high: nat)
    requires Shift(x, h) == Glue(k, a, high) && k < Pow2(a)
    ensures k == Low(Shift(x, h), a) && Shift(x, h + a) == high
  {
    GlueParts(k, a, high);
    LowSmall(k, a);
    ShiftAdd(x, h, a);
  }

  /** Different indices give disjoint sub-prefixes. */
  lemma Disjoint(seed: nat, h: nat, a: nat, k: nat, k': nat, x: nat)
    requires k < Pow2(a) && k' < Pow2(a) && k != k'
    ensures !(InPrefix(x, Nth(seed, h, a, k), h) && InPrefix(x, Nth(seed, h, a, k'), h))
  {
    if InPrefix(x, Nth(seed, h, a, k), h) {
      InNth(seed, h + a, h, a, k, x);
      if InPrefix(x, Nth(seed, h, a, k'), h) {
        InNth(seed, h + a, h, a, k', x);
      }
    }
  }

  /** When the field spans the whole gap, each address of the seed lies in the sub-prefix that its
      own bits name. */
  lemma Covered(seed: nat, h: nat, a: nat, x: nat)
    requires InPrefix(x, seed, h + a)
    ensures InPrefix(x, Nth(seed, h, a, Low(Shift(x, h), a)), h)
  {
    NthHigh(seed, h, a, Low(Shift(x, h), a));
    ShiftAdd(x, h, a);
    GlueLow(Shift(x, h), a, Shift(seed, h + a));
    GlueSelf(Shift(x, h), a);
  }

  /** When the seed has more host bits than host and field together, some of its addresses are in
      no sub-prefix. */
  lemma Uncovered(seed: nat, s: nat, h: nat, a: nat) returns (x: nat)
    requires h + a < s
    ensures InPrefix(x, seed, s)
    ensures forall k :: 0 <= k < Pow2(a) ==> !InPrefix(x, Nth(seed, h, a, k), h)
  {
    var t := Shift(seed, h + a);
    var other := if t % 2 == 0 then t + 1 else t - 1;
    x := Glue(0, h + a, other);
    GlueParts(0, h + a, other);
    ShiftAdd(x, h + a, s - h - a);
    ShiftAdd(seed, h + a, s - h - a);
    forall k | 0 <= k < Pow2(a) ensures !InPrefix(x, Nth(seed, h, a, k), h) {
      if InPrefix(x, Nth(seed, h, a, k), h) {
        InNth(seed, s, h, a, k, x);
      }
    }
  }

  /** Each address of the seed lies in exactly one of the sub-prefixes. */
  ghost predicate Partitioned(seed: nat, s: nat, h: nat, a: nat) {
    forall x: nat :: InPrefix(x, seed, s) ==> InExactlyOne(x, seed, h, a)
  }

  ghost predicate InExactlyOne(x: nat, seed: nat, h: nat, a: nat) {
    exists k: nat :: InSub(x, seed, h, a, k) && forall k': nat :: InSub(x, seed, h, a, k') ==> k' == k
  }

  ghost predicate InSub(x: nat, seed: nat, h: nat, a: nat, k: nat) {
    k < Pow2(a) && InPrefix(x, Nth(seed, h, a, k), h)
  }

  /** The allocation covers the seed prefix exactly when the index has a bit for each bit between
      the two prefix lengths, that is when they are at most 32 apart.  In any case all of it lies
      inside the seed prefix. */
  lemma PartitionExactly(seed: nat, s: nat, h: nat, a: nat)
    requires h <= s && a == FieldWidth(s - h)
    ensures Partitioned(seed, s, h, a) <==> s - h <= 32
    ensures forall k: nat, x: nat :: InSub(x, seed, h, a, k) ==> InPrefix(x, seed, s)
  {
    forall k: nat, x: nat | InSub(x, seed, h, a, k)
      ensures k == Low(Shift(x, h), a) && InPrefix(x, seed, s)
    {
      InNth(seed, s, h, a, k, x);
    }
    if s - h <= 32 {
      forall x: nat | InPrefix(x, seed, s) ensures InExactlyOne(x, seed, h, a) {
        Covered(seed, h, a, x);
        assert InSub(x, seed, h, a, Low(Shift(x, h), a));
      }
    } else {
      var x := Uncovered(seed, s, h, a);
      assert !InExactlyOne(x, seed, h, a);
    }
  }

  /** The address that the allocator builds, as a number. */
  lemma AllocatedValue(seed: seq<bv8>, seedLen: nat, allocLen: nat, index: nat, bytes: seq<bv8>)
    requires Allocates(seed, seedLen, allocLen, index, bytes) && index < Pow2(FieldWidth(allocLen - seedLen))
    ensures
      var h, a, n := 8 * |seed| - allocLen, FieldWidth(allocLen - seedLen), AddressValue(seed);
      && AddressValue(bytes) == Nth(n, h, a, index)
      && AddressValue(bytes) == n % Pow2(h) + Pow2(h) * (index + Pow2(a) * (n / Pow2(h + a)))
      && InPrefix(AddressValue(bytes), n, 8 * |seed| - seedLen)
  {
    var s, h, a, n := 8 * |seed| - seedLen, 8 * |seed| - allocLen, FieldWidth(allocLen - seedLen), AddressValue(seed);
    assert AddressValue(bytes) == Nth(n, h, a, index) by {
      AllocatedNth(seed, seedLen, allocLen, index, bytes);
    }
    NthInSeed(n, s, h, a, index);
  }

  lemma NthInSeed(n: nat, s: nat, h: nat, a: nat, k: nat)
    requires k < Pow2(a) && h + a <= s
    ensures Nth(n, h, a, k) == n % Pow2(h) + Pow2(h) * (k + Pow2(a) * (n / Pow2(h + a)))
    ensures InPrefix(Nth(n, h, a, k), n, s)
  {
    NthIs(n, h, a, k);
    InNth(n, s, h, a, k, Nth(n, h, a, k));
  }

  lemma AllocatedNth(seed: seq<bv8>, seedLen: nat, allocLen: nat, index: nat, bytes: seq<bv8>)
    requires Allocates(seed, seedLen, allocLen, index, bytes) && index < Pow2(FieldWidth(allocLen - seedLen))
    ensures AddressValue(bytes) == Nth(AddressValue(seed), 8 * |seed| - allocLen, FieldWidth(allocLen - seedLen), index)
  {
    var h, a := 8 * |seed| - allocLen, FieldWidth(allocLen - seedLen);
    AddressBitsValue(seed);
    AddressBitsValue(bytes);
    ReplacedIsNth(AddressBits(seed), h, a, index);
  }

  /** An address lies in the prefix allocated for this index. */
  ghost predicate InAllocated(x: nat, alloc: nat -> seq<bv8>, h: nat, a: nat, k: nat) {
    k < Pow2(a) && InPrefix(x, AddressValue(alloc(k)), h)
  }

  ghost predicate InExactlyOneAllocated(x: nat, alloc: nat -> seq<bv8>, h: nat, a: nat) {
    exists k: nat :: InAllocated(x, alloc, h, a, k) && forall k': nat :: InAllocated(x, alloc, h, a, k') ==> k' == k
  }

  /** Whatever the allocator returns for the indices in range, these prefixes lie inside the seed, and
      each address of the seed is in exactly one of them if and only if the lengths are at most 32
      apart. */
  lemma AllocationsPartition(seed: seq<bv8>, seedLen: nat, allocLen: nat, alloc: nat -> seq<bv8>)
    requires seedLen <= allocLen <= 8 * |seed|
    requires forall k: nat :: k < Pow2(FieldWidth(allocLen - seedLen)) ==>
      Allocates(seed, seedLen, allocLen, k, alloc(k))
    ensures
      var s, h, a := 8 * |seed| - seedLen, 8 * |seed| - allocLen, FieldWidth(allocLen - seedLen);
      && (forall k: nat, x: nat :: InAllocated(x, alloc, h, a, k) ==> InPrefix(x, AddressValue(seed), s))
      && ((forall x: nat :: InPrefix(x, AddressValue(seed), s) ==> InExactlyOneAllocated(x, alloc, h, a)) <==>
          allocLen - seedLen <= 32)
  {
    var s, h, a := 8 * |seed| - seedLen, 8 * |seed| - allocLen, FieldWidth(allocLen - seedLen);
    forall k: nat | k < Pow2(a) ensures AddressValue(alloc(k)) == Nth(AddressValue(seed), h, a, k) {
      AllocatedNth(seed, seedLen, allocLen, k, alloc(k));
    }
    NthPartition(AddressValue(seed), s, h, a, alloc);
  }

  lemma NthPartition(seed: nat, s: nat, h: nat, a: nat, alloc: nat -> seq<bv8>)
    requires h <= s && a == FieldWidth(s - h)
    requires forall k: nat :: k < Pow2(a) ==> AddressValue(alloc(k)) == Nth(seed, h, a, k)
    ensures forall k: nat, x: nat :: InAllocated(x, alloc, h, a, k) ==> InPrefix(x, seed, s)
    ensures (forall x: nat :: InPrefix(x, seed, s) ==> InExactlyOneAllocated(x, alloc, h, a)) <==> s - h <= 32
  {
    assert forall k: nat, x: nat :: InAllocated(x, alloc, h, a, k) <==> InSub(x, seed, h, a, k);
    forall x: nat ensures InExactlyOneAllocated(x, alloc, h, a) <==> InExactlyOne(x, seed, h, a) {
      SameChoice(x, alloc, seed, h, a);
    }
    PartitionExactly(seed, s, h, a);
  }

  lemma SameChoice(x: nat, alloc: nat -> seq<bv8>, seed: nat, h: nat, a: nat)
    requires forall k: nat :: InAllocated(x, alloc, h, a, k) <==> InSub(x, seed, h, a, k)
    ensures InExactlyOneAllocated(x, alloc, h, a) <==> InExactlyOne(x, seed, h, a)
  {
    if InExactlyOne(x, seed, h, a) {
      var k: nat :| InSub(x, seed, h, a, k) && forall k': nat :: InSub(x, seed, h, a, k') ==> k' == k;
      assert InAllocated(x, alloc, h, a, k);
    }
    if InExactlyOneAllocated(x, alloc, h, a) {
      var k: nat :| InAllocated(x, alloc, h, a, k) && forall k': nat :: InAllocated(x, alloc, h, a, k') ==> k' == k;
      assert InSub(x, seed, h, a, k);
    }
  }
}
