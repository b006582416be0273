/** Allocation of the n-th sub-prefix of a seed prefix, by editing bits of the address bytes. */
module SubPrefix {
  import opened Bits

  const U32: int := 0x1_0000_0000

  /** The byte with only bit `k` set. */
  function Mask(k: nat): bv8
    requires k < 8
  {
    if k == 0 then 1 else if k == 1 then 2 else if k == 2 then 4 else if k == 3 then 8
    else if k == 4 then 16 else if k == 5 then 32 else if k == 6 then 64 else 128
  }

  predicate Bit(b: bv8, k: nat)
    requires k < 8
  {
    b & Mask(k) != 0
  }

  function EditByte(b: bv8, k: nat, on: bool): bv8
    requires k < 8
  {
    if on then b | Mask(k) else b & !Mask(k)
  }

  predicate OneBit(m: bv8) {
    m == 1 || m == 2 || m == 4 || m == 8 || m == 16 || m == 32 || m == 64 || m == 128
  }

  lemma EditMask(b: bv8, m: bv8, n: bv8)
    requires OneBit(m) && OneBit(n)
    ensures ((b | m) & n != 0) == (m == n || b & n != 0)
    ensures ((b & !m) & n != 0) == (m != n && b & n != 0)
  {
  }

  lemma MaskIs(k: nat, j: nat)
    requires k < 8 && j < 8
    ensures OneBit(Mask(k)) && OneBit(Mask(j)) && (Mask(k) == Mask(j) <==> k == j)
  {
  }

  /** Setting or clearing a bit of a byte affects that bit alone. */
  lemma EditByteBits(b: bv8, k: nat, on: bool, j: nat)
    requires k < 8 && j < 8
    ensures Bit(EditByte(b, k, on), j) == if j == k then on else Bit(b, j)
  {
    MaskIs(k, j);
    EditMask(b, Mask(k), Mask(j));
  }

  /** The bytes differ at most in bit `k`, which is as stated in the second. */
  ghost predicate Edited(b: bv8, b': bv8, k: nat, on: bool) {
    forall j :: 0 <= j < 8 ==> Bit(b', j) == if j == k then on else Bit(b, j)
  }

  lemma ByteIsEdited(b: bv8, b': bv8, k: nat, on: bool)
    requires k < 8 && b' == EditByte(b, k, on)
    ensures Edited(b, b', k, on)
  {
    forall j | 0 <= j < 8 ensures Bit(b', j) == if j == k then on else Bit(b, j) {
      EditByteBits(b, k, on, j);
    }
  }

  // ----- addresses -----

  /** Bit `idx` of an address in network byte order, counted from the least significant one. */
  predicate AddressBit(bytes: seq<bv8>, idx: nat)
    requires idx < 8 * |bytes|
  {
    Bit(bytes[|bytes| - 1 - idx / 8], idx % 8)
  }

  function AddressBits(bytes: seq<bv8>): (r: seq<bool>)
    ensures |r| == 8 * |bytes|
    ensures forall i :: 0 <= i < |r| ==> r[i] == AddressBit(bytes, i)
  {
    seq(8 * |bytes|, i requires 0 <= i < 8 * |bytes| => AddressBit(bytes, i))
  }

  /** The number that the bytes are in network byte order. */
  function AddressValue(bytes: seq<bv8>): nat {
    BigEndian(Octets(bytes))
  }

  function Octets(bytes: seq<bv8>): seq<nat> {
    seq(|bytes|, i requires 0 <= i < |bytes| => bytes[i] as nat)
  }

  function BigEndian(octets: seq<nat>): nat {
    if octets == [] then 0
    else 256 * BigEndian(octets[..|octets| - 1]) + octets[|octets| - 1]
  }

  function ByteBits(b: bv8): (r: seq<bool>)
    ensures |r| == 8
  {
    [Bit(b, 0), Bit(b, 1), Bit(b, 2), Bit(b, 3), Bit(b, 4), Bit(b, 5), Bit(b, 6), Bit(b, 7)]
  }

  function Weight(bit: bool, weight: nat): nat {
    if bit then weight else 0
  }

  lemma ByteSum(b: bv8)
    ensures b as nat ==
      Weight(b & 1 != 0, 1) + Weight(b & 2 != 0, 2) + Weight(b & 4 != 0, 4) + Weight(b & 8 != 0, 8) +
      Weight(b & 16 != 0, 16) + Weight(b & 32 != 0, 32) + Weight(b & 64 != 0, 64) + Weight(b & 128 != 0, 128)
  {
  }

  lemma ValueOfEight(b0: bool, b1: bool, b2: bool, b3: bool, b4: bool, b5: bool, b6: bool, b7: bool)
    ensures Value([b0, b1, b2, b3, b4, b5, b6, b7]) ==
      Weight(b0, 1) + Weight(b1, 2) + Weight(b2, 4) + Weight(b3, 8) +
      Weight(b4, 16) + Weight(b5, 32) + Weight(b6, 64) + Weight(b7, 128)
  {
    var low, high := [b0, b1, b2, b3], [b4, b5, b6, b7];
    assert [b0, b1, b2, b3, b4, b5, b6, b7] == low + high;
    ValueConcat(low, high);
    ValueOfFour(b0, b1, b2, b3);
    ValueOfFour(b4, b5, b6, b7);
    GlueIs(Value(low), 4, Value(high));
    LowSmall(Value(low), 4);
  }

  lemma ValueOfFour(b0: bool, b1: bool, b2: bool, b3: bool)
    ensures Value([b0, b1, b2, b3]) == Weight(b0, 1) + Weight(b1, 2) + Weight(b2, 4) + Weight(b3, 8) < Pow2(4) == 16
  {
    assert [b0, b1, b2, b3][1..] == [b1, b2, b3] && [b1, b2, b3][1..] == [b2, b3] && [b2, b3][1..] == [b3];
    assert Value([b3]) == Weight(b3, 1) by {
      assert [b3][1..] == [];
    }
    assert Value([b2, b3]) == Weight(b2, 1) + 2 * Value([b3]);
    assert Value([b1, b2, b3]) == Weight(b1, 1) + 2 * Value([b2, b3]);
    assert Pow2(4) == 2 * Pow2(3) && Pow2(3) == 2 * Pow2(2) && Pow2(2) == 2 * Pow2(1);
  }

  /** The bits of a byte are those of its value. */
  lemma ByteValue(b: bv8)
    ensures Value(ByteBits(b)) == b as nat
  {
    ByteSum(b);
    ValueOfEight(Bit(b, 0), Bit(b, 1), Bit(b, 2), Bit(b, 3), Bit(b, 4), Bit(b, 5), Bit(b, 6), Bit(b, 7));
  }

  /** The bits of an address are those of its number. */
  lemma {:induction false} AddressBitsValue(bytes: seq<bv8>)
    ensures Value(AddressBits(bytes)) == AddressValue(bytes)
  {
    if bytes != [] {
      var rest, last := bytes[..|bytes| - 1], bytes[|bytes| - 1];
      AddressBitsValue(rest);
      AddressBitsSplit(bytes);
      assert Octets(bytes)[..|bytes| - 1] == Octets(rest);
      ValueConcat(ByteBits(last), AddressBits(rest));
      ByteValue(last);
      EightBits(last as nat, AddressValue(rest));
    }
  }

  lemma AddressBitsSplit(bytes: seq<bv8>)
    requires bytes != []
    ensures AddressBits(bytes) == ByteBits(bytes[|bytes| - 1]) + AddressBits(bytes[..|bytes| - 1])
  {
    var low, high := ByteBits(bytes[|bytes| - 1]), AddressBits(bytes[..|bytes| - 1]);
    forall i | 0 <= i < 8 * |bytes| ensures AddressBits(bytes)[i] == (low + high)[i] {
      if i < 8 {
        LowBit(bytes, i);
      } else {
        HighBit(bytes, i);
      }
    }
  }

  lemma LowBit(bytes: seq<bv8>, i: nat)
    requires bytes != [] && i < 8
    ensures AddressBit(bytes, i) == ByteBits(bytes[|bytes| - 1])[i]
  {
    assert i / 8 == 0 && i % 8 == i;
    assert i == 0 || i == 1 || i == 2 || i == 3 || i == 4 || i == 5 || i == 6 || i == 7;
  }

  lemma HighBit(bytes: seq<bv8>, i: nat)
    requires 8 <= i < 8 * |bytes|
    ensures AddressBit(bytes, i) == AddressBit(bytes[..|bytes| - 1], i - 8)
  {
    assert i / 8 == (i - 8) / 8 + 1 && i % 8 == (i - 8) % 8;
  }

  lemma EightBits(low: nat, high: nat)
    requires low < 256
    ensures Glue(low, 8, high) == low + 256 * high
  {
    assert Pow2(8) == 256 by {
      assert Pow2(8) == 2 * Pow2(7) && Pow2(7) == 2 * Pow2(6) && Pow2(6) == 2 * Pow2(5) && Pow2(5) == 2 * Pow2(4);
      assert Pow2(4) == 2 * Pow2(3) && Pow2(3) == 2 * Pow2(2) && Pow2(2) == 2 * Pow2(1);
    }
    GlueIs(low, 8, high);
    LowSmall(low, 8);
  }

  /** Replacing a byte by one that differs in one bit edits one bit of the address. */
  lemma EditAddress(bytes: seq<bv8>, b: bv8, idx: nat, on: bool, j: nat)
    requires idx < 8 * |bytes| && j < 8 * |bytes|
    requires Edited(bytes[|bytes| - 1 - idx / 8], b, idx % 8, on)
    ensures AddressBit(bytes[|bytes| - 1 - idx / 8 := b], j) == if j == idx then on else AddressBit(bytes, j)
  {
  }

  datatype Result =
    | Allocated(bytes: seq<bv8>, length: nat)
    | AllocBiggerThanSeed
    | IndexOutOfRange
    | ByteOutOfRange

  /** The value of a 32-bit unsigned word read as a signed one. */
  function Signed32(n: int): int
    requires 0 <= n < U32
  {
    if n < U32 / 2 then n else n - U32
  }

  function FieldWidth(gap: nat): nat {
    if gap < 32 then gap else 32
  }

  /** The bits with those from position `h` on replaced by `field`. */
  function Replaced(bits: seq<bool>, h: nat, field: seq<bool>): (r: seq<bool>)
    requires h + |field| <= |bits|
    ensures |r| == |bits|
  {
    bits[..h] + field + bits[h + |field|..]
  }

  // the source's 32-bit unsigned arithmetic

  function HostBits(bitCount: nat, length: nat): nat {
    (bitCount - length) % U32
  }

  function ByteIndex(bitCount: nat, idx: nat): nat {
    (bitCount / 8 - idx / 8 - 1) % U32
  }

  /** The edited byte exists exactly when the prefix is not longer than the address. */
  lemma ByteIndexIs(bitCount: nat, allocLen: nat, i: nat)
    requires (bitCount == 32 || bitCount == 128) && allocLen < U32 / 2 + 128 && i < 32
    ensures allocLen <= bitCount && bitCount - allocLen + i < bitCount ==>
      var idx := (i + HostBits(bitCount, allocLen)) % U32;
      idx == bitCount - allocLen + i && ByteIndex(bitCount, idx) == bitCount / 8 - 1 - idx / 8
    ensures allocLen > bitCount && i == 0 ==>
      ByteIndex(bitCount, (i + HostBits(bitCount, allocLen)) % U32) >= bitCount / 8
  {
    if allocLen > bitCount {
      WrappedHostBits(bitCount, allocLen);
      WrappedByteIndex(bitCount, HostBits(bitCount, allocLen));
    }
  }

  /** A longer prefix makes the number of host bits wrap around. */
  lemma WrappedHostBits(bitCount: nat, allocLen: nat)
    requires bitCount <= 128 && bitCount < allocLen < U32 / 2 + 128
    ensures U32 / 2 - 128 <= HostBits(bitCount, allocLen) < U32
    ensures HostBits(bitCount, allocLen) % U32 == HostBits(bitCount, allocLen)
  {
    assert HostBits(bitCount, allocLen) == bitCount - allocLen + U32;
  }

  lemma WrappedByteIndex(bitCount: nat, idx: nat)
    requires (bitCount == 32 || bitCount == 128) && U32 / 2 - 128 <= idx < U32
    ensures ByteIndex(bitCount, idx) >= bitCount / 8
  {
    assert ByteIndex(bitCount, idx) == bitCount / 8 - idx / 8 - 1 + U32;
  }

  /** The number of index bits to write, negative when the seed is the longer prefix. */
  method FieldBits(bitCount: nat, seedLen: nat, allocLen: nat) returns (allocBits: int)
    requires seedLen <= bitCount <= 128 && allocLen < U32
    ensures allocBits < 0 <==> allocLen < seedLen || allocLen - seedLen >= U32 / 2
    ensures seedLen <= allocLen < seedLen + U32 / 2 ==> allocBits == FieldWidth(allocLen - seedLen)
  {
    var difference := Signed32((HostBits(bitCount, seedLen) - HostBits(bitCount, allocLen)) % U32);
    assert HostBits(bitCount, seedLen) == bitCount - seedLen;
    assert HostBits(bitCount, allocLen) == bitCount - allocLen + if allocLen <= bitCount then 0 else U32;
    assert difference == allocLen - seedLen || difference == allocLen - seedLen - U32;
    allocBits := if difference < 32 then difference else 32;
  }

  method CopyBytes(bytes: seq<bv8>) returns (copy: array<bv8>)
    ensures fresh(copy) && copy[..] == bytes
  {
    copy := new bv8[|bytes|](i requires 0 <= i < |bytes| => bytes[i]);
  }

  /** Sets or clears one bit of the buffer. */
  method WriteBit(bytes: array<bv8>, byteIdx: nat, bitIdx: nat, on: bool)
    requires byteIdx < bytes.Length && bitIdx < 8
    modifies bytes
    ensures Edited(old(bytes[byteIdx]), bytes[byteIdx], bitIdx, on)
    ensures bytes[..] == old(bytes[..])[byteIdx := bytes[byteIdx]]
  {
    ghost var b := bytes[byteIdx];
    if on {
      bytes[byteIdx] := bytes[byteIdx] | Mask(bitIdx);
    } else {
      bytes[byteIdx] := bytes[byteIdx] & !Mask(bitIdx);
    }
    ByteIsEdited(b, bytes[byteIdx], bitIdx, on);
  }

  /** The address is that of the seed, with the bits between the two lengths replaced by the index. */
  ghost predicate Allocates(seed: seq<bv8>, seedLen: nat, allocLen: nat, index: nat, bytes: seq<bv8>) {
    && seedLen <= allocLen <= 8 * |seed|
    && AddressBits(bytes) ==
       Replaced(AddressBits(seed), 8 * |seed| - allocLen, BitsOf(index, FieldWidth(allocLen - seedLen)))
  }

  /** The `index`-th sub-prefix of length `allocLen` of a seed prefix. */
  method GetNthPrefix(seed: seq<bv8>, seedLen: nat, allocLen: nat, index: nat) returns (r: Result)
    requires |seed| == 4 || |seed| == 16
    requires seedLen <= 8 * |seed| && allocLen < U32 && index < U32
    ensures r == AllocBiggerThanSeed <==> allocLen < seedLen || allocLen - seedLen >= U32 / 2
    ensures r == IndexOutOfRange <==> seedLen <= allocLen < seedLen + 32 && index >= Pow2(allocLen - seedLen)
    ensures r == ByteOutOfRange <==>
      8 * |seed| < allocLen < seedLen + U32 / 2 && (allocLen - seedLen < 32 ==> index < Pow2(allocLen - seedLen))
    ensures r.Allocated? ==> r.length == allocLen && Allocates(seed, seedLen, allocLen, index, r.bytes)
  {
    var bitCount := 8 * |seed|;
    var ipBytes := CopyBytes(seed);
    var allocBits := FieldBits(bitCount, seedLen, allocLen);
    if allocBits < 0 {
      return AllocBiggerThanSeed;
    }
    if allocBits < 32 && index >= Pow2(allocBits) {
      return IndexOutOfRange;
    }
    var ok := WriteField(ipBytes, allocLen, allocBits, index);
    if !ok {
      return ByteOutOfRange;
    }
    WrittenIsReplaced(seed, ipBytes[..], bitCount - allocLen, index, allocBits);
    return Allocated(ipBytes[..], allocLen);
  }

  /** Writes the low `allocBits` bits of `index` above the host part of the address; fails when the
      prefix is longer than the address. */
  method WriteField(bytes: array<bv8>, allocLen: nat, allocBits: nat, index: nat) returns (ok: bool)
    requires bytes.Length == 4 || bytes.Length == 16
    requires allocBits <= 32 && allocBits <= allocLen < U32 / 2 + 128
    requires allocLen > 8 * bytes.Length ==> allocBits > 0
    modifies bytes
    ensures ok <==> allocLen <= 8 * bytes.Length
    ensures ok ==> Written(old(bytes[..]), bytes[..], 8 * bytes.Length - allocLen, index, allocBits)
  {
    for i := 0 to allocBits
      invariant i > 0 ==> allocLen <= 8 * bytes.Length
      invariant allocLen <= 8 * bytes.Length ==>
        Written(old(bytes[..]), bytes[..], 8 * bytes.Length - allocLen, index, i)
    {
      ok := WriteIndexBit(bytes, old(bytes[..]), allocLen, index, i);
      if !ok {
        return;
      }
    }
    return true;
  }

  /** One step: bit `i` of the index goes to bit `i` above the host part. */
  method WriteIndexBit(bytes: array<bv8>, ghost seed: seq<bv8>, allocLen: nat, index: nat, i: nat) returns (ok: bool)
    requires bytes.Length == 4 || bytes.Length == 16
    requires i < 32 && i < allocLen < U32 / 2 + 128
    requires allocLen <= 8 * bytes.Length ==> Written(seed, bytes[..], 8 * bytes.Length - allocLen, index, i)
    requires allocLen > 8 * bytes.Length ==> i == 0
    modifies bytes
    ensures ok <==> allocLen <= 8 * bytes.Length
    ensures ok ==> Written(seed, bytes[..], 8 * bytes.Length - allocLen, index, i + 1)
  {
    var bitCount := 8 * bytes.Length;
    var idx := (i + HostBits(bitCount, allocLen)) % U32;
    var byteIdx := ByteIndex(bitCount, idx);
    ByteIndexIs(bitCount, allocLen, i);
    if byteIdx >= bytes.Length {
      return false;
    }
    ghost var before, h := bytes[..], bitCount - allocLen;
    WriteBit(bytes, byteIdx, idx % 8, BitAt(index, i));
    WriteNext(seed, before, bytes[byteIdx], h, index, i);
    assert bytes[..] == before[|before| - 1 - (h + i) / 8 := bytes[byteIdx]];
    return true;
  }

  /** The address bytes with the first `n` bits of the field at position `h` written. */
  ghost predicate Written(seed: seq<bv8>, bytes: seq<bv8>, h: nat, index: nat, n: nat) {
    && |bytes| == |seed|
    && forall j :: 0 <= j < 8 * |seed| ==>
      AddressBit(bytes, j) == if h <= j < h + n then BitAt(index, j - h) else AddressBit(seed, j)
  }

  lemma WriteNext(seed: seq<bv8>, bytes: seq<bv8>, b: bv8, h: nat, index: nat, n: nat)
    requires h + n < 8 * |seed| && Written(seed, bytes, h, index, n)
    requires Edited(bytes[|bytes| - 1 - (h + n) / 8], b, (h + n) % 8, BitAt(index, n))
    ensures Written(seed, bytes[|bytes| - 1 - (h + n) / 8 := b], h, index, n + 1)
  {
    var bytes' := bytes[|bytes| - 1 - (h + n) / 8 := b];
    forall j | 0 <= j < 8 * |seed|
      ensures AddressBit(bytes', j) == if h <= j < h + (n + 1) then BitAt(index, j - h) else AddressBit(seed, j)
    {
      EditAddress(bytes, b, h + n, BitAt(index, n), j);
    }
  }

  lemma WrittenIsReplaced(seed: seq<bv8>, bytes: seq<bv8>, h: nat, index: nat, n: nat)
    requires h + n <= 8 * |seed| && Written(seed, bytes, h, index, n)
    ensures AddressBits(bytes) == Replaced(AddressBits(seed), h, BitsOf(index, n))
  {
    forall j | 0 <= j < n ensures BitsOf(index, n)[j] == BitAt(index, j) {
      BitsOfAt(index, n, j);
    }
  }
}
