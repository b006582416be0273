/** What the announcers of BGP routes share: how remote calls end, and which peers are remembered. */
module Announcer {
  import Bits
  import opened VppPaths

  const DEFAULT_V6 := Prefix(seq(16, _ => 0), 0)

  /** Bit `i` of an address, counted from the most significant one. */
  predicate AddressBit(a: Address, i: nat)
    requires i < 128
  {
    ByteBit(a[i / 8], i % 8)
  }

  predicate ByteBit(b: Byte, k: nat)
    requires k < 8
  {
    b / (if k == 0 then 128 else if k == 1 then 64 else if k == 2 then 32 else if k == 3 then 16
         else if k == 4 then 8 else if k == 5 then 4 else if k == 6 then 2 else 1) % 2 == 1
  }

  lemma ByteIsZero(b: Byte)
    requires !ByteBit(b, 0) && !ByteBit(b, 1) && !ByteBit(b, 2) && !ByteBit(b, 3)
    requires !ByteBit(b, 4) && !ByteBit(b, 5) && !ByteBit(b, 6) && !ByteBit(b, 7)
    ensures b == 0
  {
    TopBitClear(b, 128);
    TopBitClear(b, 64);
    TopBitClear(b, 32);
    TopBitClear(b, 16);
    TopBitClear(b, 8);
    TopBitClear(b, 4);
    TopBitClear(b, 2);
  }

  lemma TopBitClear(b: nat, weight: nat)
    requires 0 < weight && b < 2 * weight && b / weight % 2 != 1
    ensures b < weight
  {
    if b >= weight {
      Bits.Quotient(b, weight, 1, b - weight);
      assert false;
    }
  }

  /** The address agrees with that of the prefix on the length of the prefix. */
  ghost predicate Covers(p: Prefix, a: Address) {
    forall i :: 0 <= i < 128 && i < p.length ==> AddressBit(a, i) == AddressBit(p.address, i)
  }

  /** No bit beyond the length of the prefix is set. */
  ghost predicate Normal(p: Prefix) {
    forall i :: 0 <= i < 128 && p.length <= i ==> !AddressBit(p.address, i)
  }

  /** The default prefix is the one that covers every address. */
  lemma DefaultIsEverything(p: Prefix)
    ensures p == DEFAULT_V6 <==> Normal(p) && forall a: Address :: Covers(p, a)
  {
    if p == DEFAULT_V6 {
      forall i | 0 <= i < 128 ensures !AddressBit(p.address, i) {
        assert p.address[i / 8] == 0;
      }
    } else if Normal(p) {
      if p.length == 0 {
        NoBitsIsZero(p.address);
        assert false;
      } else {
        var first := p.address[0];
        var other: Address := p.address[0 := if first < 128 then first + 128 else first - 128];
        assert AddressBit(other, 0) != AddressBit(p.address, 0);
        assert !Covers(p, other);
      }
    }
  }

  lemma NoBitsIsZero(a: Address)
    requires forall i :: 0 <= i < 128 ==> !AddressBit(a, i)
    ensures forall j :: 0 <= j < 16 ==> a[j] == 0
  {
    forall j | 0 <= j < 16 ensures a[j] == 0 {
      forall k | 0 <= k < 8 ensures !ByteBit(a[j], k) {
        assert !AddressBit(a, 8 * j + k);
      }
      ByteIsZero(a[j]);
    }
  }

  /** How a remote call ends.  Only the typed error is noticed: a transport error is logged and the
      call then counts as done, whether the request or only the reply was lost. */
  datatype Rpc = Delivered | Rejected | LostRequest | LostReply {
    predicate Applied() { Delivered? || LostReply? }
  }

  datatype Outcome = Done(result: bool) | Raised

  function PeersOf<T>(learnt: map<Prefix, set<T>>, p: Prefix): set<T> {
    if p in learnt then learnt[p] else {}
  }
}
