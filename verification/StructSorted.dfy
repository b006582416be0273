/** Sorted repairs of one list of members: when a second one changes what the first has left. */
module StructSorted {
  import opened Wrappers
  import opened StructAst
  import opened StructPadding
  import opened StructRepair

  lemma {:induction false} SortedUnchanged(ms: seq<Member>)
    requires Descending(ms)
    ensures Sorted(ms) == ms
  {
    if ms != [] {
      var earlier, m := ms[..|ms| - 1], ms[|ms| - 1];
      SortedUnchanged(earlier);
      assert earlier + [m] == ms;
    }
  }

  /** The offset behind the first `n` members, with the pads before them. */
  ghost function Offset(ms: seq<Member>, n: nat): int
    requires GoodMembers(ms) && n <= |ms|
  {
    if n == 0 then 0
    else
      var before := Offset(ms, n - 1);
      before + Gap(before, ms[n - 1].align) + ms[n - 1].size
  }

  lemma {:induction false} OffsetIs(ms: seq<Member>, n: nat)
    requires GoodMembers(ms) && n <= |ms|
    ensures Offset(ms, n) == TotalSize(Body(ms[..n]).0)
  {
    if n > 0 {
      OffsetIs(ms, n - 1);
      BodySize(ms, n - 1);
    }
  }

  lemma BodySize(ms: seq<Member>, i: nat)
    requires GoodMembers(ms) && i < |ms|
    ensures
      var before := TotalSize(Body(ms[..i]).0);
      TotalSize(Body(ms[..i + 1]).0) == before + Gap(before, ms[i].align) + ms[i].size
  {
    assert ms[..i + 1][..i] == ms[..i];
    PlacedSize(Body(ms[..i]).0, Body(ms[..i]).1, ms[i]);
  }

  lemma PlacedSize(placed: seq<Member>, pads: nat, m: Member)
    requires IsAlign(m.align)
    ensures TotalSize(Place(placed, pads, m).0) == TotalSize(placed) + Gap(TotalSize(placed), m.align) + m.size
  {
    var gap := Gap(TotalSize(placed), m.align);
    TotalAppend(placed, m);
    TotalAppend(placed, PadMember(gap, pads));
    TotalAppend(placed + [PadMember(gap, pads)], m);
  }

  /** The alignment asked for behind the `i`-th member: of the next one, or of the struct. */
  ghost function NextAlign(ms: seq<Member>, i: nat): (a: int)
    requires GoodMembers(ms) && i < |ms|
    ensures IsAlign(a)
  {
    if i + 1 < |ms| then ms[i + 1].align else MaxAlign(ms)
  }

  /** The pad that follows the `i`-th member. */
  ghost function GapAfter(ms: seq<Member>, i: nat): nat
    requires GoodMembers(ms) && i < |ms|
  {
    Gap(Offset(ms, i + 1), NextAlign(ms, i))
  }

  /** The members that sorting puts last: unions and empty ones. */
  ghost predicate PutLast(m: Member) {
    SortKey(m) <= 0
  }

  ghost predicate NoPadAfter(ms: seq<Member>, i: nat)
    requires GoodMembers(ms) && i < |ms|
  {
    PutLast(ms[i]) ==> GapAfter(ms, i) == 0
  }

  ghost predicate TailUnpadded(ms: seq<Member>, n: nat)
    requires GoodMembers(ms) && n <= |ms|
  {
    n <= 1 || (TailUnpadded(ms, n - 1) && NoGapBefore(ms, n - 1))
  }

  ghost predicate NoGapBefore(ms: seq<Member>, i: nat)
    requires GoodMembers(ms) && 0 < i < |ms|
  {
    PutLast(ms[i - 1]) ==> GapAfter(ms, i - 1) == 0
  }

  lemma DescendingSnoc(ms: seq<Member>, m: Member)
    ensures Descending(ms + [m]) <==> Descending(ms) && forall i :: 0 <= i < |ms| ==> SortKey(ms[i]) >= SortKey(m)
  {
    if Descending(ms + [m]) {
      forall i, j | 0 <= i < j < |ms| ensures SortKey(ms[i]) >= SortKey(ms[j]) {
        assert (ms + [m])[i] == ms[i] && (ms + [m])[j] == ms[j];
      }
      forall i | 0 <= i < |ms| ensures SortKey(ms[i]) >= SortKey(m) {
        assert (ms + [m])[i] == ms[i] && (ms + [m])[|ms|] == m;
      }
    }
  }

  /** A pad keeps sorted members in order exactly when it does not follow one that is put last. */
  lemma PadInOrder(ms: seq<Member>, n: nat, size: nat, idx: nat)
    requires GoodMembers(ms) && Descending(ms) && 0 < n <= |ms| && size > 0
    ensures
      Descending(Body(ms[..n]).0 + [PadMember(size, idx)]) <==> Descending(Body(ms[..n]).0) && !PutLast(ms[n - 1])
  {
    var placed, pad := Body(ms[..n]).0, PadMember(size, idx);
    assert SortKey(pad) == 1;
    DescendingSnoc(placed, pad);
    assert ms[..n][..n - 1] == ms[..n - 1];
    assert placed[|placed| - 1] == ms[n - 1];
    if !PutLast(ms[n - 1]) {
      SortedNeedsNoPads(ms, n - 1);
      assert placed == ms[..n];
    }
  }

  /** Placing one more of the sorted members keeps the order exactly when no pad comes behind one
      that is put last. */
  lemma PlaceInOrder(ms: seq<Member>, n: nat)
    requires GoodMembers(ms) && Descending(ms) && n < |ms|
    ensures
      InOrder(ms, n + 1) <==>
      && InOrder(ms, n)
      && (n > 0 ==> NoGapBefore(ms, n))
  {
    if n > 0 {
      GapBeforeIs(ms, n);
    }
    if PutLast(ms[n]) {
      PlaceLast(ms, n);
    } else {
      PlaceKeyed(ms, n);
    }
  }

  lemma GapBeforeIs(ms: seq<Member>, n: nat)
    requires GoodMembers(ms) && 0 < n < |ms|
    ensures NoGapBefore(ms, n) <==> (PutLast(ms[n - 1]) ==> Gap(TotalSize(Body(ms[..n]).0), ms[n].align) == 0)
  {
    OffsetIs(ms, n);
  }

  lemma PlaceKeyed(ms: seq<Member>, n: nat)
    requires GoodMembers(ms) && Descending(ms) && n < |ms| && !PutLast(ms[n])
    ensures InOrder(ms, n + 1) && InOrder(ms, n) && (n > 0 ==> !PutLast(ms[n - 1]))
  {
    SortedNeedsNoPads(ms, n);
    if n > 0 {
      assert SortKey(ms[n - 1]) >= SortKey(ms[n]);
      SortedNeedsNoPads(ms, n - 1);
    }
  }

  lemma PlaceLast(ms: seq<Member>, n: nat)
    requires GoodMembers(ms) && Descending(ms) && n < |ms| && PutLast(ms[n])
    ensures
      var gap := Gap(TotalSize(Body(ms[..n]).0), ms[n].align);
      InOrder(ms, n + 1) <==> InOrder(ms, n) && (n > 0 && PutLast(ms[n - 1]) ==> gap == 0)
  {
    NextBody(ms, n);
    if Gap(TotalSize(Body(ms[..n]).0), ms[n].align) == 0 {
      PlaceLastPlain(ms, n);
    } else {
      PlaceLastPadded(ms, n);
    }
  }

  lemma NextBody(ms: seq<Member>, n: nat)
    requires GoodMembers(ms) && n < |ms|
    ensures Body(ms[..n + 1]) == Place(Body(ms[..n]).0, Body(ms[..n]).1, ms[n])
  {
    assert ms[..n + 1][..n] == ms[..n];
  }

  /** A member that is put last comes after anything. */
  lemma LastAppends(placed: seq<Member>, m: Member)
    requires PutLast(m) && SortKey(m) >= 0 && forall i :: 0 <= i < |placed| ==> SortKey(placed[i]) >= 0
    ensures Descending(placed + [m]) <==> Descending(placed)
  {
    DescendingSnoc(placed, m);
  }

  lemma PlaceLastPlain(ms: seq<Member>, n: nat)
    requires GoodMembers(ms) && n < |ms| && PutLast(ms[n]) && Gap(TotalSize(Body(ms[..n]).0), ms[n].align) == 0
    requires Body(ms[..n + 1]) == Place(Body(ms[..n]).0, Body(ms[..n]).1, ms[n])
    ensures InOrder(ms, n + 1) <==> InOrder(ms, n)
  {
    var placed := Body(ms[..n]).0;
    KeysAreNatural(placed, ms, n);
    LastAppends(placed, ms[n]);
  }

  lemma PlaceLastPadded(ms: seq<Member>, n: nat)
    requires GoodMembers(ms) && Descending(ms) && n < |ms| && PutLast(ms[n])
    requires Gap(TotalSize(Body(ms[..n]).0), ms[n].align) != 0
    requires Body(ms[..n + 1]) == Place(Body(ms[..n]).0, Body(ms[..n]).1, ms[n])
    ensures n > 0 && (InOrder(ms, n + 1) <==> InOrder(ms, n) && !PutLast(ms[n - 1]))
  {
    var (placed, pads) := Body(ms[..n]);
    var gap := Gap(TotalSize(placed), ms[n].align);
    assert ms[..0] == [];
    KeysAreNatural(placed, ms, n);
    var padded := placed + [PadMember(gap, pads)];
    assert forall i :: 0 <= i < |padded| ==> SortKey(padded[i]) >= 0;
    LastAppends(padded, ms[n]);
    PadInOrder(ms, n, gap, pads);
  }

  /** No sort key is below that of a member that is put last. */
  lemma KeysAreNatural(placed: seq<Member>, ms: seq<Member>, n: nat)
    requires GoodMembers(ms) && n <= |ms| && placed == Body(ms[..n]).0
    ensures forall i :: 0 <= i < |placed| ==> SortKey(placed[i]) >= 0
    ensures forall i :: 0 <= i < |ms| ==> SortKey(ms[i]) >= 0
  {
    BodyIsPlaced(ms[..n]);
    assert forall i :: 0 <= i < |placed| ==> Good(placed[i].size, placed[i].align);
    assert forall i :: 0 <= i < |ms| ==> Good(ms[i].size, ms[i].align);
  }

  ghost predicate InOrder(ms: seq<Member>, n: nat)
    requires GoodMembers(ms) && n <= |ms|
    ensures n == 0 ==> InOrder(ms, n)
  {
    Descending(Body(ms[..n]).0)
  }

  lemma {:induction false} BodyInOrder(ms: seq<Member>, n: nat)
    requires GoodMembers(ms) && Descending(ms) && n <= |ms|
    ensures InOrder(ms, n) <==> TailUnpadded(ms, n)
  {
    if n > 0 {
      BodyInOrder(ms, n - 1);
      PlaceInOrder(ms, n - 1);
    }
  }

  lemma {:induction false} TailUnpaddedIs(ms: seq<Member>, n: nat)
    requires GoodMembers(ms) && n <= |ms|
    ensures TailUnpadded(ms, n) <==> forall i :: 0 <= i < n - 1 ==> NoPadAfter(ms, i)
  {
    if n > 1 {
      TailUnpaddedIs(ms, n - 1);
      assert NoPadAfter(ms, n - 2) <==> NoGapBefore(ms, n - 1);
    }
  }

  lemma PaddedInOrder(ms: seq<Member>)
    requires GoodMembers(ms) && Descending(ms)
    ensures Descending(Padded(ms)) <==> forall i :: 0 <= i < |ms| ==> NoPadAfter(ms, i)
  {
    var n := |ms|;
    assert ms[..n] == ms;
    BodyInOrder(ms, n);
    TailUnpaddedIs(ms, n);
    if n > 0 {
      EndInOrder(ms);
      assert (forall i :: 0 <= i < n ==> NoPadAfter(ms, i)) <==>
        (forall i :: 0 <= i < n - 1 ==> NoPadAfter(ms, i)) && NoPadAfter(ms, n - 1);
    }
  }

  lemma EndInOrder(ms: seq<Member>)
    requires GoodMembers(ms) && Descending(ms) && ms != []
    ensures Descending(Padded(ms)) <==> InOrder(ms, |ms|) && NoPadAfter(ms, |ms| - 1)
  {
    var placed, pads := Body(ms).0, Body(ms).1;
    assert ms[..|ms|] == ms;
    OffsetIs(ms, |ms|);
    var gap := GapAfter(ms, |ms| - 1);
    if gap == 0 {
      assert Padded(ms) == placed;
    } else {
      assert Padded(ms) == placed + [PadMember(gap, pads)];
      PadInOrder(ms, |ms|, gap, pads);
    }
  }

  // ----- the condition, on sizes and alignments -----

  /** The first member that sorting puts last. */
  ghost predicate FirstPutLast(ms: seq<Member>, z: nat) {
    z < |ms| && PutLast(ms[z]) && forall i :: 0 <= i < z ==> !PutLast(ms[i])
  }

  /** The offset behind the `i`-th member, when those from the `z`-th on follow each other without
      pads, and those before it too. */
  ghost function TailOffset(ms: seq<Member>, z: nat, i: nat): int
    requires GoodMembers(ms) && z <= i < |ms|
  {
    if i > z then TailOffset(ms, z, i - 1) + ms[i].size
    else TotalSize(ms[..z]) + Gap(TotalSize(ms[..z]), ms[z].align) + ms[z].size
  }

  ghost predicate TightAt(ms: seq<Member>, z: nat, i: nat)
    requires GoodMembers(ms) && z <= i < |ms|
  {
    Mod(TailOffset(ms, z, i), NextAlign(ms, i)) == 0
  }

  /** The unions and empty members at the end of the sorted list fit together, and to the end of the
      struct, without pads. */
  ghost predicate TailTight(ms: seq<Member>)
    requires GoodMembers(ms)
  {
    forall z, i :: 0 <= z <= i < |ms| && FirstPutLast(ms, z) ==> TightAt(ms, z, i)
  }

  ghost predicate UnpaddedTo(ms: seq<Member>, z: nat, n: nat)
    requires GoodMembers(ms) && z <= n <= |ms|
  {
    n == z || (UnpaddedTo(ms, z, n - 1) && GapAfter(ms, n - 1) == 0)
  }

  ghost predicate TightTo(ms: seq<Member>, z: nat, n: nat)
    requires GoodMembers(ms) && z <= n <= |ms|
  {
    n == z || (TightTo(ms, z, n - 1) && TightAt(ms, z, n - 1))
  }

  lemma {:induction false} TailOffsetIs(ms: seq<Member>, z: nat, i: nat)
    requires GoodMembers(ms) && z <= i < |ms| && Offset(ms, z) == TotalSize(ms[..z]) && UnpaddedTo(ms, z, i)
    ensures Offset(ms, i + 1) == TailOffset(ms, z, i)
    decreases i
  {
    if i > z {
      TailOffsetIs(ms, z, i - 1);
      assert Gap(Offset(ms, i), ms[i].align) == 0;
    }
  }

  lemma TailBase(ms: seq<Member>, z: nat)
    requires GoodMembers(ms) && Descending(ms) && FirstPutLast(ms, z)
    ensures Offset(ms, z) == TotalSize(ms[..z])
  {
    OffsetIs(ms, z);
    if z > 0 {
      SortedNeedsNoPads(ms, z - 1);
    } else {
      assert ms[..0] == [];
    }
  }

  lemma {:induction false} TightUpTo(ms: seq<Member>, z: nat, n: nat)
    requires GoodMembers(ms) && z <= n <= |ms| && (z < n ==> Offset(ms, z) == TotalSize(ms[..z]))
    ensures UnpaddedTo(ms, z, n) <==> TightTo(ms, z, n)
  {
    if n > z {
      TightUpTo(ms, z, n - 1);
      if UnpaddedTo(ms, z, n - 1) {
        TailOffsetIs(ms, z, n - 1);
        GapIsTight(ms, z, n - 1);
      }
    }
  }

  lemma GapIsTight(ms: seq<Member>, z: nat, i: nat)
    requires GoodMembers(ms) && z <= i < |ms| && Offset(ms, i + 1) == TailOffset(ms, z, i)
    ensures GapAfter(ms, i) == 0 <==> TightAt(ms, z, i)
  {
  }

  lemma {:induction false} UnpaddedToIs(ms: seq<Member>, z: nat, n: nat)
    requires GoodMembers(ms) && z <= n <= |ms| && forall i :: z <= i < n ==> PutLast(ms[i])
    ensures UnpaddedTo(ms, z, n) <==> forall i :: z <= i < n ==> NoPadAfter(ms, i)
  {
    if n > z {
      UnpaddedToIs(ms, z, n - 1);
      LastNoPad(ms, n - 1);
    }
  }

  lemma LastNoPad(ms: seq<Member>, i: nat)
    requires GoodMembers(ms) && i < |ms| && PutLast(ms[i])
    ensures NoPadAfter(ms, i) <==> GapAfter(ms, i) == 0
  {
  }

  lemma {:induction false} TightToIs(ms: seq<Member>, z: nat, n: nat)
    requires GoodMembers(ms) && z <= n <= |ms|
    ensures TightTo(ms, z, n) <==> forall i :: z <= i < n ==> TightAt(ms, z, i)
  {
    if n > z {
      TightToIs(ms, z, n - 1);
    }
  }

  lemma {:induction false} FindFirst(ms: seq<Member>, i: nat) returns (z: nat)
    requires i < |ms| && PutLast(ms[i])
    ensures FirstPutLast(ms, z) && z <= i
  {
    if j :| 0 <= j < i && PutLast(ms[j]) {
      z := FindFirst(ms, j);
    } else {
      z := i;
    }
  }

  lemma TightExactly(ms: seq<Member>)
    requires GoodMembers(ms) && Descending(ms)
    ensures TailTight(ms) <==> forall i :: 0 <= i < |ms| ==> NoPadAfter(ms, i)
  {
    if i :| 0 <= i < |ms| && PutLast(ms[i]) {
      var z := FindFirst(ms, i);
      TailIsPutLast(ms, z);
      TailBase(ms, z);
      TightUpTo(ms, z, |ms|);
      UnpaddedToIs(ms, z, |ms|);
      TightToIs(ms, z, |ms|);
      TailTightIs(ms, z);
      NoPadBefore(ms, z);
    }
  }

  lemma TailTightIs(ms: seq<Member>, z: nat)
    requires GoodMembers(ms) && FirstPutLast(ms, z) && forall z' :: FirstPutLast(ms, z') ==> z' == z
    ensures TailTight(ms) <==> forall i :: z <= i < |ms| ==> TightAt(ms, z, i)
  {
  }

  lemma NoPadBefore(ms: seq<Member>, z: nat)
    requires GoodMembers(ms) && FirstPutLast(ms, z)
    ensures (forall i :: 0 <= i < |ms| ==> NoPadAfter(ms, i)) <==> forall i :: z <= i < |ms| ==> NoPadAfter(ms, i)
  {
    forall i | 0 <= i < z ensures NoPadAfter(ms, i) {
      assert !PutLast(ms[i]);
    }
  }

  lemma TailIsPutLast(ms: seq<Member>, z: nat)
    requires GoodMembers(ms) && Descending(ms) && FirstPutLast(ms, z)
    ensures forall i :: 0 <= i < |ms| ==> (PutLast(ms[i]) <==> z <= i)
    ensures forall z' :: FirstPutLast(ms, z') ==> z' == z
  {
  }

  /** A second sorted repair leaves a list of members as it is exactly when the unions and empty members
      need no pads behind the first of them. */
  lemma SortedListExactly(ms: seq<Member>)
    requires GoodMembers(ms)
    ensures GoodMembers(Sorted(ms)) && GoodMembers(Padded(Sorted(ms)))
    ensures PadResult(FixSorted, Padded(Sorted(ms))) == Some(Padded(Sorted(ms))) <==> TailTight(Sorted(ms))
  {
    SortedIsGood(ms);
    SortedIsStable(ms, 0);
    PaddedIdempotent(Sorted(ms));
    PaddedInOrder(Sorted(ms));
    TightExactly(Sorted(ms));
    SortedFixKeeps(Padded(Sorted(ms)));
  }

  lemma SortedFixKeeps(r: seq<Member>)
    requires GoodMembers(r) && Padded(r) == r
    ensures PadResult(FixSorted, r) == Some(r) <==> Descending(r)
  {
    SortedIsGood(r);
    if Padded(Sorted(r)) == r {
      assert |Sorted(r)| == |r| by {
        assert |multiset(Sorted(r))| == |multiset(r)|;
      }
      PaddedLength(Sorted(r));
      SortedIsStable(r, 0);
    }
    if Descending(r) {
      SortedUnchanged(r);
    }
  }
}
