/** Placing the members of one struct: sorting them, and padding each to its alignment. */
module StructPadding {
  import opened Wrappers
  import opened StructAst

  ghost predicate GoodMembers(ms: seq<Member>) {
    forall i :: 0 <= i < |ms| ==> Good(ms[i].size, ms[i].align)
  }

  /** The bytes missing at `offset` to the next multiple of `align`. */
  function Gap(offset: int, align: int): (g: nat)
    requires IsAlign(align)
    ensures g < align && Mod(offset + g, align) == 0
  {
    var pad := align - Mod(offset, align);
    if pad == align then 0 else pad
  }

  function MaxAlign(ms: seq<Member>): (a: int)
    ensures GoodMembers(ms) ==> IsAlign(a)
  {
    if ms == [] then 1 else Max(MaxAlign(ms[..|ms| - 1]), ms[|ms| - 1].align)
  }

  function TotalSize(ms: seq<Member>): int {
    if ms == [] then 0 else TotalSize(ms[..|ms| - 1]) + ms[|ms| - 1].size
  }

  /** The members with padding before each that needs some, and the number of pads. */
  function Body(ms: seq<Member>): (r: (seq<Member>, nat))
    requires GoodMembers(ms)
  {
    if ms == [] then ([], 0)
    else
      var (placed, pads) := Body(ms[..|ms| - 1]);
      Place(placed, pads, ms[|ms| - 1])
  }

  /** One more member, after a pad if it needs one. */
  function Place(placed: seq<Member>, pads: nat, m: Member): (r: (seq<Member>, nat))
    requires IsAlign(m.align)
  {
    var gap := Gap(TotalSize(placed), m.align);
    if gap == 0 then (placed + [m], pads) else (placed + [PadMember(gap, pads)] + [m], pads + 1)
  }

  /** The whole struct, padded at its end to a multiple of its alignment. */
  function Padded(ms: seq<Member>): (r: seq<Member>)
    requires GoodMembers(ms)
  {
    var (placed, pads) := Body(ms);
    var gap := Gap(TotalSize(placed), MaxAlign(ms));
    if gap == 0 then placed else placed + [PadMember(gap, pads)]
  }

  lemma BodySnoc(ms: seq<Member>, m: Member)
    requires GoodMembers(ms) && Good(m.size, m.align)
    ensures Body(ms + [m]) == Place(Body(ms).0, Body(ms).1, m)
    ensures TotalSize(ms + [m]) == TotalSize(ms) + m.size && MaxAlign(ms + [m]) == Max(MaxAlign(ms), m.align)
  {
    assert (ms + [m])[..|ms|] == ms;
  }

  // ----- placement -----

  /** Each member starts at a multiple of its alignment. */
  ghost predicate WellPlaced(ms: seq<Member>) {
    forall i :: 0 <= i < |ms| ==> PlacedAt(ms, i)
  }

  ghost predicate PlacedAt(ms: seq<Member>, i: nat)
    requires i < |ms|
  {
    IsAlign(ms[i].align) && Mod(TotalSize(ms[..i]), ms[i].align) == 0
  }

  lemma WellPlacedSnoc(ms: seq<Member>, m: Member)
    requires WellPlaced(ms) && IsAlign(m.align) && Mod(TotalSize(ms), m.align) == 0
    ensures WellPlaced(ms + [m])
    ensures TotalSize(ms + [m]) == TotalSize(ms) + m.size
    ensures MaxAlign(ms + [m]) == Max(MaxAlign(ms), m.align)
  {
    var more := ms + [m];
    assert more[..|ms|] == ms;
    forall i | 0 <= i < |more| ensures PlacedAt(more, i) {
      if i < |ms| {
        assert PlacedAt(ms, i) && more[..i] == ms[..i];
      }
    }
  }

  lemma PlaceIsPlaced(placed: seq<Member>, pads: nat, m: Member)
    requires GoodMembers(placed) && WellPlaced(placed) && Good(m.size, m.align)
    ensures
      var r := Place(placed, pads, m).0;
      GoodMembers(r) && WellPlaced(r) && MaxAlign(r) == Max(MaxAlign(placed), m.align)
  {
    var gap := Gap(TotalSize(placed), m.align);
    if gap == 0 {
      WellPlacedSnoc(placed, m);
    } else {
      PadThenMember(placed, PadMember(gap, pads), m);
    }
  }

  lemma PadThenMember(placed: seq<Member>, pad: Member, m: Member)
    requires GoodMembers(placed) && WellPlaced(placed) && Good(m.size, m.align) && pad.align == 1
    requires Mod(TotalSize(placed) + pad.size, m.align) == 0
    ensures
      var r := placed + [pad] + [m];
      GoodMembers(r) && WellPlaced(r) && MaxAlign(r) == Max(MaxAlign(placed), m.align)
  {
    WellPlacedSnoc(placed, pad);
    WellPlacedSnoc(placed + [pad], m);
  }

  /** The placed members are good, each starts at its alignment, and only pads were added, so that
      the alignment of the struct is unchanged. */
  lemma {:induction false} BodyIsPlaced(ms: seq<Member>)
    requires GoodMembers(ms)
    ensures GoodMembers(Body(ms).0) && WellPlaced(Body(ms).0)
    ensures MaxAlign(Body(ms).0) == MaxAlign(ms)
  {
    if ms != [] {
      var earlier := ms[..|ms| - 1];
      BodyIsPlaced(earlier);
      PlaceIsPlaced(Body(earlier).0, Body(earlier).1, ms[|ms| - 1]);
    }
  }

  lemma PaddedIsPlaced(ms: seq<Member>)
    requires GoodMembers(ms)
    ensures GoodMembers(Padded(ms)) && WellPlaced(Padded(ms))
    ensures MaxAlign(Padded(ms)) == MaxAlign(ms) && Good(TotalSize(Padded(ms)), MaxAlign(ms))
  {
    BodyIsPlaced(ms);
    EndIsPlaced(Body(ms).0, Body(ms).1);
  }

  /** Up to the alignment of the struct, at its end. */
  lemma EndIsPlaced(placed: seq<Member>, pads: nat)
    requires GoodMembers(placed) && WellPlaced(placed)
    ensures
      var align := MaxAlign(placed);
      var gap := Gap(TotalSize(placed), align);
      var r := if gap == 0 then placed else placed + [PadMember(gap, pads)];
      GoodMembers(r) && WellPlaced(r) && MaxAlign(r) == align && Good(TotalSize(r), align)
  {
    var gap := Gap(TotalSize(placed), MaxAlign(placed));
    if gap != 0 {
      WellPlacedSnoc(placed, PadMember(gap, pads));
    }
  }

  lemma WellPlacedExtends(ms: seq<Member>, m: Member)
    ensures WellPlaced(ms + [m]) <==> WellPlaced(ms) && IsAlign(m.align) && Mod(TotalSize(ms), m.align) == 0
  {
    var all := ms + [m];
    assert all[..|ms|] == ms;
    forall i | 0 <= i < |ms| ensures PlacedAt(all, i) <==> PlacedAt(ms, i) {
      assert all[..i] == ms[..i];
    }
    assert WellPlaced(all) ==> PlacedAt(all, |ms|);
  }

  lemma PlaceLength(placed: seq<Member>, pads: nat, m: Member)
    requires IsAlign(m.align)
    ensures
      var r := Place(placed, pads, m);
      && r.1 >= pads
      && |r.0| - r.1 == |placed| + 1 - pads
      && (r.1 == pads <==> Mod(TotalSize(placed), m.align) == 0)
      && (r.1 == pads ==> r.0 == placed + [m])
  {
  }

  /** What was said of a list of members: as many pads as it grew by, and none if all is in place. */
  ghost predicate PadsIfNeeded(ms: seq<Member>)
    requires GoodMembers(ms)
  {
    && |Body(ms).0| == |ms| + Body(ms).1
    && (Body(ms).1 == 0 ==> Body(ms).0 == ms)
    && (Body(ms).1 == 0 <==> WellPlaced(ms))
  }

  lemma PadsIfNeededSnoc(ms: seq<Member>, m: Member)
    requires GoodMembers(ms) && Good(m.size, m.align) && PadsIfNeeded(ms)
    ensures GoodMembers(ms + [m]) && PadsIfNeeded(ms + [m])
  {
    BodySnoc(ms, m);
    WellPlacedExtends(ms, m);
    PlaceLength(Body(ms).0, Body(ms).1, m);
  }

  /** No padding is inserted exactly when all is in place already. */
  lemma {:induction false} BodyUnchanged(ms: seq<Member>)
    requires GoodMembers(ms)
    ensures PadsIfNeeded(ms)
  {
    if ms != [] {
      BodyUnchanged(ms[..|ms| - 1]);
      PadsIfNeededSnoc(ms[..|ms| - 1], ms[|ms| - 1]);
      assert ms[..|ms| - 1] + [ms[|ms| - 1]] == ms;
    }
  }

  lemma PaddedUnchanged(ms: seq<Member>)
    requires GoodMembers(ms)
    ensures Padded(ms) == ms <==> WellPlaced(ms) && Good(TotalSize(ms), MaxAlign(ms))
  {
    BodyUnchanged(ms);
  }

  /** Padding twice is padding once. */
  lemma PaddedIdempotent(ms: seq<Member>)
    requires GoodMembers(ms)
    ensures GoodMembers(Padded(ms)) && Padded(Padded(ms)) == Padded(ms)
  {
    PaddedIsPlaced(ms);
    PaddedUnchanged(Padded(ms));
  }

  // ----- what padding adds -----

  /** The inserted pads, in order. */
  ghost function Inserted(ms: seq<Member>): (r: seq<Member>)
    requires GoodMembers(ms)
  {
    if ms == [] then []
    else
      var earlier := ms[..|ms| - 1];
      Inserted(earlier) + PadBefore(Body(earlier).0, Body(earlier).1, ms[|ms| - 1])
  }

  ghost function PadBefore(placed: seq<Member>, pads: nat, m: Member): (r: seq<Member>)
    requires IsAlign(m.align)
    ensures |r| <= 1 && (r == [] <==> Gap(TotalSize(placed), m.align) == 0)
    ensures r != [] ==> IsPad(r[0], pads)
  {
    var gap := Gap(TotalSize(placed), m.align);
    if gap == 0 then [] else [PadMember(gap, pads)]
  }

  /** The struct holds its members and these pads, and nothing else. */
  lemma {:induction false} BodyContents(ms: seq<Member>)
    requires GoodMembers(ms)
    ensures multiset(Body(ms).0) == multiset(ms) + multiset(Inserted(ms))
  {
    if ms != [] {
      var earlier, m := ms[..|ms| - 1], ms[|ms| - 1];
      var placed, pads := Body(earlier).0, Body(earlier).1;
      BodyContents(earlier);
      PlaceContents(placed, pads, m);
      SumContents(ms, earlier, m, Body(ms).0, placed, Inserted(ms), Inserted(earlier), PadBefore(placed, pads, m));
    }
  }

  lemma SumContents(ms: seq<Member>, earlier: seq<Member>, m: Member, all: seq<Member>, placed: seq<Member>,
                    inserted: seq<Member>, before: seq<Member>, extra: seq<Member>)
    requires ms == earlier + [m] && inserted == before + extra
    requires multiset(placed) == multiset(earlier) + multiset(before)
    requires multiset(all) == multiset(placed) + multiset{m} + multiset(extra)
    ensures multiset(all) == multiset(ms) + multiset(inserted)
  {
  }

  /** The pads are byte arrays of at most three bytes, numbered from zero. */
  lemma {:induction false} InsertedArePads(ms: seq<Member>)
    requires GoodMembers(ms)
    ensures |Inserted(ms)| == Body(ms).1
    ensures forall i :: 0 <= i < |Inserted(ms)| ==> IsPad(Inserted(ms)[i], i)
  {
    if ms != [] {
      var earlier := ms[..|ms| - 1];
      InsertedArePads(earlier);
      PadsAppend(Inserted(earlier), Body(earlier).0, Body(earlier).1, ms[|ms| - 1]);
    }
  }

  lemma PadsAppend(inserted: seq<Member>, placed: seq<Member>, pads: nat, m: Member)
    requires IsAlign(m.align) && |inserted| == pads
    requires forall i :: 0 <= i < |inserted| ==> IsPad(inserted[i], i)
    ensures
      var more := inserted + PadBefore(placed, pads, m);
      |more| == Place(placed, pads, m).1 && forall i :: 0 <= i < |more| ==> IsPad(more[i], i)
  {
  }

  ghost predicate IsPad(m: Member, idx: nat) {
    0 < m.size < 4 && m == PadMember(m.size, idx)
  }

  lemma PlaceContents(placed: seq<Member>, pads: nat, m: Member)
    requires IsAlign(m.align)
    ensures multiset(Place(placed, pads, m).0) == multiset(placed) + multiset{m} + multiset(PadBefore(placed, pads, m))
  {
  }

  /** Any other placement: start offsets of the members, in the same order, without overlap. */
  ghost predicate IsPlacement(ms: seq<Member>, starts: seq<int>) {
    && |starts| == |ms|
    && forall i :: 0 <= i < |ms| ==> StartsRight(ms, starts, i)
  }

  ghost predicate StartsRight(ms: seq<Member>, starts: seq<int>, i: nat)
    requires i < |ms| == |starts|
  {
    && IsAlign(ms[i].align)
    && Mod(starts[i], ms[i].align) == 0
    && starts[i] >= if i == 0 then 0 else starts[i - 1] + ms[i - 1].size
  }

  lemma LeastMultiple(offset: int, x: int, align: int)
    requires IsAlign(align) && offset <= x && Mod(x, align) == 0
    ensures offset + Gap(offset, align) <= x
  {
  }

  /** No placement of the members in this order ends earlier. */
  lemma {:induction false} BodyIsMinimal(ms: seq<Member>, starts: seq<int>)
    requires GoodMembers(ms) && IsPlacement(ms, starts) && ms != []
    ensures TotalSize(Body(ms).0) <= starts[|ms| - 1] + ms[|ms| - 1].size
  {
    var n := |ms| - 1;
    var earlier, m, placed := ms[..n], ms[n], Body(ms[..n]).0;
    assert StartsRight(ms, starts, n);
    if n > 0 {
      forall i | 0 <= i < n ensures StartsRight(earlier, starts[..n], i) {
        assert StartsRight(ms, starts, i);
      }
      BodyIsMinimal(earlier, starts[..n]);
    }
    LeastMultiple(TotalSize(placed), starts[n], m.align);
    TotalAppend(placed, PadMember(Gap(TotalSize(placed), m.align), Body(earlier).1));
    TotalAppend(placed, m);
    TotalAppend(placed + [PadMember(Gap(TotalSize(placed), m.align), Body(earlier).1)], m);
  }

  lemma TotalAppend(ms: seq<Member>, m: Member)
    ensures TotalSize(ms + [m]) == TotalSize(ms) + m.size
  {
    assert (ms + [m])[..|ms|] == ms;
  }

  /** Nor is there one that ends earlier at a multiple of the struct's alignment. */
  lemma PaddedIsMinimal(ms: seq<Member>, starts: seq<int>, end: int)
    requires GoodMembers(ms) && IsPlacement(ms, starts)
    requires Mod(end, MaxAlign(ms)) == 0 && end >= if ms == [] then 0 else starts[|ms| - 1] + ms[|ms| - 1].size
    ensures TotalSize(Padded(ms)) <= end
  {
    var (placed, pads) := Body(ms);
    if ms != [] {
      BodyIsMinimal(ms, starts);
    }
    LeastMultiple(TotalSize(placed), end, MaxAlign(ms));
    TotalAppend(placed, PadMember(Gap(TotalSize(placed), MaxAlign(ms)), pads));
  }

  // ----- sorting -----

  /** Unions and empty members go to the end; the others by descending alignment. */
  function SortKey(m: Member): int {
    if m.decl.ty.TypeDecl? && m.decl.ty.inner.Union? then 0
    else if m.size == 0 then 0
    else m.align
  }

  function Insert(s: seq<Member>, m: Member): (r: seq<Member>)
    ensures multiset(r) == multiset(s) + multiset{m}
  {
    if s == [] then [m]
    else
      var front, last := s[..|s| - 1], s[|s| - 1];
      assert s == front + [last];
      if SortKey(last) >= SortKey(m) then s + [m] else Insert(front, m) + [last]
  }

  function Sorted(ms: seq<Member>): (r: seq<Member>)
    ensures multiset(r) == multiset(ms)
  {
    if ms == [] then []
    else
      assert ms == ms[..|ms| - 1] + [ms[|ms| - 1]];
      Insert(Sorted(ms[..|ms| - 1]), ms[|ms| - 1])
  }

  ghost predicate Descending(ms: seq<Member>) {
    forall i, j :: 0 <= i < j < |ms| ==> SortKey(ms[i]) >= SortKey(ms[j])
  }

  ghost function WithKey(ms: seq<Member>, k: int): seq<Member> {
    if ms == [] then []
    else WithKey(ms[..|ms| - 1], k) + if SortKey(ms[|ms| - 1]) == k then [ms[|ms| - 1]] else []
  }

  lemma WithKeyAppend(ms: seq<Member>, m: Member, k: int)
    ensures WithKey(ms + [m], k) == WithKey(ms, k) + if SortKey(m) == k then [m] else []
  {
    assert (ms + [m])[..|ms|] == ms;
  }

  lemma {:induction false} InsertDescending(s: seq<Member>, m: Member)
    requires Descending(s)
    ensures Descending(Insert(s, m))
  {
    if s != [] && SortKey(s[|s| - 1]) < SortKey(m) {
      var front, last := s[..|s| - 1], s[|s| - 1];
      InsertDescending(front, m);
      InsertBounded(front, m, last);
    }
  }

  lemma {:induction false} InsertIsStable(s: seq<Member>, m: Member, k: int)
    requires Descending(s)
    ensures WithKey(Insert(s, m), k) == WithKey(s, k) + if SortKey(m) == k then [m] else []
  {
    if s == [] || SortKey(s[|s| - 1]) >= SortKey(m) {
      WithKeyAppend(s, m, k);
      assert s == [] ==> s + [m] == [m];
    } else {
      var front, last := s[..|s| - 1], s[|s| - 1];
      assert s == front + [last];
      InsertIsStable(front, m, k);
      WithKeyAppend(Insert(front, m), last, k);
      WithKeyAppend(front, last, k);
    }
  }

  /** All of the result is at or above what bounds the parts. */
  lemma InsertBounded(front: seq<Member>, m: Member, last: Member)
    requires SortKey(m) >= SortKey(last)
    requires forall i :: 0 <= i < |front| ==> SortKey(front[i]) >= SortKey(last)
    ensures forall i :: 0 <= i < |Insert(front, m)| ==> SortKey(Insert(front, m)[i]) >= SortKey(last)
  {
    forall i | 0 <= i < |Insert(front, m)| ensures SortKey(Insert(front, m)[i]) >= SortKey(last) {
      assert Insert(front, m)[i] in multiset(Insert(front, m));
    }
  }

  /** Sorting gives descending keys, and keeps the order of members with equal keys. */
  lemma {:induction false} SortedIsStable(ms: seq<Member>, k: int)
    ensures Descending(Sorted(ms))
    ensures WithKey(Sorted(ms), k) == WithKey(ms, k)
  {
    if ms != [] {
      SortedIsStable(ms[..|ms| - 1], k);
      InsertDescending(Sorted(ms[..|ms| - 1]), ms[|ms| - 1]);
      InsertIsStable(Sorted(ms[..|ms| - 1]), ms[|ms| - 1], k);
    }
  }

  /** Unions, and members without a size, are put behind all others. */
  ghost predicate GoesLast(m: Member) {
    m.size == 0 || match m.decl.ty case TypeDecl(Union(_)) => true case _ => false
  }

  /** The members with this alignment that do not go last, in order. */
  ghost function Ordinary(ms: seq<Member>, align: int): seq<Member> {
    if ms == [] then []
    else
      var m := ms[|ms| - 1];
      Ordinary(ms[..|ms| - 1], align) + if !GoesLast(m) && m.align == align then [m] else []
  }

  ghost function GoingLast(ms: seq<Member>): seq<Member> {
    if ms == [] then [] else GoingLast(ms[..|ms| - 1]) + if GoesLast(ms[|ms| - 1]) then [ms[|ms| - 1]] else []
  }

  lemma {:induction false} KeysAreBuckets(ms: seq<Member>, align: int)
    requires GoodMembers(ms) && IsAlign(align)
    ensures WithKey(ms, align) == Ordinary(ms, align) && WithKey(ms, 0) == GoingLast(ms)
  {
    if ms != [] {
      KeysAreBuckets(ms[..|ms| - 1], align);
    }
  }

  lemma {:induction false} DescendingIsBuckets(ms: seq<Member>)
    requires GoodMembers(ms) && Descending(ms)
    ensures ms == WithKey(ms, 4) + WithKey(ms, 2) + WithKey(ms, 1) + WithKey(ms, 0)
  {
    if ms != [] {
      var front, last := ms[..|ms| - 1], ms[|ms| - 1];
      DescendingIsBuckets(front);
      forall k | k < SortKey(last) ensures WithKey(front, k) == [] {
        assert forall i :: 0 <= i < |front| ==> SortKey(front[i]) >= SortKey(last);
        NoneWithKey(front, k);
      }
      BucketsSnoc(WithKey(front, 4), WithKey(front, 2), WithKey(front, 1), WithKey(front, 0), last);
    }
  }

  ghost function IfKey(m: Member, k: int): seq<Member> {
    if SortKey(m) == k then [m] else []
  }

  lemma BucketsSnoc(a: seq<Member>, b: seq<Member>, c: seq<Member>, d: seq<Member>, m: Member)
    requires Good(m.size, m.align)
    requires SortKey(m) > 0 ==> d == []
    requires SortKey(m) > 1 ==> c == []
    requires SortKey(m) > 2 ==> b == []
    ensures a + b + c + d + [m] == (a + IfKey(m, 4)) + (b + IfKey(m, 2)) + (c + IfKey(m, 1)) + (d + IfKey(m, 0))
  {
  }

  lemma {:induction false} NoneWithKey(ms: seq<Member>, k: int)
    requires forall i :: 0 <= i < |ms| ==> SortKey(ms[i]) > k
    ensures WithKey(ms, k) == []
  {
    if ms != [] {
      NoneWithKey(ms[..|ms| - 1], k);
    }
  }

  /** Sorting is this: the members by descending alignment, each group in its own order, and behind them
      the unions and those without a size, in theirs. */
  lemma SortedIsBuckets(ms: seq<Member>)
    requires GoodMembers(ms)
    ensures Sorted(ms) == Ordinary(ms, 4) + Ordinary(ms, 2) + Ordinary(ms, 1) + GoingLast(ms)
  {
    SortedIsGood(ms);
    SortedIsStable(ms, 4);
    SortedIsStable(ms, 2);
    SortedIsStable(ms, 1);
    SortedIsStable(ms, 0);
    DescendingIsBuckets(Sorted(ms));
    KeysAreBuckets(ms, 4);
    KeysAreBuckets(ms, 2);
    KeysAreBuckets(ms, 1);
  }

  /** Sizes are multiples of alignments of at least `a`, so also of `a`. */
  lemma {:induction false} TotalIsMultiple(ms: seq<Member>, a: int)
    requires GoodMembers(ms) && IsAlign(a) && forall i :: 0 <= i < |ms| ==> ms[i].align >= a
    ensures Mod(TotalSize(ms), a) == 0
  {
    if ms != [] {
      var m := ms[|ms| - 1];
      TotalIsMultiple(ms[..|ms| - 1], a);
      SmallerDivides(m.size, a, m.align);
      SumIsMultiple(TotalSize(ms[..|ms| - 1]), m.size, a);
    }
  }

  lemma SmallerDivides(n: int, a: int, b: int)
    requires IsAlign(a) && Good(n, b) && a <= b
    ensures Mod(n, a) == 0
  {
  }

  lemma SumIsMultiple(x: int, y: int, a: int)
    requires IsAlign(a) && Mod(x, a) == 0 && Mod(y, a) == 0
    ensures Mod(x + y, a) == 0
  {
  }

  /** After sorting, no pad comes before any member other than a union or an empty one. */
  lemma {:induction false} SortedNeedsNoPads(ms: seq<Member>, i: nat)
    requires GoodMembers(ms) && Descending(ms) && i < |ms| && SortKey(ms[i]) > 0
    ensures Body(ms[..i + 1]) == (ms[..i + 1], 0)
  {
    var earlier, m := ms[..i], ms[i];
    assert ms[..i + 1] == earlier + [m];
    if i > 0 {
      SortedNeedsNoPads(ms, i - 1);
    }
    TotalIsMultiple(earlier, m.align);
    BodySnoc(earlier, m);
  }

  // ----- the padding pass -----

  /** The members after the pass; in detect mode the pass fails if it would insert a pad. */
  function PadResult(mode: Mode, ms: seq<Member>): Option<seq<Member>>
    requires GoodMembers(ms)
  {
    if mode == FixSorted then (SortedIsGood(ms); Some(Padded(Sorted(ms))))
    else if mode == Detect && Padded(ms) != ms then None
    else Some(Padded(ms))
  }

  lemma SortedIsGood(ms: seq<Member>)
    requires GoodMembers(ms)
    ensures GoodMembers(Sorted(ms))
  {
    forall i | 0 <= i < |Sorted(ms)| ensures Good(Sorted(ms)[i].size, Sorted(ms)[i].align) {
      assert Sorted(ms)[i] in multiset(Sorted(ms));
    }
  }

  /** All pads that the pass inserts: those before members, and the one at the end. */
  ghost function AllInserted(ms: seq<Member>): (r: seq<Member>)
    requires GoodMembers(ms)
  {
    var gap := Gap(TotalSize(Body(ms).0), MaxAlign(ms));
    Inserted(ms) + if gap == 0 then [] else [PadMember(gap, Body(ms).1)]
  }

  lemma PaddedContents(ms: seq<Member>)
    requires GoodMembers(ms)
    ensures multiset(Padded(ms)) == multiset(ms) + multiset(AllInserted(ms))
    ensures forall i :: 0 <= i < |AllInserted(ms)| ==> IsPad(AllInserted(ms)[i], i)
  {
    var (placed, pads) := Body(ms);
    var gap := Gap(TotalSize(placed), MaxAlign(ms));
    BodyContents(ms);
    InsertedArePads(ms);
    if gap == 0 {
      assert Inserted(ms) + [] == Inserted(ms);
    } else {
      OneMorePad(multiset(ms), placed, Inserted(ms), gap, pads);
    }
  }

  lemma OneMorePad(contents: multiset<Member>, placed: seq<Member>, inserted: seq<Member>, gap: nat, pads: nat)
    requires multiset(placed) == contents + multiset(inserted) && 0 < gap < 4 && |inserted| == pads
    requires forall i :: 0 <= i < |inserted| ==> IsPad(inserted[i], i)
    ensures
      var more := inserted + [PadMember(gap, pads)];
      && multiset(placed + [PadMember(gap, pads)]) == contents + multiset(more)
      && forall i :: 0 <= i < |more| ==> IsPad(more[i], i)
  {
  }

  /** The members that the pass works on: in order, or sorted. */
  ghost function Arranged(mode: Mode, ms: seq<Member>): (r: seq<Member>)
    requires GoodMembers(ms)
    ensures GoodMembers(r) && multiset(r) == multiset(ms)
  {
    if mode == FixSorted then (SortedIsGood(ms); Sorted(ms)) else ms
  }

  /** Whatever the mode, the result holds the given members, pads numbered in order, and nothing else. */
  lemma PadResultContents(mode: Mode, ms: seq<Member>)
    requires GoodMembers(ms) && PadResult(mode, ms).Some?
    ensures
      var pads := AllInserted(Arranged(mode, ms));
      && multiset(PadResult(mode, ms).value) == multiset(ms) + multiset(pads)
      && (forall i :: 0 <= i < |pads| ==> IsPad(pads[i], i))
      && (mode == Detect ==> PadResult(mode, ms).value == ms)
  {
    PaddedContents(Arranged(mode, ms));
  }

  /** The elements of `a` and those of `b`, each in their own order. */
  ghost predicate Interleaved(r: seq<Member>, a: seq<Member>, b: seq<Member>) {
    if r == [] then a == [] && b == []
    else
      var front, last := r[..|r| - 1], r[|r| - 1];
      || (a != [] && a[|a| - 1] == last && Interleaved(front, a[..|a| - 1], b))
      || (b != [] && b[|b| - 1] == last && Interleaved(front, a, b[..|b| - 1]))
  }

  lemma InterleavedSnoc(r: seq<Member>, a: seq<Member>, b: seq<Member>, m: Member)
    requires Interleaved(r, a, b)
    ensures Interleaved(r + [m], a + [m], b) && Interleaved(r + [m], a, b + [m])
  {
    assert (r + [m])[..|r|] == r && (a + [m])[..|a|] == a && (b + [m])[..|b|] == b;
  }

  lemma PlaceInterleaves(placed: seq<Member>, pads: nat, ms: seq<Member>, inserted: seq<Member>, m: Member)
    requires IsAlign(m.align) && Interleaved(placed, ms, inserted)
    ensures Interleaved(Place(placed, pads, m).0, ms + [m], inserted + PadBefore(placed, pads, m))
  {
    var gap := Gap(TotalSize(placed), m.align);
    if gap == 0 {
      InterleavedSnoc(placed, ms, inserted, m);
      assert inserted + [] == inserted;
    } else {
      var pad := PadMember(gap, pads);
      InterleavedSnoc(placed, ms, inserted, pad);
      InterleavedSnoc(placed + [pad], ms, inserted + [pad], m);
    }
  }

  lemma {:induction false} BodyInterleaves(ms: seq<Member>)
    requires GoodMembers(ms)
    ensures Interleaved(Body(ms).0, ms, Inserted(ms))
  {
    if ms != [] {
      var earlier, m := ms[..|ms| - 1], ms[|ms| - 1];
      BodyInterleaves(earlier);
      assert earlier + [m] == ms;
      PlaceInterleaves(Body(earlier).0, Body(earlier).1, earlier, Inserted(earlier), m);
    }
  }

  /** The members keep the order in which they are laid out, with the pads among them. */
  lemma PadResultInOrder(mode: Mode, ms: seq<Member>)
    requires GoodMembers(ms) && PadResult(mode, ms).Some?
    ensures
      var arranged := Arranged(mode, ms);
      Interleaved(PadResult(mode, ms).value, arranged, AllInserted(arranged))
  {
    var arranged := Arranged(mode, ms);
    var (placed, pads) := Body(arranged);
    BodyInterleaves(arranged);
    InterleavedSnoc(placed, arranged, Inserted(arranged), PadMember(Gap(TotalSize(placed), MaxAlign(arranged)), pads));
    assert Inserted(arranged) + [] == Inserted(arranged);
  }

  /** The number that a string of digits is in decimal. */
  ghost function ReadDigits(s: string): int {
    if s == "" then 0 else 10 * ReadDigits(s[..|s| - 1]) + (s[|s| - 1] as int - '0' as int)
  }

  lemma {:induction false} DigitsRead(n: nat)
    ensures Digits(n) != "" && ReadDigits(Digits(n)) == n
  {
    var s := Digits(n);
    if n < 10 {
      assert s[..|s| - 1] == "";
    } else {
      DigitsRead(n / 10);
      assert s[..|s| - 1] == Digits(n / 10);
    }
  }

  /** Pads with different numbers have different names. */
  lemma PadNamesDiffer(size: nat, idx: nat, size': nat, idx': nat)
    requires idx != idx'
    ensures PadDecl(size, idx).name != PadDecl(size', idx').name
  {
    DigitsRead(idx);
    DigitsRead(idx');
    assert PadDecl(size, idx).name[3..] == if idx == 0 then "" else Digits(idx);
    assert PadDecl(size', idx').name[3..] == if idx' == 0 then "" else Digits(idx');
  }

  /** The pads that a repair inserts into a struct have names of their own. */
  lemma InsertedNamesDiffer(mode: Mode, ms: seq<Member>, i: nat, j: nat)
    requires GoodMembers(ms) && PadResult(mode, ms).Some? && i < j < |AllInserted(Arranged(mode, ms))|
    ensures
      var pads := AllInserted(Arranged(mode, ms));
      pads[i].decl.name != pads[j].decl.name
  {
    PadResultContents(mode, ms);
    var pads := AllInserted(Arranged(mode, ms));
    assert IsPad(pads[i], i) && IsPad(pads[j], j);
    PadNamesDiffer(pads[i].size, i, pads[j].size, j);
  }

  /** One round of the loop: a pad if needed, then the member. */
  method PlaceNext(padded: seq<Member>, padIdx: nat, offset: int, m: Member)
    returns (padded': seq<Member>, padIdx': nat, offset': int)
    requires IsAlign(m.align) && offset == TotalSize(padded)
    ensures (padded', padIdx') == Place(padded, padIdx, m) && offset' == TotalSize(padded')
  {
    padded', padIdx', offset' := padded, padIdx, offset;
    var padSize := m.align - Mod(offset, m.align);
    if padSize != m.align {
      TotalAppend(padded', PadMember(padSize, padIdx));
      padded' := padded' + [PadMember(padSize, padIdx)];
      padIdx' := padIdx' + 1;
      offset' := offset' + padSize;
    }
    TotalAppend(padded', m);
    padded' := padded' + [m];
    offset' := offset' + m.size;
  }

  lemma FirstMisplaced(ms: seq<Member>, i: nat)
    requires GoodMembers(ms) && i < |ms| && Body(ms[..i]).1 == 0
    requires Gap(TotalSize(Body(ms[..i]).0), ms[i].align) != 0
    ensures !WellPlaced(ms)
  {
    BodyUnchanged(ms[..i]);
    assert !PlacedAt(ms, i);
  }

  lemma BodyNext(ms: seq<Member>, i: nat)
    requires GoodMembers(ms) && i < |ms|
    ensures Body(ms[..i + 1]) == Place(Body(ms[..i]).0, Body(ms[..i]).1, ms[i])
    ensures MaxAlign(ms[..i + 1]) == Max(MaxAlign(ms[..i]), ms[i].align)
  {
    assert ms[..i + 1] == ms[..i] + [ms[i]];
    BodySnoc(ms[..i], ms[i]);
  }

  /** The loop over the members: each is placed after the padding it needs. */
  method PadMembers(mode: Mode, ms: seq<Member>)
    returns (r: Option<seq<Member>>, padIdx: nat, offset: int, maxAlign: int)
    requires GoodMembers(ms)
    ensures r == None ==> mode == Detect && !WellPlaced(ms)
    ensures r.Some? ==> (r.value, padIdx) == Body(ms) && offset == TotalSize(r.value) && maxAlign == MaxAlign(ms)
    ensures r.Some? && mode == Detect ==> padIdx == 0
  {
    offset, padIdx, maxAlign := 0, 0, 1;
    var padded: seq<Member> := [];
    for i := 0 to |ms|
      invariant (padded, padIdx) == Body(ms[..i])
      invariant offset == TotalSize(padded) && maxAlign == MaxAlign(ms[..i])
      invariant mode == Detect ==> padIdx == 0
    {
      var m := ms[i];
      BodyNext(ms, i);
      if mode == Detect && Gap(offset, m.align) != 0 {
        FirstMisplaced(ms, i);
        return None, padIdx, offset, maxAlign;
      }
      padded, padIdx, offset := PlaceNext(padded, padIdx, offset, m);
      maxAlign := Max(maxAlign, m.align);
    }
    assert ms[..|ms|] == ms;
    r := Some(padded);
  }

  method PadStruct(mode: Mode, members: seq<Member>) returns (r: Option<seq<Member>>)
    requires GoodMembers(members)
    ensures r == PadResult(mode, members)
  {
    var ms := members;
    if mode == FixSorted {
      ms := Sorted(members);
      SortedIsGood(members);
    }
    BodyUnchanged(ms);
    PaddedUnchanged(ms);
    var padded, padIdx, offset, maxAlign := PadMembers(mode, ms);
    if padded == None {
      return None;
    }
    r := PadEnd(mode, ms, padded.value, padIdx, offset, maxAlign);
  }

  /** The padding at the end of the struct. */
  method PadEnd(mode: Mode, ghost ms: seq<Member>, padded: seq<Member>, padIdx: nat, offset: int, maxAlign: int)
    returns (r: Option<seq<Member>>)
    requires GoodMembers(ms) && (padded, padIdx) == Body(ms)
    requires offset == TotalSize(padded) && maxAlign == MaxAlign(ms)
    requires mode == Detect ==> padded == ms
    ensures r == if mode == Detect && Padded(ms) != ms then None else Some(Padded(ms))
  {
    var padSize := maxAlign - Mod(offset, maxAlign);
    if padSize == maxAlign {
      return Some(padded);
    }
    if mode == Detect {
      return None;
    }
    return Some(padded + [PadMember(padSize, padIdx)]);
  }
}
