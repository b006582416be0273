/** Sorted repairs of whole declarations: exactly when a second one changes nothing. */
module StructResort {
  import opened Wrappers
  import opened StructAst
  import opened StructPadding
  import opened StructAlignment
  import opened StructLayout
  import opened StructRepair
  import opened StructSorted

  /** At all depths, the unions and empty members of each struct, sorted last, need no pads behind the
      first of them. */
  ghost predicate Settles(ctx: Context, d: Decl)
    requires ValidContext(ctx)
    decreases d, 0
  {
    match d.ty
    case ArrayDecl(_, inner) => SettlesNode(ctx, inner)
    case TypeDecl(_) => SettlesNode(ctx, d.ty)
    case _ => true
  }

  ghost predicate SettlesNode(ctx: Context, node: Type)
    requires ValidContext(ctx)
    decreases node, 0
  {
    match node
    case TypeDecl(c) => SettlesType(ctx, c)
    case PtrDecl(c) => SettlesType(ctx, c)
    case ArrayDecl(_, c) => SettlesType(ctx, c)
    case _ => true
  }

  ghost predicate SettlesType(ctx: Context, c: Type)
    requires ValidContext(ctx)
    decreases c, 1
  {
    match c
    case Struct(decls) =>
      var ms := InfoOfMembers(ctx, FixSorted, decls);
      SettlesAll(ctx, decls) && (ms.Some? ==> SortedTight(ms.value))
    case Union(decls) => SettlesAll(ctx, decls)
    case TypeDecl(_) => SettlesNode(ctx, c)
    case _ => true
  }

  ghost predicate SettlesAll(ctx: Context, decls: seq<Decl>)
    requires ValidContext(ctx)
    decreases decls, 0
  {
    decls == [] || (SettlesAll(ctx, decls[..|decls| - 1]) && Settles(ctx, decls[|decls| - 1]))
  }

  ghost predicate SortedTight(ms: seq<Member>)
    requires GoodMembers(ms)
  {
    SortedIsGood(ms);
    TailTight(Sorted(ms))
  }

  // ----- the number of declarations -----

  ghost function Weight(ty: Type): nat
    decreases ty, 0
  {
    match ty
    case TypeDecl(c) => Weight(c)
    case PtrDecl(c) => Weight(c)
    case ArrayDecl(_, c) => Weight(c)
    case Struct(decls) => Weights(decls)
    case Union(decls) => Weights(decls)
    case _ => 0
  }

  ghost function Weights(decls: seq<Decl>): nat
    decreases decls, 0
  {
    if decls == [] then 0 else Weights(decls[..|decls| - 1]) + 1 + Weight(decls[|decls| - 1].ty)
  }

  lemma WeightsSnoc(ms: seq<Member>, m: Member)
    ensures Weights(DeclsOf(ms + [m])) == Weights(DeclsOf(ms)) + 1 + Weight(m.decl.ty)
  {
    assert DeclsOf(ms + [m]) == DeclsOf(ms) + [m.decl];
    assert (DeclsOf(ms) + [m.decl])[..|ms|] == DeclsOf(ms);
  }

  lemma {:induction false} InsertWeight(s: seq<Member>, m: Member)
    ensures Weights(DeclsOf(Insert(s, m))) == Weights(DeclsOf(s)) + 1 + Weight(m.decl.ty)
  {
    if s == [] {
      WeightsSnoc([], m);
      assert [] + [m] == [m];
    } else {
      var front, last := s[..|s| - 1], s[|s| - 1];
      assert s == front + [last];
      if SortKey(last) >= SortKey(m) {
        WeightsSnoc(s, m);
      } else {
        InsertWeight(front, m);
        WeightsSnoc(Insert(front, m), last);
        WeightsSnoc(front, last);
      }
    }
  }

  lemma {:induction false} SortedWeight(ms: seq<Member>)
    ensures Weights(DeclsOf(Sorted(ms))) == Weights(DeclsOf(ms))
  {
    if ms != [] {
      var earlier, m := ms[..|ms| - 1], ms[|ms| - 1];
      assert ms == earlier + [m];
      SortedWeight(earlier);
      InsertWeight(Sorted(earlier), m);
      WeightsSnoc(earlier, m);
    }
  }

  /** Each pad adds to the weight. */
  lemma {:induction false} BodyWeight(ms: seq<Member>)
    requires GoodMembers(ms)
    ensures Weights(DeclsOf(Body(ms).0)) == Weights(DeclsOf(ms)) + Body(ms).1
  {
    if ms != [] {
      var earlier, m := ms[..|ms| - 1], ms[|ms| - 1];
      assert ms == earlier + [m];
      BodyWeight(earlier);
      PlaceWeight(Body(earlier).0, Body(earlier).1, m);
      WeightsSnoc(earlier, m);
    }
  }

  lemma PlaceWeight(placed: seq<Member>, pads: nat, m: Member)
    requires IsAlign(m.align)
    ensures
      var r := Place(placed, pads, m);
      Weights(DeclsOf(r.0)) == Weights(DeclsOf(placed)) + 1 + Weight(m.decl.ty) + r.1 - pads
  {
    var pad := PadMember(Gap(TotalSize(placed), m.align), pads);
    WeightsSnoc(placed, m);
    WeightsSnoc(placed, pad);
    WeightsSnoc(placed + [pad], m);
  }

  lemma PaddedWeight(ms: seq<Member>)
    requires GoodMembers(ms)
    ensures Weights(DeclsOf(Padded(ms))) >= Weights(DeclsOf(ms))
    ensures Weights(DeclsOf(Padded(ms))) == Weights(DeclsOf(ms)) ==> Padded(ms) == ms
  {
    BodyWeight(ms);
    BodyUnchanged(ms);
    var (placed, pads) := Body(ms);
    WeightsSnoc(placed, PadMember(Gap(TotalSize(placed), MaxAlign(ms)), pads));
  }

  // ----- a repair that adds nothing is the last -----

  lemma {:induction false} DeclGrows(ctx: Context, d: Decl)
    requires ValidContext(ctx)
    ensures
      var r := InfoOfDecl(ctx, FixSorted, d);
      r.Some? ==>
        && Weight(r.value.decl.ty) >= Weight(d.ty)
        && (Weight(r.value.decl.ty) == Weight(d.ty) ==> Stable(ctx, FixSorted, r.value))
    decreases d, 0
  {
    match d.ty
    case ArrayDecl(_, inner) => NodeGrows(ctx, inner);
    case TypeDecl(_) => NodeGrows(ctx, d.ty);
    case _ =>
  }

  lemma {:induction false} NodeGrows(ctx: Context, node: Type)
    requires ValidContext(ctx)
    ensures
      var r := InfoOfTypeDecl(ctx, FixSorted, node);
      r.Some? ==>
        && Weight(r.value.ty) >= Weight(node)
        && (Weight(r.value.ty) == Weight(node) ==> InfoOfTypeDecl(ctx, FixSorted, r.value.ty) == r)
    decreases node, 0
  {
    match node
    case TypeDecl(c) => TypeGrows(ctx, c);
    case PtrDecl(c) => TypeGrows(ctx, c);
    case ArrayDecl(_, c) => TypeGrows(ctx, c);
    case _ =>
  }

  lemma {:induction false} TypeGrows(ctx: Context, c: Type)
    requires ValidContext(ctx)
    ensures
      var r := InfoOfType(ctx, FixSorted, c);
      r.Some? ==>
        && Weight(r.value.ty) >= Weight(c)
        && (Weight(r.value.ty) == Weight(c) ==> InfoOfType(ctx, FixSorted, r.value.ty) == r)
    decreases c, 1
  {
    match c
    case Struct(decls) =>
      MembersGrow(ctx, decls);
      var ms := InfoOfMembers(ctx, FixSorted, decls);
      if ms.Some? {
        StructGrows(ctx, decls, ms.value);
      }
    case Union(decls) =>
      MembersGrow(ctx, decls);
      var ms := InfoOfMembers(ctx, FixSorted, decls);
      if ms.Some? {
        UnionGrows(ctx, decls, ms.value);
      }
    case TypeDecl(_) => NodeGrows(ctx, c);
    case _ =>
  }

  lemma {:induction false} MembersGrow(ctx: Context, decls: seq<Decl>)
    requires ValidContext(ctx)
    ensures
      var r := InfoOfMembers(ctx, FixSorted, decls);
      r.Some? ==>
        && Weights(DeclsOf(r.value)) >= Weights(decls)
        && (Weights(DeclsOf(r.value)) == Weights(decls) ==> AllStable(ctx, FixSorted, r.value))
    decreases decls, 0
  {
    if decls != [] {
      var earlier, last := decls[..|decls| - 1], decls[|decls| - 1];
      MembersGrow(ctx, earlier);
      DeclGrows(ctx, last);
      var r := InfoOfMembers(ctx, FixSorted, decls);
      if r.Some? {
        var before, m := InfoOfMembers(ctx, FixSorted, earlier).value, InfoOfDecl(ctx, FixSorted, last).value;
        assert r.value == before + [m];
        WeightsSnoc(before, m);
        if Weights(DeclsOf(r.value)) == Weights(decls) {
          AllStableSnoc(ctx, FixSorted, before, m);
        }
      }
    }
  }

  lemma AllStableSnoc(ctx: Context, mode: Mode, ms: seq<Member>, m: Member)
    requires ValidContext(ctx)
    ensures AllStable(ctx, mode, ms + [m]) <==> AllStable(ctx, mode, ms) && Stable(ctx, mode, m)
  {
    var more := ms + [m];
    if AllStable(ctx, mode, more) {
      assert more[|ms|] == m;
      forall i | 0 <= i < |ms| ensures Stable(ctx, mode, ms[i]) {
        assert more[i] == ms[i];
      }
    }
  }

  lemma StructGrows(ctx: Context, decls: seq<Decl>, ms: seq<Member>)
    requires ValidContext(ctx) && GoodMembers(ms)
    requires Weights(DeclsOf(ms)) >= Weights(decls)
    requires Weights(DeclsOf(ms)) == Weights(decls) ==> AllStable(ctx, FixSorted, ms)
    ensures
      var r := StructInfo(FixSorted, ms);
      && r.Some? && Weight(r.value.ty) >= Weights(decls)
      && (Weight(r.value.ty) == Weights(decls) ==> InfoOfType(ctx, FixSorted, r.value.ty) == r)
  {
    StructWeight(ms);
    if Weight(StructInfo(FixSorted, ms).value.ty) == Weights(decls) {
      NothingAdded(ctx, ms);
    }
  }

  lemma StructWeight(ms: seq<Member>)
    requires GoodMembers(ms)
    ensures GoodMembers(Sorted(ms)) && StructInfo(FixSorted, ms).Some?
    ensures
      var w := Weight(StructInfo(FixSorted, ms).value.ty);
      w >= Weights(DeclsOf(ms)) && (w == Weights(DeclsOf(ms)) ==> Padded(Sorted(ms)) == Sorted(ms))
  {
    StructType(ms);
    SortedPaddedWeight(ms);
    StructWeighs(DeclsOf(Padded(Sorted(ms))));
  }

  lemma StructWeighs(decls: seq<Decl>)
    ensures Weight(Struct(decls)) == Weights(decls)
  {
  }

  lemma SortedPaddedWeight(ms: seq<Member>)
    requires GoodMembers(Sorted(ms))
    ensures
      var w := Weights(DeclsOf(Padded(Sorted(ms))));
      w >= Weights(DeclsOf(ms)) && (w == Weights(DeclsOf(ms)) ==> Padded(Sorted(ms)) == Sorted(ms))
  {
    SortedWeight(ms);
    PaddedWeight(Sorted(ms));
  }

  lemma StructType(ms: seq<Member>)
    requires GoodMembers(ms)
    ensures GoodMembers(Sorted(ms)) && StructInfo(FixSorted, ms).Some?
    ensures StructInfo(FixSorted, ms).value.ty == Struct(DeclsOf(Padded(Sorted(ms))))
  {
    SortedIsGood(ms);
  }

  /** Stable members that need no pads when sorted give a struct that does not change. */
  lemma NothingAdded(ctx: Context, ms: seq<Member>)
    requires ValidContext(ctx) && GoodMembers(ms) && AllStable(ctx, FixSorted, ms)
    requires GoodMembers(Sorted(ms)) && Padded(Sorted(ms)) == Sorted(ms)
    ensures var r := StructInfo(FixSorted, ms); InfoOfType(ctx, FixSorted, r.value.ty) == r
  {
    var s := Sorted(ms);
    SortedStable(ctx, ms);
    MembersStable(ctx, FixSorted, s);
    StructOfMembers(ctx, FixSorted, s);
    SortedIsStable(ms, 0);
    SortedUnchanged(s);
  }

  lemma SortedStable(ctx: Context, ms: seq<Member>)
    requires ValidContext(ctx)
    ensures AllStable(ctx, FixSorted, Sorted(ms)) <==> AllStable(ctx, FixSorted, ms)
  {
    assert multiset(Sorted(ms)) == multiset(ms);
    forall m ensures m in Sorted(ms) <==> m in ms {
      assert m in multiset(Sorted(ms)) <==> m in multiset(ms);
    }
    StableByElement(ctx, Sorted(ms));
    StableByElement(ctx, ms);
  }

  lemma StableByElement(ctx: Context, ms: seq<Member>)
    requires ValidContext(ctx)
    ensures AllStable(ctx, FixSorted, ms) <==> forall m :: m in ms ==> Stable(ctx, FixSorted, m)
  {
    if forall m :: m in ms ==> Stable(ctx, FixSorted, m) {
      forall i | 0 <= i < |ms| ensures Stable(ctx, FixSorted, ms[i]) {
        assert ms[i] in ms;
      }
    }
  }

  lemma UnionGrows(ctx: Context, decls: seq<Decl>, ms: seq<Member>)
    requires ValidContext(ctx) && GoodMembers(ms)
    requires Weights(DeclsOf(ms)) >= Weights(decls)
    requires Weights(DeclsOf(ms)) == Weights(decls) ==> AllStable(ctx, FixSorted, ms)
    ensures
      var r := UnionInfo(FixSorted, ms);
      && r.Some? && Weight(r.value.ty) >= Weights(decls)
      && (Weight(r.value.ty) == Weights(decls) ==> InfoOfType(ctx, FixSorted, r.value.ty) == r)
  {
    UnionWeight(ms);
    if Weight(UnionInfo(FixSorted, ms).value.ty) == Weights(decls) {
      MembersStable(ctx, FixSorted, ms);
    }
  }

  lemma UnionWeight(ms: seq<Member>)
    requires GoodMembers(ms)
    ensures UnionInfo(FixSorted, ms).Some?
    ensures
      var r := UnionInfo(FixSorted, ms).value;
      && Weight(r.ty) >= Weights(DeclsOf(ms))
      && (Weight(r.ty) == Weights(DeclsOf(ms)) ==> r.ty == Union(DeclsOf(ms)))
  {
    var all := Overlaid(ms);
    OverlaidIs(FixSorted, ms);
    if |all| > |ms| {
      assert all == ms + [all[|ms|]];
      WeightsSnoc(ms, all[|ms|]);
    } else {
      assert all == ms;
    }
  }

  // ----- the exact condition -----

  /** A second sorted repair leaves a declaration as it is exactly when it settles. */
  lemma {:induction false} SortedFixIdempotentExactly(ctx: Context, d: Decl)
    requires ValidContext(ctx) && PadsKnown(ctx)
    ensures
      var r := InfoOfDecl(ctx, FixSorted, d);
      r.Some? ==> (InfoOfDecl(ctx, FixSorted, r.value.decl) == r <==> Settles(ctx, d))
    decreases d, 0
  {
    match d.ty
    case ArrayDecl(_, inner) =>
      NodeExactly(ctx, inner);
      NodeAccepted(ctx, FixSorted, inner);
      var elem := InfoOfTypeDecl(ctx, FixSorted, inner);
      if elem.Some? {
        NodeAccepted(ctx, FixSorted, elem.value.ty);
      }
    case TypeDecl(_) => NodeExactly(ctx, d.ty);
    case _ =>
  }

  lemma {:induction false} NodeExactly(ctx: Context, node: Type)
    requires ValidContext(ctx) && PadsKnown(ctx)
    ensures
      var r := InfoOfTypeDecl(ctx, FixSorted, node);
      r.Some? ==> (InfoOfTypeDecl(ctx, FixSorted, r.value.ty) == r <==> SettlesNode(ctx, node))
    decreases node, 0
  {
    match node
    case TypeDecl(c) => TypeExactly(ctx, c);
    case PtrDecl(c) => TypeExactly(ctx, c);
    case ArrayDecl(_, c) => TypeExactly(ctx, c);
    case _ =>
  }

  lemma {:induction false} TypeExactly(ctx: Context, c: Type)
    requires ValidContext(ctx) && PadsKnown(ctx)
    ensures
      var r := InfoOfType(ctx, FixSorted, c);
      r.Some? ==> (InfoOfType(ctx, FixSorted, r.value.ty) == r <==> SettlesType(ctx, c))
    decreases c, 1
  {
    match c
    case Struct(decls) =>
      MembersExactly(ctx, decls);
      MembersAccepted(ctx, FixSorted, decls);
      var ms := InfoOfMembers(ctx, FixSorted, decls);
      if ms.Some? {
        StructExactly(ctx, ms.value);
      }
    case Union(decls) =>
      MembersExactly(ctx, decls);
      MembersAccepted(ctx, FixSorted, decls);
      var ms := InfoOfMembers(ctx, FixSorted, decls);
      if ms.Some? {
        UnionExactly(ctx, ms.value);
      }
    case TypeDecl(_) => NodeExactly(ctx, c);
    case _ =>
  }

  lemma {:induction false} MembersExactly(ctx: Context, decls: seq<Decl>)
    requires ValidContext(ctx) && PadsKnown(ctx)
    ensures
      var r := InfoOfMembers(ctx, FixSorted, decls);
      r.Some? ==> (AllStable(ctx, FixSorted, r.value) <==> SettlesAll(ctx, decls))
    decreases decls, 0
  {
    if decls != [] {
      var earlier, last := decls[..|decls| - 1], decls[|decls| - 1];
      MembersExactly(ctx, earlier);
      SortedFixIdempotentExactly(ctx, last);
      var r := InfoOfMembers(ctx, FixSorted, decls);
      if r.Some? {
        var before, m := InfoOfMembers(ctx, FixSorted, earlier).value, InfoOfDecl(ctx, FixSorted, last).value;
        AllStableSnoc(ctx, FixSorted, before, m);
      }
    }
  }

  lemma StructExactly(ctx: Context, ms: seq<Member>)
    requires ValidContext(ctx) && PadsKnown(ctx) && GoodMembers(ms) && AllStable(ctx, Detect, ms)
    ensures
      var r := StructInfo(FixSorted, ms);
      r.Some? && (InfoOfType(ctx, FixSorted, r.value.ty) == r <==> AllStable(ctx, FixSorted, ms) && SortedTight(ms))
  {
    SortedListExactly(ms);
    if AllStable(ctx, FixSorted, ms) && SortedTight(ms) {
      StructStays(ctx, ms);
    }
    if InfoOfType(ctx, FixSorted, StructInfo(FixSorted, ms).value.ty) == StructInfo(FixSorted, ms) {
      StructStayed(ctx, ms);
    }
  }

  /** Stable members whose padding does not change give a struct that does not change. */
  lemma StructStays(ctx: Context, ms: seq<Member>)
    requires ValidContext(ctx) && PadsKnown(ctx) && GoodMembers(ms) && AllStable(ctx, FixSorted, ms)
    requires GoodMembers(Sorted(ms)) && GoodMembers(Padded(Sorted(ms)))
    requires PadResult(FixSorted, Padded(Sorted(ms))) == Some(Padded(Sorted(ms)))
    ensures var r := StructInfo(FixSorted, ms); InfoOfType(ctx, FixSorted, r.value.ty) == r
  {
    var padded := Padded(Sorted(ms));
    PaddedStable(ctx, FixSorted, FixSorted, ms);
    MembersStable(ctx, FixSorted, padded);
    StructOfMembers(ctx, FixSorted, padded);
  }

  /** A struct that does not change has stable members, and its padding does not change. */
  lemma StructStayed(ctx: Context, ms: seq<Member>)
    requires ValidContext(ctx) && PadsKnown(ctx) && GoodMembers(ms) && AllStable(ctx, Detect, ms)
    requires GoodMembers(Sorted(ms)) && GoodMembers(Padded(Sorted(ms)))
    requires var r := StructInfo(FixSorted, ms); InfoOfType(ctx, FixSorted, r.value.ty) == r
    ensures AllStable(ctx, FixSorted, ms) && PadResult(FixSorted, Padded(Sorted(ms))) == Some(Padded(Sorted(ms)))
  {
    var p := Padded(Sorted(ms));
    PaddedStable(ctx, Detect, FixSorted, ms);
    StayedPadded(ctx, p);
    StableAmongPads(ctx, Sorted(ms));
    SortedStable(ctx, ms);
  }

  lemma StayedPadded(ctx: Context, p: seq<Member>)
    requires ValidContext(ctx) && PadsKnown(ctx) && AllStable(ctx, Detect, p)
    requires var r := InfoOfType(ctx, FixSorted, Struct(DeclsOf(p))); r.Some? && r.value.ty == Struct(DeclsOf(p))
    ensures AllStable(ctx, FixSorted, p) && GoodMembers(p) && PadResult(FixSorted, p) == Some(p)
  {
    var again := InfoOfMembers(ctx, FixSorted, DeclsOf(p));
    StructFromMembers(ctx, DeclsOf(p));
    SameAgain(ctx, p, again.value);
  }

  lemma StructFromMembers(ctx: Context, decls: seq<Decl>)
    requires ValidContext(ctx) && InfoOfType(ctx, FixSorted, Struct(decls)).Some?
    ensures
      var ms := InfoOfMembers(ctx, FixSorted, decls);
      ms.Some? && GoodMembers(ms.value) && StructInfo(FixSorted, ms.value) == InfoOfType(ctx, FixSorted, Struct(decls))
  {
  }

  lemma StableAmongPads(ctx: Context, ms: seq<Member>)
    requires ValidContext(ctx) && GoodMembers(ms) && AllStable(ctx, FixSorted, Padded(ms))
    ensures AllStable(ctx, FixSorted, ms)
  {
    PaddedKeepsElements(ms);
    StableByElement(ctx, Padded(ms));
    StableByElement(ctx, ms);
  }

  lemma {:induction false} BodyKeepsElements(ms: seq<Member>)
    requires GoodMembers(ms)
    ensures forall m :: m in ms ==> m in Body(ms).0
  {
    BodyContents(ms);
    forall m | m in ms ensures m in Body(ms).0 {
      assert m in multiset(ms);
      assert m in multiset(Body(ms).0);
    }
  }

  lemma PaddedKeepsElements(ms: seq<Member>)
    requires GoodMembers(ms)
    ensures forall m :: m in ms ==> m in Padded(ms)
  {
    BodyKeepsElements(ms);
  }

  /** If the declarations of accepted members come out of a repair as they were, so do the members. */
  lemma SameAgain(ctx: Context, p: seq<Member>, again: seq<Member>)
    requires ValidContext(ctx) && PadsKnown(ctx) && AllStable(ctx, Detect, p)
    requires InfoOfMembers(ctx, FixSorted, DeclsOf(p)) == Some(again) && GoodMembers(again)
    requires StructInfo(FixSorted, again).Some? && StructInfo(FixSorted, again).value.ty == Struct(DeclsOf(p))
    ensures again == p && AllStable(ctx, FixSorted, p) && PadResult(FixSorted, p) == Some(p)
  {
    SortedIsGood(again);
    var s := Sorted(again);
    assert DeclsOf(Padded(s)) == DeclsOf(p);
    assert |s| == |again| by {
      assert |multiset(s)| == |multiset(again)|;
    }
    PaddedLength(s);
    assert Padded(s) == s;
    MembersGrow(ctx, DeclsOf(p));
    SortedWeight(again);
    SortedStable(ctx, again);
    SameMembers(ctx, DeclsOf(p), again, s);
    AcceptedAgain(ctx, p, again);
  }

  /** Stable members with these declarations are what the declarations measure as. */
  lemma SameMembers(ctx: Context, decls: seq<Decl>, again: seq<Member>, s: seq<Member>)
    requires ValidContext(ctx) && InfoOfMembers(ctx, FixSorted, decls) == Some(again)
    requires AllStable(ctx, FixSorted, s) && DeclsOf(s) == decls
    ensures s == again
  {
    MembersStable(ctx, FixSorted, s);
  }

  lemma AcceptedAgain(ctx: Context, p: seq<Member>, again: seq<Member>)
    requires ValidContext(ctx) && PadsKnown(ctx) && AllStable(ctx, Detect, p) && DeclsOf(again) == DeclsOf(p)
    requires InfoOfMembers(ctx, FixSorted, DeclsOf(p)) == Some(again)
    ensures again == p
  {
    MembersAccepted(ctx, FixSorted, DeclsOf(p));
    MembersStable(ctx, Detect, again);
    MembersStable(ctx, Detect, p);
  }

  lemma UnionExactly(ctx: Context, ms: seq<Member>)
    requires ValidContext(ctx) && PadsKnown(ctx) && GoodMembers(ms) && AllStable(ctx, Detect, ms)
    ensures
      var r := UnionInfo(FixSorted, ms);
      r.Some? && (InfoOfType(ctx, FixSorted, r.value.ty) == r <==> AllStable(ctx, FixSorted, ms))
  {
    var r := UnionInfo(FixSorted, ms);
    OverlaidIs(FixSorted, ms);
    if AllStable(ctx, FixSorted, ms) {
      UnionStays(ctx, ms);
    }
    if InfoOfType(ctx, FixSorted, r.value.ty) == r {
      UnionStayed(ctx, ms, Overlaid(ms));
    }
  }

  lemma UnionStays(ctx: Context, ms: seq<Member>)
    requires ValidContext(ctx) && PadsKnown(ctx) && GoodMembers(ms) && AllStable(ctx, FixSorted, ms)
    ensures var r := UnionInfo(FixSorted, ms); r.Some? && InfoOfType(ctx, FixSorted, r.value.ty) == r
  {
    var all := Overlaid(ms);
    OverlaidIs(FixSorted, ms);
    OverlaidIs(FixSorted, all);
    OverlaidStable(ctx, FixSorted, ms);
    MembersStable(ctx, FixSorted, all);
  }

  lemma UnionStayed(ctx: Context, ms: seq<Member>, all: seq<Member>)
    requires ValidContext(ctx) && PadsKnown(ctx) && GoodMembers(ms) && AllStable(ctx, Detect, ms) && all == Overlaid(ms)
    requires
      var r := UnionInfo(FixSorted, ms);
      r.Some? && r.value.ty == Union(DeclsOf(all)) && InfoOfType(ctx, FixSorted, r.value.ty) == r
    ensures AllStable(ctx, FixSorted, ms)
  {
    OverlaidStable(ctx, Detect, ms);
    var again := InfoOfMembers(ctx, FixSorted, DeclsOf(all)).value;
    OverlaidIs(FixSorted, again);
    assert DeclsOf(Overlaid(again)) == DeclsOf(all) && |again| == |all|;
    assert Overlaid(again) == again;
    AcceptedAgain(ctx, all, again);
    forall i | 0 <= i < |ms| ensures Stable(ctx, FixSorted, ms[i]) {
      MemberAt(ctx, DeclsOf(all), all, i);
      assert all[i] == ms[i];
    }
  }

  lemma {:induction false} MemberAt(ctx: Context, decls: seq<Decl>, ms: seq<Member>, i: nat)
    requires ValidContext(ctx) && InfoOfMembers(ctx, FixSorted, decls) == Some(ms) && i < |decls|
    ensures |ms| == |decls| && InfoOfDecl(ctx, FixSorted, decls[i]) == Some(ms[i])
  {
    var n := |decls| - 1;
    if i < n {
      MemberAt(ctx, decls[..n], InfoOfMembers(ctx, FixSorted, decls[..n]).value, i);
    }
  }

  // ----- a declaration that a second sorted repair changes -----

  const UNSETTLED := Decl("t", TypeDecl(Struct([
    Decl("i", TypeDecl(Ident(["int"]))),
    Decl("u", TypeDecl(Union([Decl("s", TypeDecl(Ident(["short"])))])))])))

  /** An integer and a union of one short: the first repair puts a pad behind the union, which the
      second sorts in front of it. */
  lemma SortedFixNotIdempotent(enums: map<string, int>)
    ensures
      var ctx := Context(BASE["uint8_t" := Info(1, 1)], enums, {});
      && ValidContext(ctx)
      && var r := InfoOfDecl(ctx, FixSorted, UNSETTLED);
         r.Some? && InfoOfDecl(ctx, FixSorted, r.value.decl) != r
  {
    var ctx := Context(BASE["uint8_t" := Info(1, 1)], enums, {});
    var decls := UNSETTLED.ty.inner.decls;
    UnsettledMembers(ctx, decls[0], decls[1]);
    assert [decls[0], decls[1]] == decls;
    Unsettled(ctx, decls, Member(decls[0], 4, 4), Member(decls[1], 2, 2));
    StructDecl(ctx, "t", decls);
    SortedFixIdempotentExactly(ctx, UNSETTLED);
  }

  lemma StructDecl(ctx: Context, name: string, decls: seq<Decl>)
    requires ValidContext(ctx)
    ensures
      var d := Decl(name, TypeDecl(Struct(decls)));
      && (InfoOfDecl(ctx, FixSorted, d).Some? <==> InfoOfType(ctx, FixSorted, Struct(decls)).Some?)
      && (Settles(ctx, d) <==> SettlesType(ctx, Struct(decls)))
  {
  }

  lemma Unsettled(ctx: Context, decls: seq<Decl>, i: Member, u: Member)
    requires ValidContext(ctx) && InfoOfMembers(ctx, FixSorted, decls) == Some([i, u])
    requires i.size == i.align == 4 && u.size == u.align == 2 && SortKey(i) == 4 && SortKey(u) == 0
    ensures InfoOfType(ctx, FixSorted, Struct(decls)).Some? && !SettlesType(ctx, Struct(decls))
  {
    NotTight(i, u);
    SortedUnchanged([i, u]);
    StructIsMeasured(ctx, decls, [i, u]);
  }

  lemma StructIsMeasured(ctx: Context, decls: seq<Decl>, ms: seq<Member>)
    requires ValidContext(ctx) && InfoOfMembers(ctx, FixSorted, decls) == Some(ms)
    ensures InfoOfType(ctx, FixSorted, Struct(decls)).Some?
  {
    SortedIsGood(ms);
  }

  lemma UnsettledMembers(ctx: Context, i: Decl, u: Decl)
    requires ValidContext(ctx) && ctx.enumTypes == {} && "int" in ctx.infos && "short" in ctx.infos
    requires ctx.infos["int"] == Info(4, 4) && ctx.infos["short"] == Info(2, 2)
    requires i.ty == TypeDecl(Ident(["int"])) && u.ty == TypeDecl(Union([Decl("s", TypeDecl(Ident(["short"])))]))
    ensures InfoOfMembers(ctx, FixSorted, [i, u]) == Some([Member(i, 4, 4), Member(u, 2, 2)])
  {
    var s := Decl("s", TypeDecl(Ident(["short"])));
    NamedMember(ctx, i, "int");
    NamedMember(ctx, s, "short");
    FirstMember(ctx, s, Member(s, 2, 2));
    UnionOfOne(ctx, s, u);
    TwoMembers(ctx, i, Member(i, 4, 4), u, Member(u, 2, 2));
  }

  lemma FirstMember(ctx: Context, d: Decl, m: Member)
    requires ValidContext(ctx) && InfoOfDecl(ctx, FixSorted, d) == Some(m)
    ensures InfoOfMembers(ctx, FixSorted, [d]) == Some([m])
  {
    MembersSnoc(ctx, FixSorted, [], [], d, m);
    assert [] + [d] == [d] && [] + [m] == [m];
  }

  lemma TwoMembers(ctx: Context, d: Decl, m: Member, d': Decl, m': Member)
    requires ValidContext(ctx) && InfoOfDecl(ctx, FixSorted, d) == Some(m) && InfoOfDecl(ctx, FixSorted, d') == Some(m')
    ensures InfoOfMembers(ctx, FixSorted, [d, d']) == Some([m, m'])
  {
    FirstMember(ctx, d, m);
    MembersSnoc(ctx, FixSorted, [d], [m], d', m');
    assert [d] + [d'] == [d, d'] && [m] + [m'] == [m, m'];
  }

  lemma NamedMember(ctx: Context, d: Decl, name: string)
    requires ValidContext(ctx) && ctx.enumTypes == {} && name in ctx.infos && d.ty == TypeDecl(Ident([name]))
    ensures InfoOfDecl(ctx, FixSorted, d) == Some(Member(d, ctx.infos[name].size, ctx.infos[name].align))
  {
    assert Lookup([name], ctx.infos) == Some(ctx.infos[name]);
    assert InfoOfType(ctx, FixSorted, Ident([name])) == Some(Measured(ctx.infos[name], Ident([name])));
  }

  lemma UnionOfOne(ctx: Context, s: Decl, u: Decl)
    requires ValidContext(ctx) && InfoOfMembers(ctx, FixSorted, [s]) == Some([Member(s, 2, 2)])
    requires u.ty == TypeDecl(Union([s]))
    ensures InfoOfDecl(ctx, FixSorted, u) == Some(Member(u, 2, 2))
  {
    var m := Member(s, 2, 2);
    OneMember(m);
    assert DeclsOf([m]) == [s];
    assert UnionInfo(FixSorted, [m]) == Some(Measured(Info(2, 2), Union([s])));
    assert InfoOfType(ctx, FixSorted, Union([s])) == Some(Measured(Info(2, 2), Union([s])));
  }

  lemma OneMember(m: Member)
    ensures TotalSize([m]) == m.size && MaxAlign([m]) == Max(1, m.align) && MaxSize([m]) == Max(0, m.size)
  {
    assert [m][..0] == [];
    assert TotalSize([]) == 0 && MaxAlign([]) == 1 && MaxSize([]) == 0;
  }

  lemma NotTight(i: Member, u: Member)
    requires i.size == i.align == 4 && u.size == u.align == 2 && SortKey(i) == 4 && SortKey(u) == 0
    ensures GoodMembers([i, u]) && Descending([i, u]) && !TailTight([i, u])
  {
    var ms := [i, u];
    assert FirstPutLast(ms, 1);
    TwoSizes(i, u);
    OneMember(i);
    EndsUneven(ms);
    assert !TightAt(ms, 1, 1);
  }

  lemma TwoSizes(i: Member, u: Member)
    requires i.align >= u.align >= 1
    ensures [i, u][..1] == [i] && MaxAlign([i, u]) == i.align
  {
    OneMember(i);
    assert [i, u][..1] == [i];
    assert MaxAlign([i, u]) == Max(MaxAlign([i]), u.align);
  }

  lemma EndsUneven(ms: seq<Member>)
    requires GoodMembers(ms) && |ms| == 2 && TotalSize(ms[..1]) == 4 && MaxAlign(ms) == 4
    requires ms[1].size == ms[1].align == 2
    ensures Mod(TailOffset(ms, 1, 1), NextAlign(ms, 1)) == 2
  {
    assert Gap(4, 2) == 0;
    assert TailOffset(ms, 1, 1) == 6;
    assert NextAlign(ms, 1) == 4;
  }
}
