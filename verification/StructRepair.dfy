/** How the modes of the checker relate: repairing once is enough, and detecting is finding nothing
    to repair. */
module StructRepair {
  import opened Wrappers
  import opened StructAst
  import opened StructPadding
  import opened StructAlignment
  import opened StructLayout

  lemma PaddedLength(ms: seq<Member>)
    requires GoodMembers(ms)
    ensures |Padded(ms)| >= |ms| && (|Padded(ms)| == |ms| <==> Padded(ms) == ms)
  {
    BodyUnchanged(ms);
  }

  /** Detect mode accepts a struct's members when nothing has to be inserted, and changes nothing. */
  lemma StructUnchanged(ms: seq<Member>)
    requires GoodMembers(ms)
    ensures StructInfo(Detect, ms).Some? <==> StructInfo(Fix, ms).value.ty == Struct(DeclsOf(ms))
    ensures StructInfo(Detect, ms).Some? ==> StructInfo(Detect, ms) == StructInfo(Fix, ms)
    ensures |StructInfo(Fix, ms).value.ty.decls| == |ms| ==> StructInfo(Detect, ms).Some?
  {
    PaddedLength(ms);
  }

  lemma UnionUnchanged(ms: seq<Member>)
    requires GoodMembers(ms)
    ensures UnionInfo(Detect, ms).Some? <==> UnionInfo(Fix, ms).value.ty == Union(DeclsOf(ms))
    ensures UnionInfo(Detect, ms).Some? ==> UnionInfo(Detect, ms) == UnionInfo(Fix, ms)
    ensures |UnionInfo(Fix, ms).value.ty.decls| == |ms| ==> UnionInfo(Detect, ms).Some?
  {
    assert |DeclsOf(ms)| == |ms|;
  }

  // ----- detecting is repairing without effect -----

  /** Detect mode accepts a declaration exactly when a repair would leave it as it is; and then both
      measure the same. */
  lemma {:induction false} DetectIffUnchanged(ctx: Context, d: Decl)
    requires ValidContext(ctx)
    ensures
      var detected, fixed := InfoOfDecl(ctx, Detect, d), InfoOfDecl(ctx, Fix, d);
      && (detected.Some? <==> fixed.Some? && fixed.value.decl == d)
      && (detected.Some? ==> detected == fixed)
    decreases d, 0
  {
    match d.ty
    case ArrayDecl(_, inner) => NodeUnchanged(ctx, inner);
    case TypeDecl(_) => NodeUnchanged(ctx, d.ty);
    case _ =>
  }

  lemma {:induction false} NodeUnchanged(ctx: Context, node: Type)
    requires ValidContext(ctx)
    ensures
      var detected, fixed := InfoOfTypeDecl(ctx, Detect, node), InfoOfTypeDecl(ctx, Fix, node);
      && (detected.Some? <==> fixed.Some? && fixed.value.ty == node)
      && (detected.Some? ==> detected == fixed)
    decreases node, 0
  {
    match node
    case TypeDecl(c) => TypeUnchanged(ctx, c);
    case PtrDecl(c) => TypeUnchanged(ctx, c);
    case ArrayDecl(_, c) => TypeUnchanged(ctx, c);
    case _ =>
  }

  lemma {:induction false} TypeUnchanged(ctx: Context, c: Type)
    requires ValidContext(ctx)
    ensures
      var detected, fixed := InfoOfType(ctx, Detect, c), InfoOfType(ctx, Fix, c);
      && (detected.Some? <==> fixed.Some? && fixed.value.ty == c)
      && (detected.Some? ==> detected == fixed)
    decreases c, 1
  {
    match c
    case Struct(decls) =>
      MembersUnchanged(ctx, decls);
      StructTypeUnchanged(ctx, decls);
    case Union(decls) =>
      MembersUnchanged(ctx, decls);
      UnionTypeUnchanged(ctx, decls);
    case TypeDecl(_) => NodeUnchanged(ctx, c);
    case _ =>
  }

  /** What is to be shown of a list of declarations. */
  ghost predicate SameIfUnchanged(ctx: Context, decls: seq<Decl>)
    requires ValidContext(ctx)
  {
    var detected, fixed := InfoOfMembers(ctx, Detect, decls), InfoOfMembers(ctx, Fix, decls);
    && (detected.Some? <==> fixed.Some? && DeclsOf(fixed.value) == decls)
    && (detected.Some? ==> detected == fixed)
  }

  lemma StructTypeUnchanged(ctx: Context, decls: seq<Decl>)
    requires ValidContext(ctx) && SameIfUnchanged(ctx, decls)
    ensures
      var detected, fixed := InfoOfType(ctx, Detect, Struct(decls)), InfoOfType(ctx, Fix, Struct(decls));
      && (detected.Some? <==> fixed.Some? && fixed.value.ty == Struct(decls))
      && (detected.Some? ==> detected == fixed)
  {
    var ms := InfoOfMembers(ctx, Fix, decls);
    if ms.Some? {
      StructUnchanged(ms.value);
    }
  }

  lemma UnionTypeUnchanged(ctx: Context, decls: seq<Decl>)
    requires ValidContext(ctx) && SameIfUnchanged(ctx, decls)
    ensures
      var detected, fixed := InfoOfType(ctx, Detect, Union(decls)), InfoOfType(ctx, Fix, Union(decls));
      && (detected.Some? <==> fixed.Some? && fixed.value.ty == Union(decls))
      && (detected.Some? ==> detected == fixed)
  {
    var ms := InfoOfMembers(ctx, Fix, decls);
    if ms.Some? {
      UnionUnchanged(ms.value);
    }
  }

  lemma {:induction false} MembersUnchanged(ctx: Context, decls: seq<Decl>)
    requires ValidContext(ctx)
    ensures SameIfUnchanged(ctx, decls)
    decreases decls, 0
  {
    if decls != [] {
      var earlier, last := decls[..|decls| - 1], decls[|decls| - 1];
      MembersUnchanged(ctx, earlier);
      DetectIffUnchanged(ctx, last);
      assert decls == earlier + [last];
      var before, m := InfoOfMembers(ctx, Fix, earlier), InfoOfDecl(ctx, Fix, last);
      if before.Some? && m.Some? {
        DeclsSnoc(before.value, m.value);
        if DeclsOf(before.value) + [m.value.decl] == decls {
          assert (DeclsOf(before.value) + [m.value.decl])[..|earlier|] == DeclsOf(before.value);
        }
      }
    }
  }

  lemma DeclsSnoc(ms: seq<Member>, m: Member)
    ensures DeclsOf(ms + [m]) == DeclsOf(ms) + [m.decl]
  {
  }

  // ----- the output of a repair is accepted -----

  /** The declaration of the member is measured as recorded, and left as it is. */
  ghost predicate Stable(ctx: Context, mode: Mode, m: Member)
    requires ValidContext(ctx)
  {
    InfoOfDecl(ctx, mode, m.decl) == Some(m)
  }

  ghost predicate AllStable(ctx: Context, mode: Mode, ms: seq<Member>)
    requires ValidContext(ctx)
  {
    forall i :: 0 <= i < |ms| ==> Stable(ctx, mode, ms[i])
  }

  lemma PadStable(ctx: Context, mode: Mode, size: nat, idx: nat)
    requires ValidContext(ctx) && PadsKnown(ctx) && size > 0
    ensures Stable(ctx, mode, PadMember(size, idx))
  {
    var byte := Ident(["uint8_t"]);
    assert Lookup(["uint8_t"], ctx.infos) == Some(Info(1, 1));
    assert InfoOfType(ctx, mode, byte) == Some(Measured(Info(1, 1), byte));
    assert InfoOfTypeDecl(ctx, mode, TypeDecl(byte)) == Some(Measured(Info(1, 1), TypeDecl(byte)));
  }

  lemma {:induction false} MembersStable(ctx: Context, mode: Mode, ms: seq<Member>)
    requires ValidContext(ctx) && AllStable(ctx, mode, ms)
    ensures InfoOfMembers(ctx, mode, DeclsOf(ms)) == Some(ms)
  {
    if ms != [] {
      var earlier, m := ms[..|ms| - 1], ms[|ms| - 1];
      assert ms == earlier + [m];
      MembersStable(ctx, mode, earlier);
      DeclsSnoc(earlier, m);
      MembersSnoc(ctx, mode, DeclsOf(earlier), earlier, m.decl, m);
    }
  }

  /** The output of a repair, sorted or not, passes detect mode with the same measures. */
  lemma {:induction false} FixIsAccepted(ctx: Context, mode: Mode, d: Decl)
    requires ValidContext(ctx) && PadsKnown(ctx)
    ensures var r := InfoOfDecl(ctx, mode, d); r.Some? ==> InfoOfDecl(ctx, Detect, r.value.decl) == r
    decreases d, 0
  {
    match d.ty
    case ArrayDecl(_, inner) => NodeAccepted(ctx, mode, inner);
    case TypeDecl(_) => NodeAccepted(ctx, mode, d.ty);
    case _ =>
  }

  lemma {:induction false} NodeAccepted(ctx: Context, mode: Mode, node: Type)
    requires ValidContext(ctx) && PadsKnown(ctx)
    ensures var r := InfoOfTypeDecl(ctx, mode, node); r.Some? ==> InfoOfTypeDecl(ctx, Detect, r.value.ty) == r
    decreases node, 0
  {
    match node
    case TypeDecl(c) => TypeAccepted(ctx, mode, c);
    case PtrDecl(c) => TypeAccepted(ctx, mode, c);
    case ArrayDecl(_, c) => TypeAccepted(ctx, mode, c);
    case _ =>
  }

  lemma {:induction false} TypeAccepted(ctx: Context, mode: Mode, c: Type)
    requires ValidContext(ctx) && PadsKnown(ctx)
    ensures var r := InfoOfType(ctx, mode, c); r.Some? ==> InfoOfType(ctx, Detect, r.value.ty) == r
    decreases c, 1
  {
    match c
    case Struct(decls) =>
      MembersAccepted(ctx, mode, decls);
      var ms := InfoOfMembers(ctx, mode, decls);
      if ms.Some? && StructInfo(mode, ms.value).Some? {
        StructAccepted(ctx, mode, ms.value);
      }
    case Union(decls) =>
      MembersAccepted(ctx, mode, decls);
      var ms := InfoOfMembers(ctx, mode, decls);
      if ms.Some? && UnionInfo(mode, ms.value).Some? {
        UnionAccepted(ctx, mode, ms.value);
      }
    case TypeDecl(_) => NodeAccepted(ctx, mode, c);
    case _ =>
  }

  lemma {:induction false} MembersAccepted(ctx: Context, mode: Mode, decls: seq<Decl>)
    requires ValidContext(ctx) && PadsKnown(ctx)
    ensures var r := InfoOfMembers(ctx, mode, decls); r.Some? ==> AllStable(ctx, Detect, r.value)
    decreases decls, 0
  {
    if decls != [] {
      var earlier, last := decls[..|decls| - 1], decls[|decls| - 1];
      MembersAccepted(ctx, mode, earlier);
      FixIsAccepted(ctx, mode, last);
      var r := InfoOfMembers(ctx, mode, decls);
      if r.Some? {
        var before, m := InfoOfMembers(ctx, mode, earlier).value, InfoOfDecl(ctx, mode, last).value;
        assert r.value == before + [m] && Stable(ctx, Detect, m);
        forall i | 0 <= i < |r.value| ensures Stable(ctx, Detect, r.value[i]) {
          assert i < |before| ==> Stable(ctx, Detect, before[i]);
        }
      }
    }
  }

  /** Stable members stay so among the pads inserted between them. */
  lemma PaddedStable(ctx: Context, mode: Mode, pass: Mode, ms: seq<Member>)
    requires ValidContext(ctx) && PadsKnown(ctx) && GoodMembers(ms) && AllStable(ctx, mode, ms)
    requires PadResult(pass, ms).Some?
    ensures AllStable(ctx, mode, PadResult(pass, ms).value)
  {
    var padded := PadResult(pass, ms).value;
    PadResultElements(pass, ms);
    forall i | 0 <= i < |padded| ensures Stable(ctx, mode, padded[i]) {
      assert padded[i] in padded;
      if padded[i] !in ms {
        var idx: nat :| IsPad(padded[i], idx);
        PadStable(ctx, mode, padded[i].size, idx);
      }
    }
  }

  lemma StructOfMembers(ctx: Context, mode: Mode, ms: seq<Member>)
    requires ValidContext(ctx) && GoodMembers(ms) && InfoOfMembers(ctx, mode, DeclsOf(ms)) == Some(ms)
    ensures InfoOfType(ctx, mode, Struct(DeclsOf(ms))) == StructInfo(mode, ms)
  {
  }

  /** What the padding pass returns is padded. */
  lemma PadResultPadded(mode: Mode, ms: seq<Member>)
    requires GoodMembers(ms) && PadResult(mode, ms).Some?
    ensures GoodMembers(PadResult(mode, ms).value) && Padded(PadResult(mode, ms).value) == PadResult(mode, ms).value
  {
    if mode == FixSorted {
      SortedIsGood(ms);
      PaddedIdempotent(Sorted(ms));
    } else {
      PaddedIdempotent(ms);
    }
  }

  lemma StructAccepted(ctx: Context, mode: Mode, ms: seq<Member>)
    requires ValidContext(ctx) && PadsKnown(ctx) && GoodMembers(ms) && AllStable(ctx, Detect, ms)
    requires StructInfo(mode, ms).Some?
    ensures var r := StructInfo(mode, ms); InfoOfType(ctx, Detect, r.value.ty) == r
  {
    var padded := PadResult(mode, ms).value;
    PadResultPadded(mode, ms);
    PaddedStable(ctx, Detect, mode, ms);
    MembersStable(ctx, Detect, padded);
    StructOfMembers(ctx, Detect, padded);
  }

  lemma UnionAccepted(ctx: Context, mode: Mode, ms: seq<Member>)
    requires ValidContext(ctx) && PadsKnown(ctx) && GoodMembers(ms) && AllStable(ctx, Detect, ms)
    requires UnionInfo(mode, ms).Some?
    ensures var r := UnionInfo(mode, ms); InfoOfType(ctx, Detect, r.value.ty) == r
  {
    var all := Overlaid(ms);
    OverlaidIs(mode, ms);
    OverlaidIs(Detect, all);
    OverlaidStable(ctx, Detect, ms);
    MembersStable(ctx, Detect, all);
  }

  lemma OverlaidStable(ctx: Context, mode: Mode, ms: seq<Member>)
    requires ValidContext(ctx) && PadsKnown(ctx) && GoodMembers(ms) && AllStable(ctx, mode, ms)
    ensures AllStable(ctx, mode, Overlaid(ms))
  {
    var all := Overlaid(ms);
    OverlaidIs(mode, ms);
    forall i | 0 <= i < |all| ensures Stable(ctx, mode, all[i]) {
      if i == |ms| {
        PadStable(ctx, mode, all[i].size, 0);
      } else {
        assert all[i] == ms[i];
      }
    }
  }

  /** A repaired declaration measures as the first repair said, and is not changed again. */
  lemma FixIdempotent(ctx: Context, d: Decl)
    requires ValidContext(ctx) && PadsKnown(ctx)
    ensures var r := InfoOfDecl(ctx, Fix, d); r.Some? ==> InfoOfDecl(ctx, Fix, r.value.decl) == r
  {
    FixIsAccepted(ctx, Fix, d);
    var r := InfoOfDecl(ctx, Fix, d);
    if r.Some? {
      DetectIffUnchanged(ctx, r.value.decl);
    }
  }

  // ----- where the checker is wrong -----

  /** A two-dimensional array is measured without its inner dimension: it is measured right, in size
      and alignment, exactly when that makes no difference. */
  lemma NestedArrayMeasured(ctx: Context, names: map<string, Layout>, mode: Mode, name: string, outer: Dim, inner: Dim,
                            c: Type)
    requires ValidContext(ctx) && Matches(ctx, names) && (mode == Detect || PadsKnown(ctx))
    requires WellMeasured(ctx, mode, c)
    requires Elements(ctx.enums, outer).Some? && Elements(ctx.enums, inner).Some? && InfoOfType(ctx, mode, c).Some?
    ensures
      var r := InfoOfDecl(ctx, mode, Decl(name, ArrayDecl(outer, ArrayDecl(inner, c))));
      && r.Some?
      && (MemberFits(ctx, names, r.value) <==>
          NestedMeasured(Elements(ctx.enums, outer).value, Elements(ctx.enums, inner).value,
                         InfoOfType(ctx, mode, c).value.info))
  {
    TypeFits(ctx, names, mode, c);
    var m := InfoOfType(ctx, mode, c).value;
    NestedFit(Elements(ctx.enums, outer).value, Elements(ctx.enums, inner).value,
              LayoutOf(ctx.enums, names, m.ty), m.info);
    ArrayMeasured(ctx, mode, name, outer, ArrayDecl(inner, c), Measured(m.info, ArrayDecl(inner, m.ty)));
    assert LayoutOf(ctx.enums, names, ArrayDecl(inner, m.ty)) ==
      Repeat(Elements(ctx.enums, inner).value, LayoutOf(ctx.enums, names, m.ty));
  }

  /** An array is measured by what its element type is taken to be. */
  lemma ArrayMeasured(ctx: Context, mode: Mode, name: string, outer: Dim, elem: Type, measured: Measured)
    requires ValidContext(ctx) && Elements(ctx.enums, outer).Some?
    requires InfoOfTypeDecl(ctx, mode, elem) == Some(measured)
    ensures
      var info := ArrayInfo(Elements(ctx.enums, outer).value, measured.info);
      InfoOfDecl(ctx, mode, Decl(name, ArrayDecl(outer, elem))) ==
      Some(Member(Decl(name, ArrayDecl(outer, measured.ty)), info.size, info.align))
  {
  }

  /** An array of pointers is measured as an array of what they point to: it is measured right, in
      size and alignment, exactly when that is as large and as aligned as a pointer. */
  lemma PointerArrayMeasured(ctx: Context, names: map<string, Layout>, mode: Mode, name: string, outer: Dim, c: Type)
    requires ValidContext(ctx) && Elements(ctx.enums, outer).Some? && InfoOfType(ctx, mode, c).Some?
    ensures
      var r := InfoOfDecl(ctx, mode, Decl(name, ArrayDecl(outer, PtrDecl(c))));
      && r.Some?
      && (MemberFits(ctx, names, r.value) <==>
          PointersMeasured(Elements(ctx.enums, outer).value, InfoOfType(ctx, mode, c).value.info))
  {
    var m := InfoOfType(ctx, mode, c).value;
    PointersFit(Elements(ctx.enums, outer).value, m.info);
    ArrayMeasured(ctx, mode, name, outer, PtrDecl(c), Measured(m.info, PtrDecl(m.ty)));
    assert LayoutOf(ctx.enums, names, PtrDecl(m.ty)) == ADDRESS_SCALAR;
  }
}
