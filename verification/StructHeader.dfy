/** Sorted repairs of whole headers: exactly when a second one changes nothing. */
module StructHeader {
  import opened Wrappers
  import opened StructAst
  import opened StructPadding
  import opened StructAlignment
  import opened StructLayout
  import opened StructRepair
  import opened StructResort
  import opened StructUnit

  /** The definition settles, with what is known when its turn comes. */
  ghost predicate SettlesAt(ctx: Context, exts: seq<Ext>, i: nat)
    requires ValidContext(ctx) && i < |exts|
  {
    var r := Process(FixSorted, ctx, exts[..i]);
    r.Some? ==> SettlesExt(r.value.ctx, exts[i])
  }

  ghost predicate SettlesExt(ctx: Context, e: Ext)
    requires ValidContext(ctx)
  {
    e.Typedef? && e.ty.TypeDecl? ==> SettlesNode(ctx, e.ty)
  }

  /** A type without structs and unions settles. */
  lemma {:induction false} PlainSettles(ctx: Context, ty: Type)
    requires ValidContext(ctx) && !HasAggregate(ty)
    ensures SettlesType(ctx, ty) && SettlesNode(ctx, ty)
  {
    match ty
    case TypeDecl(c) => PlainSettles(ctx, c);
    case PtrDecl(c) => PlainSettles(ctx, c);
    case ArrayDecl(_, c) => PlainSettles(ctx, c);
    case _ =>
  }

  /** What a repair makes of one definition, it makes again exactly if the definition settles. */
  lemma OneExactly(ctx: Context, e: Ext)
    requires ValidContext(ctx) && BytesReady(ctx, e)
    ensures
      var r := ProcessOne(FixSorted, ctx, e);
      r.Some? ==> (ProcessOne(FixSorted, ctx, r.value.exts[0]) == r <==> SettlesExt(ctx, e))
  {
    if e.Typedef? && e.ty.TypeDecl? {
      EnumStays(ctx, FixSorted, e.ty);
      if PadsKnown(ctx) {
        NodeExactly(ctx, e.ty);
        SameMeasure(ctx, e.name, InfoOfTypeDecl(ctx, FixSorted, e.ty), e.ty.inner.Enum?);
      } else {
        PlainSettles(ctx, e.ty);
        ModeIsIrrelevant(ctx, FixSorted, e.ty);
        NodeUnchanged(ctx, e.ty);
      }
    }
  }

  /** Two repairs of a definition give the same exactly if they measure the same. */
  lemma SameMeasure(ctx: Context, name: string, m: Option<Measured>, isEnum: bool)
    requires ValidContext(ctx)
    requires m.Some? ==> m.value.ty.TypeDecl? && (m.value.ty.inner.Enum? <==> isEnum)
    ensures m.Some? ==>
      var enumTypes := if isEnum then ctx.enumTypes + {name} else ctx.enumTypes;
      var infos, e := ctx.infos[name := m.value.info], Typedef(name, m.value.ty);
      ProcessOne(FixSorted, ctx, e) == Some(Unit(ctx.(infos := infos, enumTypes := enumTypes), [e])) <==>
      InfoOfTypeDecl(ctx, FixSorted, m.value.ty) == m
  {
    if m.Some? {
      var again := InfoOfTypeDecl(ctx, FixSorted, m.value.ty);
      EnumStays(ctx, FixSorted, m.value.ty);
      if again.Some? {
        assert ctx.infos[name := again.value.info][name] == again.value.info;
        assert ctx.infos[name := m.value.info][name] == m.value.info;
      }
    }
  }

  /** If a repaired definition comes out of a second repair as it was, so do its measures. */
  lemma OneSameAgain(ctx: Context, e: Ext)
    requires ValidContext(ctx) && BytesReady(ctx, e) && ProcessOne(FixSorted, ctx, e).Some?
    ensures
      var r := ProcessOne(FixSorted, ctx, e).value;
      var again := ProcessOne(FixSorted, ctx, r.exts[0]);
      again.Some? && again.value.exts == r.exts ==> again == Some(r)
  {
    var r := ProcessOne(FixSorted, ctx, e).value;
    if e.Typedef? && e.ty.TypeDecl? {
      OneFixIsAccepted(FixSorted, ctx, e);
      EnumStays(ctx, FixSorted, e.ty);
      if PadsKnown(ctx) {
        OneFixIsAccepted(FixSorted, ctx, r.exts[0]);
      } else {
        ModeIsIrrelevant(ctx, FixSorted, e.ty);
        NodeUnchanged(ctx, e.ty);
      }
    }
  }

  /** If a repaired header comes out of a second repair as it was, so do its measures. */
  lemma {:induction false} UnitSameAgain(ctx: Context, exts: seq<Ext>)
    requires ValidContext(ctx) && forall i :: 0 <= i < |exts| ==> BytesReadyAt(FixSorted, ctx, exts, i)
    ensures
      var r := Process(FixSorted, ctx, exts);
      r.Some? ==>
        var again := Process(FixSorted, ctx, r.value.exts);
        again.Some? && again.value.exts == r.value.exts ==> again == r
  {
    if exts != [] {
      var n := |exts| - 1;
      ReadyBefore(ctx, exts, exts[..n]);
      UnitSameAgain(ctx, exts[..n]);
      assert BytesReadyAt(FixSorted, ctx, exts, n);
      var r := Process(FixSorted, ctx, exts);
      if r.Some? {
        var earlier := Process(FixSorted, ctx, exts[..n]).value;
        OneSameAgain(earlier.ctx, exts[n]);
        AgainSplits(ctx, earlier, ProcessOne(FixSorted, earlier.ctx, exts[n]).value);
      }
    }
  }

  lemma ReadyBefore(ctx: Context, exts: seq<Ext>, front: seq<Ext>)
    requires ValidContext(ctx) && front <= exts && forall i :: 0 <= i < |exts| ==> BytesReadyAt(FixSorted, ctx, exts, i)
    ensures forall i :: 0 <= i < |front| ==> BytesReadyAt(FixSorted, ctx, front, i)
  {
    forall i | 0 <= i < |front| ensures BytesReadyAt(FixSorted, ctx, front, i) {
      assert BytesReadyAt(FixSorted, ctx, exts, i) && front[..i] == exts[..i];
    }
  }

  /** The second repair of a header is that of its front, and then of its last definition; it changes
      nothing exactly if neither does, provided that measures follow the text. */
  lemma AgainSplits(ctx: Context, front: Unit, last: Unit)
    requires ValidContext(ctx) && ValidContext(front.ctx) && |last.exts| == 1
    requires
      var again := Process(FixSorted, ctx, front.exts);
      again.Some? && again.value.exts == front.exts ==> again == Some(front)
    ensures
      var whole := Some(Unit(last.ctx, front.exts + last.exts));
      var again := Process(FixSorted, ctx, front.exts + last.exts);
      && (again == whole <==>
          && Process(FixSorted, ctx, front.exts) == Some(front)
          && ProcessOne(FixSorted, front.ctx, last.exts[0]) == Some(last))
      && (again.Some? && again.value.exts == front.exts + last.exts ==>
          var one := ProcessOne(FixSorted, front.ctx, last.exts[0]);
          && Process(FixSorted, ctx, front.exts) == Some(front)
          && one.Some? && one.value.exts == last.exts && again.value.ctx == one.value.ctx)
  {
    var all := front.exts + last.exts;
    assert all[..|front.exts|] == front.exts && all[|front.exts|] == last.exts[0];
    var before := Process(FixSorted, ctx, front.exts);
    if before.Some? {
      var one := ProcessOne(FixSorted, before.value.ctx, last.exts[0]);
      if one.Some? {
        SameParts(before.value.exts, one.value.exts, front.exts, last.exts);
      }
    }
  }

  lemma SameParts(a: seq<Ext>, b: seq<Ext>, a': seq<Ext>, b': seq<Ext>)
    requires |a| == |a'|
    ensures a + b == a' + b' <==> a == a' && b == b'
  {
    if a + b == a' + b' {
      assert (a + b)[..|a|] == a && (a' + b')[..|a|] == a' && (a + b)[|a|..] == b && (a' + b')[|a|..] == b';
    }
  }

  /** A second sorted repair leaves a header as it is exactly when each of its definitions settles. */
  lemma {:induction false} UnitSortedExactly(ctx: Context, exts: seq<Ext>)
    requires ValidContext(ctx) && forall i :: 0 <= i < |exts| ==> BytesReadyAt(FixSorted, ctx, exts, i)
    ensures
      var r := Process(FixSorted, ctx, exts);
      r.Some? ==>
        (Process(FixSorted, ctx, r.value.exts) == r <==> forall i :: 0 <= i < |exts| ==> SettlesAt(ctx, exts, i))
  {
    var r := Process(FixSorted, ctx, exts);
    if exts != [] && r.Some? {
      var n := |exts| - 1;
      ReadyBefore(ctx, exts, exts[..n]);
      UnitSortedExactly(ctx, exts[..n]);
      UnitSameAgain(ctx, exts[..n]);
      assert BytesReadyAt(FixSorted, ctx, exts, n);
      var earlier := Process(FixSorted, ctx, exts[..n]).value;
      OneExactly(earlier.ctx, exts[n]);
      AgainSplits(ctx, earlier, ProcessOne(FixSorted, earlier.ctx, exts[n]).value);
      SettlesBefore(ctx, exts);
    }
  }

  lemma SettlesBefore(ctx: Context, exts: seq<Ext>)
    requires ValidContext(ctx) && exts != []
    ensures
      var n := |exts| - 1;
      var front := exts[..n];
      (forall i :: 0 <= i < |exts| ==> SettlesAt(ctx, exts, i)) <==>
      (forall i :: 0 <= i < n ==> SettlesAt(ctx, front, i)) && SettlesAt(ctx, exts, n)
  {
    var n := |exts| - 1;
    forall i | 0 <= i < n ensures SettlesAt(ctx, exts[..n], i) <==> SettlesAt(ctx, exts, i) {
      assert exts[..n][..i] == exts[..i];
    }
  }
}
