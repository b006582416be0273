/** A whole header: its type definitions are measured in order, each with those before it known. */
module StructUnit {
  import opened Wrappers
  import opened StructAst
  import opened StructAlignment
  import opened StructLayout
  import opened StructRepair

  datatype Ext = Typedef(name: string, ty: Type) | OtherExt

  datatype Unit = Unit(ctx: Context, exts: seq<Ext>)

  /** One external declaration; `None` where the source raises. */
  function ProcessOne(mode: Mode, ctx: Context, e: Ext): (r: Option<Unit>)
    requires ValidContext(ctx)
    ensures r.Some? ==> ValidContext(r.value.ctx) && r.value.ctx.enums == ctx.enums && |r.value.exts| == 1
  {
    match e
    case OtherExt => Some(Unit(ctx, [e]))
    case Typedef(name, ty) =>
      if ty.PtrDecl? then
        Some(Unit(ctx.(infos := ctx.infos[name := Info(DEFAULT_ALIGN, DEFAULT_ALIGN)]), [e]))
      else if !ty.TypeDecl? then None
      else
        var m := InfoOfTypeDecl(ctx, mode, ty);
        if m == None then None
        else
          var enumTypes := if ty.inner.Enum? then ctx.enumTypes + {name} else ctx.enumTypes;
          var infos := ctx.infos[name := m.value.info];
          Some(Unit(ctx.(infos := infos, enumTypes := enumTypes), [Typedef(name, m.value.ty)]))
  }

  ghost function Process(mode: Mode, ctx: Context, exts: seq<Ext>): (r: Option<Unit>)
    requires ValidContext(ctx)
    ensures r.Some? ==> ValidContext(r.value.ctx) && r.value.ctx.enums == ctx.enums && |r.value.exts| == |exts|
  {
    if exts == [] then Some(Unit(ctx, []))
    else
      var earlier := Process(mode, ctx, exts[..|exts| - 1]);
      if earlier == None then None
      else
        var last := ProcessOne(mode, earlier.value.ctx, exts[|exts| - 1]);
        if last == None then None else Some(Unit(last.value.ctx, earlier.value.exts + last.value.exts))
  }

  method Analyze(mode: Mode, ctx: Context, exts: seq<Ext>) returns (r: Option<Unit>)
    requires ValidContext(ctx)
    ensures r == Process(mode, ctx, exts)
  {
    var known, out := ctx, [];
    for i := 0 to |exts|
      invariant ValidContext(known) && Process(mode, ctx, exts[..i]) == Some(Unit(known, out))
    {
      assert exts[..i + 1][..i] == exts[..i];
      var one := ProcessOne(mode, known, exts[i]);
      if one == None {
        StaysNone(mode, ctx, exts, i + 1);
        return None;
      }
      known, out := one.value.ctx, out + one.value.exts;
    }
    assert exts[..|exts|] == exts;
    return Some(Unit(known, out));
  }

  lemma {:induction false} StaysNone(mode: Mode, ctx: Context, exts: seq<Ext>, i: nat)
    requires ValidContext(ctx) && i <= |exts| && Process(mode, ctx, exts[..i]) == None
    ensures Process(mode, ctx, exts) == None
    decreases |exts| - i
  {
    if i == |exts| {
      assert exts[..i] == exts;
    } else {
      assert exts[..i + 1][..i] == exts[..i];
      StaysNone(mode, ctx, exts, i + 1);
    }
  }

  /** The layouts of the type names after the definitions of a processed header. */
  ghost function NamesAfter(enums: map<string, int>, names: map<string, Layout>, exts: seq<Ext>): map<string, Layout> {
    if exts == [] then names
    else NamesStep(enums, NamesAfter(enums, names, exts[..|exts| - 1]), exts[|exts| - 1])
  }

  ghost function NamesStep(enums: map<string, int>, names: map<string, Layout>, e: Ext): map<string, Layout> {
    match e
    case Typedef(name, ty) => names[name := LayoutOf(enums, names, ty)]
    case OtherExt => names
  }

  /** Whether a type has a struct or a union, into which pads may have to be inserted. */
  ghost predicate HasAggregate(ty: Type) {
    match ty
    case TypeDecl(c) => HasAggregate(c)
    case PtrDecl(c) => HasAggregate(c)
    case ArrayDecl(_, c) => HasAggregate(c)
    case Struct(_) => true
    case Union(_) => true
    case _ => false
  }

  /** Other types are measured alike in all modes. */
  lemma {:induction false} ModeIsIrrelevant(ctx: Context, mode: Mode, ty: Type)
    requires ValidContext(ctx) && !HasAggregate(ty)
    ensures WellMeasured(ctx, mode, ty) == WellMeasured(ctx, Detect, ty)
    ensures InfoOfType(ctx, mode, ty) == InfoOfType(ctx, Detect, ty)
    ensures InfoOfTypeDecl(ctx, mode, ty) == InfoOfTypeDecl(ctx, Detect, ty)
  {
    match ty
    case TypeDecl(c) => ModeIsIrrelevant(ctx, mode, c);
    case PtrDecl(c) => ModeIsIrrelevant(ctx, mode, c);
    case ArrayDecl(_, c) =>
      ModeIsIrrelevant(ctx, mode, c);
      if !c.TypeDecl? && (c.PtrDecl? || c.ArrayDecl?) {
        ModeIsIrrelevant(ctx, mode, c.inner);
      } else if c.TypeDecl? {
        ModeIsIrrelevant(ctx, mode, c.inner);
      }
    case _ =>
  }

  /** Where a definition may get pads, their byte type is known. */
  ghost predicate BytesReady(ctx: Context, e: Ext) {
    e.Typedef? ==> !HasAggregate(e.ty) || PadsKnown(ctx)
  }

  ghost predicate BytesReadyAt(mode: Mode, ctx: Context, exts: seq<Ext>, i: nat)
    requires ValidContext(ctx) && i < |exts|
  {
    var r := Process(mode, ctx, exts[..i]);
    r.Some? ==> BytesReady(r.value.ctx, exts[i])
  }

  // ----- the modes on a whole header -----

  /** Detect mode accepts a header exactly if a repair would leave it as it is. */
  lemma {:induction false} UnitDetectIffUnchanged(ctx: Context, exts: seq<Ext>)
    requires ValidContext(ctx)
    ensures
      var detected, fixed := Process(Detect, ctx, exts), Process(Fix, ctx, exts);
      && (detected.Some? <==> fixed.Some? && fixed.value.exts == exts)
      && (detected.Some? ==> detected == fixed)
  {
    if exts != [] {
      var n := |exts| - 1;
      UnitDetectIffUnchanged(ctx, exts[..n]);
      var fixed := Process(Fix, ctx, exts[..n]);
      if fixed.Some? {
        OneDetectIffUnchanged(fixed.value.ctx, exts[n]);
        LastExt(Fix, ctx, exts);
      }
    }
  }

  lemma OneDetectIffUnchanged(ctx: Context, e: Ext)
    requires ValidContext(ctx)
    ensures
      var detected, fixed := ProcessOne(Detect, ctx, e), ProcessOne(Fix, ctx, e);
      && (detected.Some? <==> fixed.Some? && fixed.value.exts == [e])
      && (detected.Some? ==> detected == fixed)
  {
    if e.Typedef? && e.ty.TypeDecl? {
      NodeUnchanged(ctx, e.ty);
    }
  }

  /** A header comes out unchanged exactly if its last part does and all before it. */
  lemma LastExt(mode: Mode, ctx: Context, exts: seq<Ext>)
    requires ValidContext(ctx) && exts != []
    ensures
      var n, r := |exts| - 1, Process(mode, ctx, exts);
      r.Some? ==>
        var earlier := Process(mode, ctx, exts[..n]).value;
        var last := ProcessOne(mode, earlier.ctx, exts[n]).value;
        && r.value.exts == earlier.exts + last.exts
        && (r.value.exts == exts <==> earlier.exts == exts[..n] && last.exts == [exts[n]])
  {
    var n, r := |exts| - 1, Process(mode, ctx, exts);
    if r.Some? {
      var earlier := Process(mode, ctx, exts[..n]).value;
      var last := ProcessOne(mode, earlier.ctx, exts[n]).value;
      SplitLast(exts, earlier.exts, last.exts);
    }
  }

  lemma SplitLast(exts: seq<Ext>, front: seq<Ext>, back: seq<Ext>)
    requires exts != [] && |front| == |exts| - 1
    ensures front + back == exts <==> front == exts[..|exts| - 1] && back == [exts[|exts| - 1]]
  {
    var n := |exts| - 1;
    assert exts == exts[..n] + [exts[n]] && exts[n..] == [exts[n]];
    assert (front + back)[..n] == front && (front + back)[n..] == back;
  }

  /** The output of a repair of a header, sorted or not, passes detect mode with the same measures. */
  lemma {:induction false} UnitFixIsAccepted(mode: Mode, ctx: Context, exts: seq<Ext>)
    requires ValidContext(ctx) && forall i :: 0 <= i < |exts| ==> BytesReadyAt(mode, ctx, exts, i)
    ensures var r := Process(mode, ctx, exts); r.Some? ==> Process(Detect, ctx, r.value.exts) == r
  {
    if exts != [] {
      var n := |exts| - 1;
      forall i | 0 <= i < n ensures BytesReadyAt(mode, ctx, exts[..n], i) {
        assert BytesReadyAt(mode, ctx, exts, i) && exts[..n][..i] == exts[..i];
      }
      UnitFixIsAccepted(mode, ctx, exts[..n]);
      assert BytesReadyAt(mode, ctx, exts, n);
      LastIsAccepted(mode, ctx, exts);
    }
  }

  lemma LastIsAccepted(mode: Mode, ctx: Context, exts: seq<Ext>)
    requires ValidContext(ctx) && exts != [] && BytesReadyAt(mode, ctx, exts, |exts| - 1)
    requires var r := Process(mode, ctx, exts[..|exts| - 1]); r.Some? ==> Process(Detect, ctx, r.value.exts) == r
    ensures var r := Process(mode, ctx, exts); r.Some? ==> Process(Detect, ctx, r.value.exts) == r
  {
    var n, r := |exts| - 1, Process(mode, ctx, exts);
    if r.Some? {
      var earlier := Process(mode, ctx, exts[..n]).value;
      OneFixIsAccepted(mode, earlier.ctx, exts[n]);
      ProcessSnoc(Detect, ctx, earlier.exts, ProcessOne(mode, earlier.ctx, exts[n]).value.exts[0]);
    }
  }

  lemma ProcessSnoc(mode: Mode, ctx: Context, exts: seq<Ext>, e: Ext)
    requires ValidContext(ctx) && Process(mode, ctx, exts).Some?
    ensures
      var earlier := Process(mode, ctx, exts).value;
      var last := ProcessOne(mode, earlier.ctx, e);
      Process(mode, ctx, exts + [e]) ==
      if last == None then None else Some(Unit(last.value.ctx, earlier.exts + last.value.exts))
  {
    assert (exts + [e])[..|exts|] == exts;
  }

  lemma OneFixIsAccepted(mode: Mode, ctx: Context, e: Ext)
    requires ValidContext(ctx) && BytesReady(ctx, e)
    ensures var r := ProcessOne(mode, ctx, e); r.Some? ==> ProcessOne(Detect, ctx, r.value.exts[0]) == r
  {
    if e.Typedef? && e.ty.TypeDecl? {
      if PadsKnown(ctx) {
        NodeAccepted(ctx, mode, e.ty);
      } else {
        ModeIsIrrelevant(ctx, mode, e.ty);
        NodeUnchanged(ctx, e.ty);
      }
      EnumStays(ctx, mode, e.ty);
    }
  }

  /** A repair keeps enumerations what they are. */
  lemma EnumStays(ctx: Context, mode: Mode, node: Type)
    requires ValidContext(ctx) && node.TypeDecl?
    ensures
      var r := InfoOfTypeDecl(ctx, mode, node);
      r.Some? ==> r.value.ty.TypeDecl? && (r.value.ty.inner.Enum? <==> node.inner.Enum?)
  {
    match node.inner
    case TypeDecl(_) =>
      var inner := InfoOfTypeDecl(ctx, mode, node.inner);
      assert inner.Some? ==> inner.value.ty.TypeDecl?;
    case Struct(decls) =>
      var r := InfoOfType(ctx, mode, node.inner);
      assert r.Some? ==> r.value.ty.Struct?;
    case Union(decls) =>
      var r := InfoOfType(ctx, mode, node.inner);
      assert r.Some? ==> r.value.ty.Union?;
    case _ =>
  }

  /** Repairing a header twice is repairing it once. */
  lemma UnitFixIdempotent(ctx: Context, exts: seq<Ext>)
    requires ValidContext(ctx) && forall i :: 0 <= i < |exts| ==> BytesReadyAt(Fix, ctx, exts, i)
    ensures var r := Process(Fix, ctx, exts); r.Some? ==> Process(Fix, ctx, r.value.exts) == r
  {
    UnitFixIsAccepted(Fix, ctx, exts);
    var r := Process(Fix, ctx, exts);
    if r.Some? {
      UnitDetectIffUnchanged(ctx, r.value.exts);
    }
  }

  // ----- the measures of a whole header -----

  /** A definition whose arrays are measured right; where it may get pads, their byte type is known. */
  ghost predicate Measurable(mode: Mode, ctx: Context, e: Ext)
    requires ValidContext(ctx)
  {
    (e.Typedef? ==> WellMeasured(ctx, mode, e.ty)) && (mode == Detect || BytesReady(ctx, e))
  }

  /** Each definition is measurable with what is known when its turn comes. */
  ghost predicate MeasurableAt(mode: Mode, ctx: Context, exts: seq<Ext>, i: nat)
    requires ValidContext(ctx) && i < |exts|
  {
    var r := Process(mode, ctx, exts[..i]);
    r.Some? ==> Measurable(mode, r.value.ctx, exts[i])
  }

  /** Throughout a header that is accepted or repaired, the recorded size of every type is its real
      size, and at a multiple of the recorded alignment every scalar in it is aligned, through all
      nested structs, unions, arrays and type names. */
  lemma {:induction false} UnitFits(mode: Mode, ctx: Context, names: map<string, Layout>, exts: seq<Ext>)
    requires ValidContext(ctx) && Matches(ctx, names)
    requires forall i :: 0 <= i < |exts| ==> MeasurableAt(mode, ctx, exts, i)
    ensures
      var r := Process(mode, ctx, exts);
      r.Some? ==> Matches(r.value.ctx, NamesAfter(ctx.enums, names, r.value.exts))
  {
    if exts != [] {
      var n := |exts| - 1;
      forall i | 0 <= i < n ensures MeasurableAt(mode, ctx, exts[..n], i) {
        assert MeasurableAt(mode, ctx, exts, i) && exts[..n][..i] == exts[..i];
      }
      UnitFits(mode, ctx, names, exts[..n]);
      var r, earlier := Process(mode, ctx, exts), Process(mode, ctx, exts[..n]);
      if r.Some? {
        assert MeasurableAt(mode, ctx, exts, n);
        var known := NamesAfter(ctx.enums, names, earlier.value.exts);
        OneFits(mode, earlier.value.ctx, known, exts[n]);
        assert r.value.exts[..n] == earlier.value.exts;
        assert r.value.exts[n] == ProcessOne(mode, earlier.value.ctx, exts[n]).value.exts[0];
      }
    }
  }

  lemma OneFits(mode: Mode, ctx: Context, names: map<string, Layout>, e: Ext)
    requires ValidContext(ctx) && Matches(ctx, names) && Measurable(mode, ctx, e)
    ensures
      var r := ProcessOne(mode, ctx, e);
      r.Some? ==> Matches(r.value.ctx, NamesStep(ctx.enums, names, r.value.exts[0]))
  {
    if e.Typedef? && e.ty.TypeDecl? {
      if mode == Detect || PadsKnown(ctx) {
        TypeDeclFits(ctx, names, mode, e.ty);
      } else {
        ModeIsIrrelevant(ctx, mode, e.ty);
        TypeDeclFits(ctx, names, Detect, e.ty);
      }
    }
  }

  ghost function BaseLayouts(): map<string, Layout> {
    map["char" := Scalar(1, 1), "short" := Scalar(2, 2), "int" := Scalar(4, 4), "long" := Scalar(8, 4)]
  }

  /** The built-in types match their layouts. */
  lemma BaseMatches(enums: map<string, int>)
    ensures ValidContext(Context(BASE, enums, {})) && Matches(Context(BASE, enums, {}), BaseLayouts())
  {
  }

  /** So it is for a header on its own. */
  lemma HeaderFits(mode: Mode, enums: map<string, int>, exts: seq<Ext>)
    requires ValidContext(Context(BASE, enums, {}))
    requires forall i :: 0 <= i < |exts| ==> MeasurableAt(mode, Context(BASE, enums, {}), exts, i)
    ensures
      var r := Process(mode, Context(BASE, enums, {}), exts);
      r.Some? ==> Matches(r.value.ctx, NamesAfter(enums, BaseLayouts(), r.value.exts))
  {
    BaseMatches(enums);
    UnitFits(mode, Context(BASE, enums, {}), BaseLayouts(), exts);
  }

  /** A header that defines `uint8_t` as a byte before it uses a struct or a union, and not again, has
      the byte type known when it may be needed. */
  lemma ByteKnownInTime(mode: Mode, enums: map<string, int>, rest: seq<Ext>, i: nat)
    requires i <= |rest| && forall j :: 0 <= j < |rest| && rest[j].Typedef? ==> rest[j].name != "uint8_t"
    ensures
      var ctx := Context(BASE, enums, {});
      && ValidContext(ctx)
      && var r := Process(mode, ctx, [BYTE] + rest[..i]);
         r.Some? ==> PadsKnown(r.value.ctx)
  {
    BaseMatches(enums);
    ByteStays(mode, enums, rest, i);
  }

  const BYTE := Typedef("uint8_t", TypeDecl(Ident(["unsigned", "char"])))

  lemma {:induction false} ByteStays(mode: Mode, enums: map<string, int>, rest: seq<Ext>, i: nat)
    requires i <= |rest| && forall j :: 0 <= j < |rest| && rest[j].Typedef? ==> rest[j].name != "uint8_t"
    requires ValidContext(Context(BASE, enums, {}))
    ensures var r := Process(mode, Context(BASE, enums, {}), [BYTE] + rest[..i]); r.Some? ==> PadsKnown(r.value.ctx)
  {
    var exts := [BYTE] + rest[..i];
    if i == 0 {
      ByteIsKnown(mode, enums);
      assert exts == [BYTE];
    } else {
      ByteStays(mode, enums, rest, i - 1);
      assert exts[..|exts| - 1] == [BYTE] + rest[..i - 1] && exts[|exts| - 1] == rest[i - 1];
    }
  }

  lemma ByteIsKnown(mode: Mode, enums: map<string, int>)
    requires ValidContext(Context(BASE, enums, {}))
    ensures var r := Process(mode, Context(BASE, enums, {}), [BYTE]); r.Some? && PadsKnown(r.value.ctx)
  {
    var ctx := Context(BASE, enums, {});
    assert [BYTE][..0] == [];
    assert Lookup(["unsigned", "char"], BASE) == Some(Info(1, 1)) by {
      assert ["unsigned", "char"][1..] == ["char"];
    }
    assert InfoOfType(ctx, mode, Ident(["unsigned", "char"])) ==
      Some(Measured(Info(1, 1), Ident(["unsigned", "char"])));
    assert ProcessOne(mode, ctx, BYTE).Some?;
  }
}
