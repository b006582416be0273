/** Where the scalars of a type really lie in memory, defined without regard to the checker: packed
    structs, overlapping unions, arrays element by element.  Against it, the checker's results. */
module StructLayout {
  import opened Wrappers
  import opened StructAst
  import opened StructPadding
  import opened StructAlignment

  datatype Layout =
    | Scalar(size: int, align: int)
    | Repeat(count: int, elem: Layout)
    | Sequence(members: seq<Layout>)
    | Overlay(members: seq<Layout>)

  /** The layout of a type, given those of the type names. */
  ghost function LayoutOf(enums: map<string, int>, names: map<string, Layout>, ty: Type): Layout
    decreases ty, 0
  {
    match ty
    case TypeDecl(c) => LayoutOf(enums, names, c)
    case PtrDecl(_) => Scalar(DEFAULT_ALIGN, DEFAULT_ALIGN)
    case ArrayDecl(dim, c) =>
      var num := Elements(enums, dim);
      Repeat(if num == None then 0 else num.value, LayoutOf(enums, names, c))
    case Ident(ns) => var l := Lookup(ns, names); if l == None then Scalar(0, 1) else l.value
    case Enum => Scalar(DEFAULT_ALIGN, DEFAULT_ALIGN)
    case Struct(decls) => Sequence(LayoutsOf(enums, names, decls))
    case Union(decls) => Overlay(LayoutsOf(enums, names, decls))
    case OtherType => Scalar(0, 1)
  }

  ghost function LayoutsOf(enums: map<string, int>, names: map<string, Layout>, decls: seq<Decl>): (r: seq<Layout>)
    ensures |r| == |decls|
    decreases decls, 0
  {
    if decls == [] then []
    else LayoutsOf(enums, names, decls[..|decls| - 1]) + [LayoutOf(enums, names, decls[|decls| - 1].ty)]
  }

  ghost function SizeOf(l: Layout): int
    decreases l, 0
  {
    match l
    case Scalar(s, _) => s
    case Repeat(n, e) => Times(n, SizeOf(e))
    case Sequence(ms) => SumOf(ms)
    case Overlay(ms) => LargestOf(ms)
  }

  ghost function SumOf(ls: seq<Layout>): int
    decreases ls, 0
  {
    if ls == [] then 0 else SumOf(ls[..|ls| - 1]) + SizeOf(ls[|ls| - 1])
  }

  ghost function LargestOf(ls: seq<Layout>): int
    decreases ls, 0
  {
    if ls == [] then 0 else Max(LargestOf(ls[..|ls| - 1]), SizeOf(ls[|ls| - 1]))
  }

  function Times(n: int, size: int): int {
    n * size
  }

  // ----- how long arrays are -----

  /** The size of an array with this dimension. */
  ghost function ArraySize(enums: map<string, int>, names: map<string, Layout>, dim: Dim, c: Type): int {
    SizeOf(LayoutOf(enums, names, ArrayDecl(dim, c)))
  }

  lemma ArraySizeIs(enums: map<string, int>, names: map<string, Layout>, dim: Dim, n: int, c: Type)
    requires Elements(enums, dim) == Some(n)
    ensures ArraySize(enums, names, dim, c) == n * SizeOf(LayoutOf(enums, names, c))
  {
  }

  /** A constant counts elements: none of them have no size, and each one adds its own. */
  lemma ConstantDimension(enums: map<string, int>, names: map<string, Layout>, n: nat, c: Type)
    ensures ArraySize(enums, names, Constant(0), c) == 0
    ensures ArraySize(enums, names, Constant(n + 1), c) ==
      ArraySize(enums, names, Constant(n), c) + SizeOf(LayoutOf(enums, names, c))
  {
    ArraySizeIs(enums, names, Constant(0), 0, c);
    ArraySizeIs(enums, names, Constant(n), n, c);
    ArraySizeIs(enums, names, Constant(n + 1), n + 1, c);
    Distributes(n, 1, SizeOf(LayoutOf(enums, names, c)));
  }

  lemma Distributes(m: int, n: int, size: int)
    ensures (m + n) * size == m * size + n * size
  {
  }

  lemma Associates(m: int, n: int, size: int)
    ensures m * (n * size) == (m * n) * size
  {
  }

  /** A product is an array of arrays. */
  lemma ProductDimension(enums: map<string, int>, names: map<string, Layout>, l: nat, r: nat, c: Type)
    ensures ArraySize(enums, names, Binary('*', l, r), c) ==
      ArraySize(enums, names, Constant(l), ArrayDecl(Constant(r), c))
  {
    ArraySizeIs(enums, names, Binary('*', l, r), l * r, c);
    ArraySizeIs(enums, names, Constant(r), r, c);
    ArraySizeIs(enums, names, Constant(l), l, ArrayDecl(Constant(r), c));
    Associates(l, r, SizeOf(LayoutOf(enums, names, c)));
  }

  /** A sum is two arrays one after the other, and a difference is what the second leaves of the
      first. */
  lemma SumDimension(enums: map<string, int>, names: map<string, Layout>, l: nat, r: nat, c: Type)
    ensures ArraySize(enums, names, Binary('+', l, r), c) ==
      ArraySize(enums, names, Constant(l), c) + ArraySize(enums, names, Constant(r), c)
    ensures ArraySize(enums, names, Binary('-', l, r), c) + ArraySize(enums, names, Constant(r), c) ==
      ArraySize(enums, names, Constant(l), c)
  {
    ArraySizeIs(enums, names, Constant(l), l, c);
    ArraySizeIs(enums, names, Constant(r), r, c);
    ArraySizeIs(enums, names, Binary('+', l, r), l + r, c);
    ArraySizeIs(enums, names, Binary('-', l, r), l - r, c);
    Distributes(l, r, SizeOf(LayoutOf(enums, names, c)));
    Distributes(l - r, r, SizeOf(LayoutOf(enums, names, c)));
  }

  /** An enumeration constant stands for its value; the other dimensions are refused. */
  lemma NamedDimension(enums: map<string, int>, names: map<string, Layout>, n: string, c: Type)
    ensures n in enums && enums[n] >= 0 ==>
      LayoutOf(enums, names, ArrayDecl(EnumConstant(n), c)) == LayoutOf(enums, names, ArrayDecl(Constant(enums[n]), c))
    ensures n in enums && enums[n] < 0 ==>
      LayoutOf(enums, names, ArrayDecl(EnumConstant(n), c)) ==
      LayoutOf(enums, names, ArrayDecl(Binary('-', 0, -enums[n]), c))
  {
  }

  lemma RefusedDimension(enums: map<string, int>, dim: Dim)
    ensures Elements(enums, dim) == None <==>
      match dim
      case Constant(_) => false
      case EnumConstant(n) => n !in enums
      case Binary(op, _, _) => op !in "*+-"
      case OtherDim => true
  {
  }

  /** Every scalar, at any depth and at every array index, is at a multiple of its alignment when
      the whole starts at `base`; and so is the start of every empty array, which is there to be
      cast to other types. */
  ghost predicate Aligned(l: Layout, base: int)
    decreases l, 0
  {
    match l
    case Scalar(_, a) => IsAlign(a) && Mod(base, a) == 0
    case Repeat(n, e) =>
      && (n == 0 ==> Mod(base, DEFAULT_ALIGN) == 0)
      && forall i :: 0 <= i < n ==> Aligned(e, base + Times(i, SizeOf(e)))
    case Sequence(ms) => forall i :: 0 <= i < |ms| ==> Aligned(ms[i], base + SumOf(ms[..i]))
    case Overlay(ms) => forall i :: 0 <= i < |ms| ==> Aligned(ms[i], base)
  }

  /** The measured size is the real one, and at a multiple of the measured alignment all is well. */
  ghost predicate Fits(l: Layout, info: Info) {
    && Good(info.size, info.align)
    && SizeOf(l) == info.size
    && forall base {:trigger Aligned(l, base)} :: IsMultiple(base, info.align) ==> Aligned(l, base)
  }

  ghost predicate IsMultiple(n: int, a: int) {
    IsAlign(a) && Mod(n, a) == 0
  }

  ghost predicate Matches(ctx: Context, names: map<string, Layout>) {
    && ctx.infos.Keys == names.Keys
    && forall n :: n in names ==> Fits(names[n], ctx.infos[n])
  }

  /** An array of `n` pointers is measured as `n` of what they point to, of this size and alignment;
      that is right exactly in these cases. */
  predicate PointersMeasured(n: int, info: Info) {
    n == 0 || (info.size == DEFAULT_ALIGN && (n < 0 || info.align == DEFAULT_ALIGN))
  }

  /** An array of `outer` arrays of `inner` elements is measured as `outer` elements; that is right
      exactly in these cases. */
  predicate NestedMeasured(outer: int, inner: int, info: Info) {
    outer == 0 || ((inner == 1 || info.size == 0) && (outer < 0 || inner != 0 || info.align == DEFAULT_ALIGN))
  }

  /** All arrays of arrays or of pointers are such that they are measured right. */
  ghost predicate WellMeasured(ctx: Context, mode: Mode, ty: Type)
    requires ValidContext(ctx)
    decreases ty, 0
  {
    match ty
    case TypeDecl(c) => WellMeasured(ctx, mode, c)
    case ArrayDecl(dim, TypeDecl(c)) => WellMeasured(ctx, mode, c)
    case ArrayDecl(dim, PtrDecl(c)) =>
      var n, m := Elements(ctx.enums, dim), InfoOfType(ctx, mode, c);
      n.Some? && m.Some? ==> PointersMeasured(n.value, m.value.info)
    case ArrayDecl(dim, ArrayDecl(dim', c)) =>
      var n, n', m := Elements(ctx.enums, dim), Elements(ctx.enums, dim'), InfoOfType(ctx, mode, c);
      && WellMeasured(ctx, mode, c)
      && (n.Some? && m.Some? ==> n'.Some? && NestedMeasured(n.value, n'.value, m.value.info))
    case Struct(decls) => AllWellMeasured(ctx, mode, decls)
    case Union(decls) => AllWellMeasured(ctx, mode, decls)
    case _ => true
  }

  ghost predicate AllWellMeasured(ctx: Context, mode: Mode, decls: seq<Decl>)
    requires ValidContext(ctx)
    decreases decls, 0
  {
    decls == [] ||
    (AllWellMeasured(ctx, mode, decls[..|decls| - 1]) && WellMeasured(ctx, mode, decls[|decls| - 1].ty))
  }

  /** The byte type of the pads is known as one. */
  ghost predicate PadsKnown(ctx: Context) {
    "uint8_t" in ctx.infos && ctx.infos["uint8_t"] == Info(1, 1) && "uint8_t" !in ctx.enumTypes
  }

  ghost predicate MemberFits(ctx: Context, names: map<string, Layout>, m: Member) {
    Fits(LayoutOf(ctx.enums, names, m.decl.ty), Info(m.size, m.align))
  }

  ghost predicate AllFit(ctx: Context, names: map<string, Layout>, ms: seq<Member>) {
    forall i {:trigger MemberFits(ctx, names, ms[i])} :: 0 <= i < |ms| ==> MemberFits(ctx, names, ms[i])
  }

  lemma MultipleOfSmaller(n: int, a: int, b: int)
    requires IsMultiple(n, b) && IsAlign(a) && a <= b
    ensures IsMultiple(n, a)
  {
  }

  lemma MultipleOfSum(x: int, y: int, a: int)
    requires IsMultiple(x, a) && IsMultiple(y, a)
    ensures IsMultiple(x + y, a)
  {
  }

  /** Arrays of fitting elements fit. */
  lemma ArrayFits(num: int, elem: Layout, info: Info)
    requires Fits(elem, info)
    ensures Fits(Repeat(num, elem), ArrayInfo(num, info))
  {
    var whole := ArrayInfo(num, info);
    forall base | IsMultiple(base, whole.align) ensures Aligned(Repeat(num, elem), base) {
      MultipleOfSmaller(base, info.align, whole.align);
      forall i | 0 <= i < num ensures Aligned(elem, base + Times(i, SizeOf(elem))) {
        ArrayIsGood(i, info.size, info.align);
        MultipleOfSum(base, i * info.size, info.align);
      }
    }
  }

  const ADDRESS_SCALAR := Scalar(DEFAULT_ALIGN, DEFAULT_ALIGN)

  lemma PointersFit(n: int, info: Info)
    requires GoodInfo(info)
    ensures Fits(Repeat(n, ADDRESS_SCALAR), ArrayInfo(n, info)) <==> PointersMeasured(n, info)
  {
    ProductOfFour(n, info.size);
    var whole := Repeat(n, ADDRESS_SCALAR);
    assert SizeOf(whole) == n * 4;
    if PointersMeasured(n, info) {
      if n > 0 {
        assert Fits(ADDRESS_SCALAR, info);
        ArrayFits(n, ADDRESS_SCALAR, info);
      } else {
        forall base | IsMultiple(base, ArrayInfo(n, info).align) ensures Aligned(whole, base) {
        }
      }
    } else if n > 0 && info.size == DEFAULT_ALIGN {
      assert IsMultiple(info.align, info.align);
      assert Aligned(whole, info.align) ==> Aligned(ADDRESS_SCALAR, info.align + Times(0, SizeOf(ADDRESS_SCALAR)));
      assert !Aligned(whole, info.align);
    }
  }

  lemma NestedFit(outer: int, inner: int, elem: Layout, info: Info)
    requires Fits(elem, info)
    ensures Fits(Repeat(outer, Repeat(inner, elem)), ArrayInfo(outer, info)) <==> NestedMeasured(outer, inner, info)
  {
    var row := Repeat(inner, elem);
    ProductEqual(outer, inner, info.size);
    assert SizeOf(Repeat(outer, row)) == outer * (inner * info.size);
    if outer > 0 && (inner == 1 || info.size == 0) {
      if inner == 0 && info.align != DEFAULT_ALIGN {
        assert IsMultiple(info.align, info.align);
        assert Aligned(Repeat(outer, row), info.align) ==> Aligned(row, info.align + Times(0, SizeOf(row)));
        assert !Aligned(Repeat(outer, row), info.align);
      } else {
        RowFits(inner, elem, info);
        ArrayFits(outer, row, info);
      }
    } else if outer <= 0 {
      forall base | IsMultiple(base, ArrayInfo(outer, info).align) ensures Aligned(Repeat(outer, row), base) {
      }
    }
  }

  /** A row of one element, or of empty ones, fits like its element. */
  lemma RowFits(inner: int, elem: Layout, info: Info)
    requires Fits(elem, info) && (inner == 1 || info.size == 0) && (inner == 0 ==> info.align == DEFAULT_ALIGN)
    ensures Fits(Repeat(inner, elem), info)
  {
    if inner == 0 {
      forall base | IsMultiple(base, info.align) ensures Aligned(Repeat(inner, elem), base) {
      }
    } else {
      ArrayFits(inner, elem, info);
      assert ArrayInfo(inner, info) == info by {
        assert inner == 1 ==> inner * info.size == info.size;
        assert info.size == 0 ==> inner * info.size == 0;
      }
    }
  }

  lemma ProductZero(x: int, y: int)
    ensures x * y == 0 <==> x == 0 || y == 0
  {
  }

  lemma ProductOfFour(m: int, s: int)
    ensures m * 4 == m * s <==> m == 0 || s == 4
  {
    assert m * s - m * 4 == m * (s - 4);
    ProductZero(m, s - 4);
  }

  lemma ProductEqual(m: int, n: int, s: int)
    ensures m * (n * s) == m * s <==> m == 0 || n == 1 || s == 0
  {
    assert m * (n * s) - m * s == m * ((n - 1) * s);
    ProductZero(m, (n - 1) * s);
    ProductZero(n - 1, s);
  }

  lemma PadFits(ctx: Context, names: map<string, Layout>, size: nat, idx: nat)
    requires Matches(ctx, names) && PadsKnown(ctx) && size > 0
    ensures MemberFits(ctx, names, PadMember(size, idx))
  {
    var byte := LayoutOf(ctx.enums, names, TypeDecl(Ident(["uint8_t"])));
    assert byte == LayoutOf(ctx.enums, names, Ident(["uint8_t"])) == names["uint8_t"];
    ArrayFits(size, byte, Info(1, 1));
  }

  lemma LayoutsSnoc(ctx: Context, names: map<string, Layout>, ms: seq<Member>, m: Member)
    ensures LayoutsOf(ctx.enums, names, DeclsOf(ms + [m])) ==
      LayoutsOf(ctx.enums, names, DeclsOf(ms)) + [LayoutOf(ctx.enums, names, m.decl.ty)]
  {
    assert DeclsOf(ms + [m])[..|ms|] == DeclsOf(ms);
  }

  lemma SequenceSnoc(ls: seq<Layout>, l: Layout)
    ensures SumOf(ls + [l]) == SumOf(ls) + SizeOf(l)
    ensures LargestOf(ls + [l]) == Max(LargestOf(ls), SizeOf(l))
  {
    assert (ls + [l])[..|ls|] == ls;
  }

  lemma {:induction false} SumFits(ctx: Context, names: map<string, Layout>, ms: seq<Member>)
    requires AllFit(ctx, names, ms)
    ensures SumOf(LayoutsOf(ctx.enums, names, DeclsOf(ms))) == TotalSize(ms)
  {
    if ms != [] {
      var earlier, m := ms[..|ms| - 1], ms[|ms| - 1];
      assert ms == earlier + [m] && MemberFits(ctx, names, m);
      SumFits(ctx, names, earlier);
      LayoutsSnoc(ctx, names, earlier, m);
      SequenceSnoc(LayoutsOf(ctx.enums, names, DeclsOf(earlier)), LayoutOf(ctx.enums, names, m.decl.ty));
    }
  }

  /** The layouts of a list of members, one by one. */
  lemma {:induction false} LayoutsAt(ctx: Context, names: map<string, Layout>, ms: seq<Member>, i: nat)
    requires i < |ms|
    ensures LayoutsOf(ctx.enums, names, DeclsOf(ms))[i] == LayoutOf(ctx.enums, names, ms[i].decl.ty)
    ensures LayoutsOf(ctx.enums, names, DeclsOf(ms))[..i] == LayoutsOf(ctx.enums, names, DeclsOf(ms[..i]))
  {
    var n := |ms| - 1;
    assert ms == ms[..n] + [ms[n]];
    LayoutsSnoc(ctx, names, ms[..n], ms[n]);
    if i < n {
      LayoutsAt(ctx, names, ms[..n], i);
      assert ms[..n][..i] == ms[..i];
    }
  }

  lemma LayoutsPlace(ctx: Context, names: map<string, Layout>, ms: seq<Member>, i: nat)
    requires i < |ms| && AllFit(ctx, names, ms)
    ensures SumOf(LayoutsOf(ctx.enums, names, DeclsOf(ms))[..i]) == TotalSize(ms[..i])
  {
    LayoutsAt(ctx, names, ms, i);
    SumFits(ctx, names, ms[..i]);
  }

  /** A member that fits is aligned at its place. */
  lemma PlacedMemberFits(ctx: Context, names: map<string, Layout>, ms: seq<Member>, base: int, align: int, i: nat)
    requires i < |ms| && MemberFits(ctx, names, ms[i]) && PlacedAt(ms, i)
    requires IsMultiple(base, align) && MaxAlign(ms) <= align
    ensures Aligned(LayoutOf(ctx.enums, names, ms[i].decl.ty), base + TotalSize(ms[..i]))
  {
    AlignBelowMax(ms, i);
    MultipleOfSmaller(base, ms[i].align, align);
    MemberAligned(ctx, names, ms[i], base, TotalSize(ms[..i]));
  }

  lemma SequenceMemberFits(ctx: Context, names: map<string, Layout>, ms: seq<Member>, base: int, align: int, i: nat)
    requires i < |ms| && AllFit(ctx, names, ms) && WellPlaced(ms)
    requires IsMultiple(base, align) && MaxAlign(ms) <= align
    ensures AlignedIn(LayoutsOf(ctx.enums, names, DeclsOf(ms)), i, base)
  {
    assert PlacedAt(ms, i) && MemberFits(ctx, names, ms[i]);
    PlacedMemberFits(ctx, names, ms, base, align, i);
    LayoutsAt(ctx, names, ms, i);
    LayoutsPlace(ctx, names, ms, i);
  }

  /** Members that fit, each at its place, fit as a struct. */
  lemma SequenceFits(ctx: Context, names: map<string, Layout>, ms: seq<Member>, base: int, align: int)
    requires AllFit(ctx, names, ms) && WellPlaced(ms)
    requires IsMultiple(base, align) && MaxAlign(ms) <= align
    ensures Aligned(Sequence(LayoutsOf(ctx.enums, names, DeclsOf(ms))), base)
  {
    var ls := LayoutsOf(ctx.enums, names, DeclsOf(ms));
    forall i | 0 <= i < |ls| ensures AlignedIn(ls, i, base) {
      SequenceMemberFits(ctx, names, ms, base, align, i);
    }
    AllAlignedIn(ls, base);
  }

  ghost predicate AlignedIn(ls: seq<Layout>, i: nat, base: int)
    requires i < |ls|
  {
    Aligned(ls[i], base + SumOf(ls[..i]))
  }

  lemma AllAlignedIn(ls: seq<Layout>, base: int)
    requires forall i :: 0 <= i < |ls| ==> AlignedIn(ls, i, base)
    ensures Aligned(Sequence(ls), base)
  {
    forall i | 0 <= i < |ls| ensures Aligned(ls[i], base + SumOf(ls[..i])) {
      assert AlignedIn(ls, i, base);
    }
  }

  lemma {:induction false} AlignBelowMax(ms: seq<Member>, i: nat)
    requires i < |ms|
    ensures ms[i].align <= MaxAlign(ms)
  {
    if i < |ms| - 1 {
      AlignBelowMax(ms[..|ms| - 1], i);
    }
  }

  lemma MemberAligned(ctx: Context, names: map<string, Layout>, m: Member, base: int, offset: int)
    requires MemberFits(ctx, names, m) && IsMultiple(base, m.align) && IsMultiple(offset, m.align)
    ensures Aligned(LayoutOf(ctx.enums, names, m.decl.ty), base + offset)
  {
    MultipleOfSum(base, offset, m.align);
  }

  lemma {:induction false} LargestFits(ctx: Context, names: map<string, Layout>, ms: seq<Member>)
    requires AllFit(ctx, names, ms)
    ensures LargestOf(LayoutsOf(ctx.enums, names, DeclsOf(ms))) == MaxSize(ms)
  {
    if ms != [] {
      var earlier, m := ms[..|ms| - 1], ms[|ms| - 1];
      assert ms == earlier + [m] && MemberFits(ctx, names, m);
      LargestFits(ctx, names, earlier);
      LayoutsSnoc(ctx, names, earlier, m);
      SequenceSnoc(LayoutsOf(ctx.enums, names, DeclsOf(earlier)), LayoutOf(ctx.enums, names, m.decl.ty));
    }
  }

  lemma OverlayMemberFits(ctx: Context, names: map<string, Layout>, ms: seq<Member>, base: int, align: int, i: nat)
    requires i < |ms| && MemberFits(ctx, names, ms[i]) && IsMultiple(base, align) && MaxAlign(ms) <= align
    ensures Aligned(LayoutsOf(ctx.enums, names, DeclsOf(ms))[i], base)
  {
    AlignBelowMax(ms, i);
    MultipleOfSmaller(base, ms[i].align, align);
    MemberAligned(ctx, names, ms[i], base, 0);
    LayoutsAt(ctx, names, ms, i);
  }

  /** Members that fit also fit on top of each other. */
  lemma OverlayFits(ctx: Context, names: map<string, Layout>, ms: seq<Member>, base: int, align: int)
    requires AllFit(ctx, names, ms) && IsMultiple(base, align) && MaxAlign(ms) <= align
    ensures Aligned(Overlay(LayoutsOf(ctx.enums, names, DeclsOf(ms))), base)
  {
    var ls := LayoutsOf(ctx.enums, names, DeclsOf(ms));
    forall i | 0 <= i < |ls| ensures Aligned(ls[i], base) {
      assert MemberFits(ctx, names, ms[i]);
      OverlayMemberFits(ctx, names, ms, base, align, i);
    }
  }

  /** Everything in the padded struct is one of its members or a pad. */
  lemma {:induction false} BodyElements(ms: seq<Member>)
    requires GoodMembers(ms)
    ensures forall m :: m in Body(ms).0 ==> m in ms || exists idx: nat :: IsPad(m, idx)
  {
    BodyContents(ms);
    InsertedArePads(ms);
    forall m | m in Body(ms).0 ensures m in ms || exists idx: nat :: IsPad(m, idx) {
      assert m in multiset(Body(ms).0);
      if m !in ms {
        assert m in multiset(Inserted(ms));
        var i :| 0 <= i < |Inserted(ms)| && Inserted(ms)[i] == m;
        assert IsPad(m, i);
      }
    }
  }

  lemma PadResultElements(mode: Mode, ms: seq<Member>)
    requires GoodMembers(ms) && PadResult(mode, ms).Some?
    ensures forall m :: m in PadResult(mode, ms).value ==>
      m in ms || (mode != Detect && exists idx: nat :: IsPad(m, idx))
  {
    SortedIsGood(ms);
    var sorted := if mode == FixSorted then Sorted(ms) else ms;
    BodyElements(sorted);
    var gap := Gap(TotalSize(Body(sorted).0), MaxAlign(sorted));
    forall m | m in PadResult(mode, ms).value ensures m in ms || (mode != Detect && exists idx: nat :: IsPad(m, idx)) {
      if m in sorted {
        assert m in multiset(sorted);
      } else if m !in Body(sorted).0 {
        assert IsPad(m, Body(sorted).1);
      }
    }
  }

  /** Pads fit like the members they are put between. */
  lemma PaddedFit(ctx: Context, names: map<string, Layout>, mode: Mode, ms: seq<Member>)
    requires Matches(ctx, names) && (mode == Detect || PadsKnown(ctx)) && GoodMembers(ms) && AllFit(ctx, names, ms)
    requires PadResult(mode, ms).Some?
    ensures AllFit(ctx, names, PadResult(mode, ms).value)
  {
    var padded := PadResult(mode, ms).value;
    PadResultElements(mode, ms);
    forall i | 0 <= i < |padded| ensures MemberFits(ctx, names, padded[i]) {
      var m := padded[i];
      assert m in padded;
      if m in ms {
        var j :| 0 <= j < |ms| && ms[j] == m;
        assert MemberFits(ctx, names, ms[j]);
      } else {
        var idx: nat :| IsPad(m, idx);
        PadFits(ctx, names, m.size, idx);
      }
    }
  }

  lemma StructFits(ctx: Context, names: map<string, Layout>, mode: Mode, ms: seq<Member>)
    requires Matches(ctx, names) && (mode == Detect || PadsKnown(ctx)) && GoodMembers(ms) && AllFit(ctx, names, ms)
    ensures var r := StructInfo(mode, ms); r.Some? ==> Fits(LayoutOf(ctx.enums, names, r.value.ty), r.value.info)
  {
    if StructInfo(mode, ms).Some? {
      PaddedFit(ctx, names, mode, ms);
      PadResultIsGood(mode, ms);
      PlacedFits(ctx, names, PadResult(mode, ms).value);
    }
  }

  lemma PlacedFits(ctx: Context, names: map<string, Layout>, ms: seq<Member>)
    requires AllFit(ctx, names, ms) && WellPlaced(ms) && Good(TotalSize(ms), MaxAlign(ms))
    ensures Fits(LayoutOf(ctx.enums, names, Struct(DeclsOf(ms))), Info(TotalSize(ms), MaxAlign(ms)))
  {
    var ls := LayoutsOf(ctx.enums, names, DeclsOf(ms));
    SumFits(ctx, names, ms);
    forall base | IsMultiple(base, MaxAlign(ms)) ensures Aligned(Sequence(ls), base) {
      SequenceFits(ctx, names, ms, base, MaxAlign(ms));
    }
  }

  lemma UnionFits(ctx: Context, names: map<string, Layout>, mode: Mode, ms: seq<Member>)
    requires Matches(ctx, names) && (mode == Detect || PadsKnown(ctx)) && GoodMembers(ms) && AllFit(ctx, names, ms)
    ensures var r := UnionInfo(mode, ms); r.Some? ==> Fits(LayoutOf(ctx.enums, names, r.value.ty), r.value.info)
  {
    var r := UnionInfo(mode, ms);
    if r.Some? {
      var all := Overlaid(ms);
      OverlaidIs(mode, ms);
      forall i | 0 <= i < |all| ensures MemberFits(ctx, names, all[i]) {
        if i == |ms| {
          PadFits(ctx, names, all[i].size, 0);
        } else {
          assert all[i] == ms[i];
        }
      }
      var ls := LayoutsOf(ctx.enums, names, DeclsOf(all));
      assert LayoutOf(ctx.enums, names, r.value.ty) == Overlay(ls);
      LargestFits(ctx, names, all);
      forall base | IsMultiple(base, r.value.info.align) ensures Aligned(Overlay(ls), base) {
        OverlayFits(ctx, names, all, base, MaxAlign(all));
      }
    }
  }

  /** The members of a repaired union. */
  ghost function Overlaid(ms: seq<Member>): (r: seq<Member>)
    requires GoodMembers(ms)
    ensures |ms| <= |r| <= |ms| + 1 && r[..|ms|] == ms
  {
    if Mod(MaxSize(ms), MaxAlign(ms)) == 0 then ms
    else ms + [PadMember(RoundUp(MaxSize(ms), MaxAlign(ms)), 0)]
  }

  lemma OverlaidIs(mode: Mode, ms: seq<Member>)
    requires GoodMembers(ms)
    ensures
      var r, all := UnionInfo(mode, ms), Overlaid(ms);
      && GoodMembers(all)
      && (|all| > |ms| ==> all[|ms|].size > 0 && all[|ms|] == PadMember(all[|ms|].size, 0))
      && MaxAlign(all) == MaxAlign(ms)
      && Good(MaxSize(all), MaxAlign(all))
      && (r.Some? ==> r.value == Measured(Info(MaxSize(all), MaxAlign(all)), Union(DeclsOf(all))))
  {
    var all := Overlaid(ms);
    if |all| > |ms| {
      assert all == ms + [all[|ms|]];
      assert DeclsOf(all) == DeclsOf(ms) + [all[|ms|].decl];
    }
  }

  // ----- the main results -----

  /** Whatever the mode, when the checker accepts or repairs a declaration, its measured size is
      the real size of the result, and at a multiple of the measured alignment every scalar inside
      is aligned. */
  lemma {:induction false} DeclFits(ctx: Context, names: map<string, Layout>, mode: Mode, d: Decl)
    requires ValidContext(ctx) && Matches(ctx, names) && (mode == Detect || PadsKnown(ctx))
    requires WellMeasured(ctx, mode, d.ty)
    ensures var r := InfoOfDecl(ctx, mode, d); r.Some? ==> MemberFits(ctx, names, r.value)
    decreases d, 0
  {
    match d.ty
    case ArrayDecl(dim, elem) =>
      var n, r := Elements(ctx.enums, dim), InfoOfDecl(ctx, mode, d);
      if r.Some? {
        assert InfoOfTypeDecl(ctx, mode, elem).Some?;
        match elem
        case TypeDecl(c) =>
          TypeFits(ctx, names, mode, c);
          var m := InfoOfType(ctx, mode, c).value;
          ArrayFits(n.value, LayoutOf(ctx.enums, names, m.ty), m.info);
        case PtrDecl(c) => PointersFit(n.value, InfoOfType(ctx, mode, c).value.info);
        case ArrayDecl(dim', c) =>
          TypeFits(ctx, names, mode, c);
          var m := InfoOfType(ctx, mode, c).value;
          NestedFit(n.value, Elements(ctx.enums, dim').value, LayoutOf(ctx.enums, names, m.ty), m.info);
        case _ =>
      }
    case TypeDecl(_) => TypeDeclFits(ctx, names, mode, d.ty);
    case _ =>
  }

  lemma {:induction false} TypeDeclFits(ctx: Context, names: map<string, Layout>, mode: Mode, node: Type)
    requires ValidContext(ctx) && Matches(ctx, names) && (mode == Detect || PadsKnown(ctx))
    requires WellMeasured(ctx, mode, node) && node.TypeDecl?
    ensures
      var r := InfoOfTypeDecl(ctx, mode, node);
      r.Some? ==> Fits(LayoutOf(ctx.enums, names, r.value.ty), r.value.info)
    decreases node, 0
  {
    TypeFits(ctx, names, mode, node.inner);
  }

  lemma {:induction false} TypeFits(ctx: Context, names: map<string, Layout>, mode: Mode, c: Type)
    requires ValidContext(ctx) && Matches(ctx, names) && (mode == Detect || PadsKnown(ctx))
    requires WellMeasured(ctx, mode, c)
    ensures var r := InfoOfType(ctx, mode, c); r.Some? ==> Fits(LayoutOf(ctx.enums, names, r.value.ty), r.value.info)
    decreases c, 1
  {
    match c
    case Ident(ns) => LookupMatches(ctx, names, ns);
    case Struct(decls) =>
      MembersFit(ctx, names, mode, decls);
      var ms := InfoOfMembers(ctx, mode, decls);
      if ms.Some? {
        StructFits(ctx, names, mode, ms.value);
      }
    case Union(decls) =>
      MembersFit(ctx, names, mode, decls);
      var ms := InfoOfMembers(ctx, mode, decls);
      if ms.Some? {
        UnionFits(ctx, names, mode, ms.value);
      }
    case TypeDecl(_) => TypeDeclFits(ctx, names, mode, c);
    case _ =>
  }

  lemma {:induction false} MembersFit(ctx: Context, names: map<string, Layout>, mode: Mode, decls: seq<Decl>)
    requires ValidContext(ctx) && Matches(ctx, names) && (mode == Detect || PadsKnown(ctx))
    requires AllWellMeasured(ctx, mode, decls)
    ensures var r := InfoOfMembers(ctx, mode, decls); r.Some? ==> AllFit(ctx, names, r.value)
    decreases decls, 0
  {
    if decls != [] {
      MembersFit(ctx, names, mode, decls[..|decls| - 1]);
      DeclFits(ctx, names, mode, decls[|decls| - 1]);
    }
  }

  lemma {:induction false} LookupMatches(ctx: Context, names: map<string, Layout>, ns: seq<string>)
    requires Matches(ctx, names)
    ensures Lookup(ns, ctx.infos).Some? <==> Lookup(ns, names).Some?
    ensures Lookup(ns, ctx.infos).Some? ==> Fits(Lookup(ns, names).value, Lookup(ns, ctx.infos).value)
  {
    if ns != [] {
      LookupMatches(ctx, names, ns[1..]);
    }
  }
}
