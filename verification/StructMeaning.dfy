/** What a repair does to a declaration: it keeps every member with its name and its type, and adds
    nothing but pads; only a sorted repair changes the order of members, and that of structs only. */
module StructMeaning {
  import opened Wrappers
  import opened StructAst
  import opened StructPadding
  import opened StructAlignment

  /** The list holds the declarations of `a` and those of `b`, each in their own order. */
  ghost predicate Merged(r: seq<Decl>, a: seq<Decl>, b: seq<Decl>) {
    if r == [] then a == [] && b == []
    else
      var front, last := r[..|r| - 1], r[|r| - 1];
      || (a != [] && a[|a| - 1] == last && Merged(front, a[..|a| - 1], b))
      || (b != [] && b[|b| - 1] == last && Merged(front, a, b[..|b| - 1]))
  }

  /** A byte array under one of the names of pads. */
  ghost predicate IsPadDecl(d: Decl) {
    exists size: nat, idx: nat :: d == PadDecl(size, idx)
  }

  ghost predicate AllPads(ds: seq<Decl>) {
    forall i :: 0 <= i < |ds| ==> IsPadDecl(ds[i])
  }

  /** The second type is the first with nothing but pads added, and with the members of structs in
      another order only if they were to be sorted. */
  ghost predicate OnlyPads(mode: Mode, ty: Type, ty': Type)
    decreases ty, 0
  {
    match ty
    case TypeDecl(c) => ty'.TypeDecl? && OnlyPads(mode, c, ty'.inner)
    case PtrDecl(c) => ty' == ty || (ty'.PtrDecl? && OnlyPads(mode, c, ty'.inner))
    case ArrayDecl(dim, c) => ty'.ArrayDecl? && ty'.dim == dim && OnlyPads(mode, c, ty'.inner)
    case Struct(ds) => ty'.Struct? && exists kept, order, pads :: StructKeeps(mode, ds, ty'.decls, kept, order, pads)
    case Union(ds) => ty'.Union? && exists kept, pads :: UnionKeeps(mode, ds, ty'.decls, kept, pads)
    case _ => ty' == ty
  }

  ghost predicate StructKeeps(mode: Mode, ds: seq<Decl>, ds': seq<Decl>, kept: seq<Decl>, order: seq<Decl>,
                              pads: seq<Decl>)
    decreases ds, 1
  {
    && AllKept(mode, ds, kept)
    && multiset(order) == multiset(kept) && (mode != FixSorted ==> order == kept)
    && Merged(ds', order, pads) && AllPads(pads) && (mode == Detect ==> pads == [])
  }

  ghost predicate UnionKeeps(mode: Mode, ds: seq<Decl>, ds': seq<Decl>, kept: seq<Decl>, pads: seq<Decl>)
    decreases ds, 1
  {
    && AllKept(mode, ds, kept)
    && ds' == kept + pads && AllPads(pads) && |pads| <= 1 && (mode == Detect ==> pads == [])
  }

  ghost predicate AllKept(mode: Mode, ds: seq<Decl>, kept: seq<Decl>)
    decreases ds, 0
  {
    if ds == [] then kept == []
    else
      && kept != [] && AllKept(mode, ds[..|ds| - 1], kept[..|kept| - 1])
      && kept[|kept| - 1].name == ds[|ds| - 1].name
      && OnlyPads(mode, ds[|ds| - 1].ty, kept[|kept| - 1].ty)
  }

  // ----- lists of members -----

  lemma {:induction false} InterleavedDecls(r: seq<Member>, a: seq<Member>, b: seq<Member>)
    requires Interleaved(r, a, b)
    ensures Merged(DeclsOf(r), DeclsOf(a), DeclsOf(b))
  {
    if r != [] {
      var front, last := r[..|r| - 1], r[|r| - 1];
      assert DeclsOf(r)[..|r| - 1] == DeclsOf(front);
      if a != [] && a[|a| - 1] == last && Interleaved(front, a[..|a| - 1], b) {
        InterleavedDecls(front, a[..|a| - 1], b);
        assert DeclsOf(a)[..|a| - 1] == DeclsOf(a[..|a| - 1]);
      } else {
        InterleavedDecls(front, a, b[..|b| - 1]);
        assert DeclsOf(b)[..|b| - 1] == DeclsOf(b[..|b| - 1]);
      }
    }
  }

  lemma WithoutOne(ms: seq<Member>, i: nat)
    requires i < |ms|
    ensures
      var rest := ms[..i] + ms[i + 1..];
      && multiset(ms) == multiset(rest) + multiset{ms[i]}
      && multiset(DeclsOf(ms)) == multiset(DeclsOf(rest)) + multiset{ms[i].decl}
  {
    var ds, rest := DeclsOf(ms), ms[..i] + ms[i + 1..];
    assert ms == ms[..i] + [ms[i]] + ms[i + 1..];
    assert ds == ds[..i] + [ds[i]] + ds[i + 1..];
    assert DeclsOf(rest) == ds[..i] + ds[i + 1..];
  }

  lemma {:induction false} SameDecls(a: seq<Member>, b: seq<Member>)
    requires multiset(a) == multiset(b)
    ensures multiset(DeclsOf(a)) == multiset(DeclsOf(b))
  {
    if a == [] {
      assert |a| == |multiset(a)| && |b| == |multiset(b)|;
    } else {
      var n := |a| - 1;
      assert a[n] in multiset(b);
      var i :| 0 <= i < |b| && b[i] == a[n];
      WithoutOne(a, n);
      WithoutOne(b, i);
      assert a[..n] + a[n + 1..] == a[..n];
      var rest := b[..i] + b[i + 1..];
      assert multiset(a[..n]) == multiset(a) - multiset{a[n]} && multiset(rest) == multiset(b) - multiset{a[n]};
      SameDecls(a[..n], rest);
    }
  }

  /** The padded members are the measured ones, in order unless sorted, and pads. */
  lemma PaddedKeeps(mode: Mode, ds: seq<Decl>, ms: seq<Member>)
    requires GoodMembers(ms) && AllKept(mode, ds, DeclsOf(ms)) && PadResult(mode, ms).Some?
    ensures OnlyPads(mode, Struct(ds), Struct(DeclsOf(PadResult(mode, ms).value)))
  {
    var r, order := PadResult(mode, ms).value, Arranged(mode, ms);
    var pads := AllInserted(order);
    PadResultInOrder(mode, ms);
    PadResultContents(mode, ms);
    InterleavedDecls(r, order, pads);
    SameDecls(order, ms);
    forall i | 0 <= i < |pads| ensures IsPadDecl(DeclsOf(pads)[i]) {
      assert IsPad(pads[i], i);
      assert DeclsOf(pads)[i] == PadDecl(pads[i].size, i);
    }
    if mode == Detect {
      assert multiset(r) == multiset(ms) + multiset(pads) && r == ms;
      assert |multiset(pads)| == |pads|;
      assert pads == [];
    }
    assert StructKeeps(mode, ds, DeclsOf(r), DeclsOf(ms), DeclsOf(order), DeclsOf(pads));
  }

  lemma UnionKept(mode: Mode, ds: seq<Decl>, ms: seq<Member>)
    requires GoodMembers(ms) && AllKept(mode, ds, DeclsOf(ms)) && UnionInfo(mode, ms).Some?
    ensures OnlyPads(mode, Union(ds), UnionInfo(mode, ms).value.ty)
  {
    var size, align := MaxSize(ms), MaxAlign(ms);
    var decls := UnionInfo(mode, ms).value.ty.decls;
    if Mod(size, align) == 0 {
      assert UnionKeeps(mode, ds, decls, DeclsOf(ms), []);
    } else {
      assert IsPadDecl(PadDecl(RoundUp(size, align), 0));
      assert UnionKeeps(mode, ds, decls, DeclsOf(ms), [PadDecl(RoundUp(size, align), 0)]);
    }
  }

  // ----- declarations -----

  /** A measured declaration is the given one with nothing but pads added, at all depths. */
  lemma {:induction false} DeclKept(ctx: Context, mode: Mode, d: Decl)
    requires ValidContext(ctx) && InfoOfDecl(ctx, mode, d).Some?
    ensures
      var r := InfoOfDecl(ctx, mode, d).value.decl;
      r.name == d.name && OnlyPads(mode, d.ty, r.ty)
    decreases d, 0
  {
    match d.ty {
      case PtrDecl(_) =>
      case ArrayDecl(_, inner) => TypeDeclKept(ctx, mode, inner);
      case TypeDecl(_) => TypeDeclKept(ctx, mode, d.ty);
      case _ =>
    }
  }

  lemma {:induction false} TypeDeclKept(ctx: Context, mode: Mode, node: Type)
    requires ValidContext(ctx) && InfoOfTypeDecl(ctx, mode, node).Some?
    ensures OnlyPads(mode, node, InfoOfTypeDecl(ctx, mode, node).value.ty)
    decreases node, 0
  {
    TypeKept(ctx, mode, node.inner);
  }

  lemma {:induction false} TypeKept(ctx: Context, mode: Mode, c: Type)
    requires ValidContext(ctx) && InfoOfType(ctx, mode, c).Some?
    ensures OnlyPads(mode, c, InfoOfType(ctx, mode, c).value.ty)
    decreases c, 1
  {
    match c {
      case Struct(decls) =>
        MembersKept(ctx, mode, decls);
        PaddedKeeps(mode, decls, InfoOfMembers(ctx, mode, decls).value);
      case Union(decls) =>
        MembersKept(ctx, mode, decls);
        UnionKept(mode, decls, InfoOfMembers(ctx, mode, decls).value);
      case TypeDecl(_) => TypeDeclKept(ctx, mode, c);
      case _ =>
    }
  }

  lemma {:induction false} MembersKept(ctx: Context, mode: Mode, decls: seq<Decl>)
    requires ValidContext(ctx) && InfoOfMembers(ctx, mode, decls).Some?
    ensures AllKept(mode, decls, DeclsOf(InfoOfMembers(ctx, mode, decls).value))
    decreases decls, 0
  {
    if decls != [] {
      var ms := InfoOfMembers(ctx, mode, decls).value;
      MembersKept(ctx, mode, decls[..|decls| - 1]);
      DeclKept(ctx, mode, decls[|decls| - 1]);
      assert DeclsOf(ms)[..|ms| - 1] == DeclsOf(ms[..|ms| - 1]);
    }
  }
}
