/** Type names of enumerations, which may be defined but not used; and what a repair keeps of a whole
    header. */
module StructEnums {
  import opened Wrappers
  import opened StructAst
  import opened StructAlignment
  import opened StructUnit
  import opened StructMeaning

  // ----- enumerations -----

  /** The type of a member depends on a type name: pointers do not, other than in arrays. */
  ghost predicate DeclUses(d: Decl, name: string)
    decreases d, 0
  {
    match d.ty
    case ArrayDecl(_, inner) => NodeUses(inner, name)
    case TypeDecl(_) => NodeUses(d.ty, name)
    case _ => false
  }

  ghost predicate NodeUses(node: Type, name: string)
    decreases node, 0
  {
    match node
    case TypeDecl(c) => TypeUses(c, name)
    case PtrDecl(c) => TypeUses(c, name)
    case ArrayDecl(_, c) => TypeUses(c, name)
    case _ => false
  }

  ghost predicate TypeUses(c: Type, name: string)
    decreases c, 1
  {
    match c
    case Ident(names) => name in names
    case Struct(decls) => AnyUses(decls, name)
    case Union(decls) => AnyUses(decls, name)
    case TypeDecl(_) => NodeUses(c, name)
    case _ => false
  }

  ghost predicate AnyUses(decls: seq<Decl>, name: string)
    decreases decls, 0
  {
    decls != [] && (AnyUses(decls[..|decls| - 1], name) || DeclUses(decls[|decls| - 1], name))
  }

  lemma {:induction false} DeclRefused(ctx: Context, mode: Mode, d: Decl, name: string)
    requires ValidContext(ctx) && name in ctx.enumTypes && DeclUses(d, name)
    ensures InfoOfDecl(ctx, mode, d) == None
    decreases d, 0
  {
    NodeRefused(ctx, mode, if d.ty.ArrayDecl? then d.ty.inner else d.ty, name);
  }

  lemma {:induction false} NodeRefused(ctx: Context, mode: Mode, node: Type, name: string)
    requires ValidContext(ctx) && name in ctx.enumTypes && NodeUses(node, name)
    ensures InfoOfTypeDecl(ctx, mode, node) == None
    decreases node, 0
  {
    TypeRefused(ctx, mode, node.inner, name);
  }

  lemma {:induction false} TypeRefused(ctx: Context, mode: Mode, c: Type, name: string)
    requires ValidContext(ctx) && name in ctx.enumTypes && TypeUses(c, name)
    ensures InfoOfType(ctx, mode, c) == None
    decreases c, 1
  {
    match c {
      case Struct(decls) => AnyRefused(ctx, mode, decls, name);
      case Union(decls) => AnyRefused(ctx, mode, decls, name);
      case TypeDecl(_) => NodeRefused(ctx, mode, c, name);
      case _ =>
    }
  }

  lemma {:induction false} AnyRefused(ctx: Context, mode: Mode, decls: seq<Decl>, name: string)
    requires ValidContext(ctx) && name in ctx.enumTypes && AnyUses(decls, name)
    ensures InfoOfMembers(ctx, mode, decls) == None
    decreases decls, 0
  {
    if AnyUses(decls[..|decls| - 1], name) {
      AnyRefused(ctx, mode, decls[..|decls| - 1], name);
    } else {
      DeclRefused(ctx, mode, decls[|decls| - 1], name);
    }
  }

  /** The names of enumerations in a header are those of its own and those known before. */
  lemma {:induction false} EnumNames(mode: Mode, ctx: Context, exts: seq<Ext>, name: string)
    requires ValidContext(ctx) && Process(mode, ctx, exts).Some?
    ensures name in Process(mode, ctx, exts).value.ctx.enumTypes <==>
      name in ctx.enumTypes || exists i :: 0 <= i < |exts| && exts[i] == Typedef(name, TypeDecl(Enum))
  {
    if exts != [] {
      var n := |exts| - 1;
      EnumNames(mode, ctx, exts[..n], name);
      assert forall i :: 0 <= i < n ==> exts[..n][i] == exts[i];
    }
  }

  /** A header that uses an enumeration after its definition is refused, in every mode. */
  lemma EnumsAreRefused(mode: Mode, ctx: Context, exts: seq<Ext>, i: nat, j: nat)
    requires ValidContext(ctx) && i < j < |exts| && exts[i].Typedef? && exts[i].ty == TypeDecl(Enum)
    requires exts[j].Typedef? && exts[j].ty.TypeDecl? && NodeUses(exts[j].ty, exts[i].name)
    ensures Process(mode, ctx, exts) == None
  {
    var before := Process(mode, ctx, exts[..j]);
    assert exts[..j + 1][..j] == exts[..j];
    if before.Some? {
      assert exts[..j][i] == Typedef(exts[i].name, TypeDecl(Enum));
      EnumNames(mode, ctx, exts[..j], exts[i].name);
      NodeRefused(before.value.ctx, mode, exts[j].ty, exts[i].name);
    }
    StaysNone(mode, ctx, exts, j + 1);
  }

  // ----- whole headers -----

  /** A definition with nothing but pads added. */
  ghost predicate ExtKept(mode: Mode, e: Ext, e': Ext) {
    match e
    case Typedef(name, ty) => e'.Typedef? && e'.name == name && OnlyPads(mode, ty, e'.ty)
    case OtherExt => e' == OtherExt
  }

  /** A processed header has the same definitions in the same order, with nothing but pads added. */
  lemma {:induction false} UnitKept(mode: Mode, ctx: Context, exts: seq<Ext>, i: nat)
    requires ValidContext(ctx) && Process(mode, ctx, exts).Some? && i < |exts|
    ensures ExtKept(mode, exts[i], Process(mode, ctx, exts).value.exts[i])
  {
    var n := |exts| - 1;
    if i < n {
      UnitKept(mode, ctx, exts[..n], i);
    } else {
      var known := Process(mode, ctx, exts[..n]).value.ctx;
      match exts[n] {
        case Typedef(_, ty) =>
          if ty.TypeDecl? {
            TypeDeclKept(known, mode, ty);
          }
        case OtherExt =>
      }
    }
  }
}
