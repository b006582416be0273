/** Measuring and repairing nested structs and unions. */
module StructAlignment {
  import opened Wrappers
  import opened StructAst
  import opened StructPadding

  /** What is known so far: sizes and alignments of type names, enumeration constants, and the
      names of enumeration types, which must not be used for members. */
  datatype Context = Context(infos: map<string, Info>, enums: map<string, int>, enumTypes: set<string>)

  predicate ValidContext(ctx: Context) {
    forall n | n in ctx.infos :: Good(ctx.infos[n].size, ctx.infos[n].align)
  }

  const BASE := map["char" := Info(1, 1), "short" := Info(2, 2), "int" := Info(4, 4), "long" := Info(8, DEFAULT_ALIGN)]

  /** The number of elements of an array; `None` where the source raises. */
  function Elements(enums: map<string, int>, dim: Dim): Option<int> {
    match dim
    case Constant(v) => Some(v)
    case EnumConstant(n) => if n in enums then Some(enums[n]) else None
    case Binary(op, l, r) =>
      if op == '*' then Some(l * r) else if op == '+' then Some(l + r) else if op == '-' then Some(l - r) else None
    case OtherDim => None
  }

  /** The first of the names that is known. */
  function Lookup<T>(names: seq<string>, table: map<string, T>): (r: Option<T>)
    ensures r == None <==> forall i :: 0 <= i < |names| ==> names[i] !in table
    ensures r.Some? ==> exists i :: 0 <= i < |names| && FirstIn(names, table.Keys, i) && table[names[i]] == r.value
  {
    if names == [] then None
    else if names[0] in table then
      assert FirstIn(names, table.Keys, 0);
      Some(table[names[0]])
    else
      assert forall i :: 0 <= i < |names| - 1 && FirstIn(names[1..], table.Keys, i) ==>
        FirstIn(names, table.Keys, i + 1);
      Lookup(names[1..], table)
  }

  ghost predicate FirstIn(names: seq<string>, known: set<string>, i: nat)
    requires i < |names|
  {
    names[i] in known && forall j :: 0 <= j < i ==> names[j] !in known
  }

  datatype Measured = Measured(info: Info, ty: Type)

  ghost predicate GoodInfo(i: Info) {
    Good(i.size, i.align)
  }

  function DeclsOf(ms: seq<Member>): (r: seq<Decl>)
    ensures |r| == |ms| && forall i :: 0 <= i < |ms| ==> r[i] == ms[i].decl
  {
    seq(|ms|, i requires 0 <= i < |ms| => ms[i].decl)
  }

  function ArrayInfo(num: int, elem: Info): (r: Info)
    requires GoodInfo(elem)
    ensures GoodInfo(r)
  {
    ArrayIsGood(num, elem.size, elem.align);
    Info(num * elem.size, if num == 0 then Max(elem.align, DEFAULT_ALIGN) else elem.align)
  }

  lemma ArrayIsGood(num: int, size: int, align: int)
    requires Good(size, align)
    ensures Good(num * size, align)
  {
    if align == 2 {
      var k := size / 2;
      assert num * size == 2 * (num * k);
    } else if align == 4 {
      var k := size / 4;
      assert num * size == 4 * (num * k);
    }
  }

  /** A member declaration, measured, with the types nested in it rewritten. */
  function InfoOfDecl(ctx: Context, mode: Mode, d: Decl): (r: Option<Member>)
    requires ValidContext(ctx)
    ensures r.Some? ==> Good(r.value.size, r.value.align) && r.value.decl.name == d.name
    decreases d, 0
  {
    match d.ty
    case PtrDecl(_) => Some(Member(d, DEFAULT_ALIGN, DEFAULT_ALIGN))
    case ArrayDecl(dim, inner) =>
      var num, elem := Elements(ctx.enums, dim), InfoOfTypeDecl(ctx, mode, inner);
      if num == None || elem == None then None
      else
        var info := ArrayInfo(num.value, elem.value.info);
        Some(Member(Decl(d.name, ArrayDecl(dim, elem.value.ty)), info.size, info.align))
    case TypeDecl(_) =>
      var m := InfoOfTypeDecl(ctx, mode, d.ty);
      if m == None then None else Some(Member(Decl(d.name, m.value.ty), m.value.info.size, m.value.info.align))
    case _ => None
  }

  /** The measure is that of the node's own type, whatever kind of declarator the node is. */
  function InfoOfTypeDecl(ctx: Context, mode: Mode, node: Type): (r: Option<Measured>)
    requires ValidContext(ctx)
    ensures r.Some? ==> GoodInfo(r.value.info)
    decreases node, 0
  {
    match node
    case TypeDecl(c) =>
      var m := InfoOfType(ctx, mode, c);
      if m == None then None else Some(Measured(m.value.info, TypeDecl(m.value.ty)))
    case PtrDecl(c) =>
      var m := InfoOfType(ctx, mode, c);
      if m == None then None else Some(Measured(m.value.info, PtrDecl(m.value.ty)))
    case ArrayDecl(dim, c) =>
      var m := InfoOfType(ctx, mode, c);
      if m == None then None else Some(Measured(m.value.info, ArrayDecl(dim, m.value.ty)))
    case _ => None
  }

  function InfoOfType(ctx: Context, mode: Mode, c: Type): (r: Option<Measured>)
    requires ValidContext(ctx)
    ensures r.Some? ==> GoodInfo(r.value.info)
    decreases c, 1
  {
    match c
    case Ident(names) =>
      if exists n :: n in names && n in ctx.enumTypes then None
      else
        var info := Lookup(names, ctx.infos);
        if info == None then None else Some(Measured(info.value, c))
    case Enum => Some(Measured(Info(DEFAULT_ALIGN, DEFAULT_ALIGN), c))
    case Struct(decls) =>
      var ms := InfoOfMembers(ctx, mode, decls);
      if ms == None then None else StructInfo(mode, ms.value)
    case Union(decls) =>
      var ms := InfoOfMembers(ctx, mode, decls);
      if ms == None then None else UnionInfo(mode, ms.value)
    case TypeDecl(_) => InfoOfTypeDecl(ctx, mode, c)
    case _ => None
  }

  function InfoOfMembers(ctx: Context, mode: Mode, decls: seq<Decl>): (r: Option<seq<Member>>)
    requires ValidContext(ctx)
    ensures r.Some? ==> |r.value| == |decls| && GoodMembers(r.value)
    decreases decls, 0
  {
    if decls == [] then Some([])
    else
      var earlier := InfoOfMembers(ctx, mode, decls[..|decls| - 1]);
      var last := InfoOfDecl(ctx, mode, decls[|decls| - 1]);
      if earlier == None || last == None then None else Some(earlier.value + [last.value])
  }

  /** The padded struct; its size and alignment are summed up from the padded members. */
  function StructInfo(mode: Mode, ms: seq<Member>): (r: Option<Measured>)
    requires GoodMembers(ms)
    ensures r.Some? ==> GoodInfo(r.value.info)
  {
    PadResultIsGood(mode, ms);
    var padded := PadResult(mode, ms);
    if padded == None then None
    else Some(Measured(Info(TotalSize(padded.value), MaxAlign(padded.value)), Struct(DeclsOf(padded.value))))
  }

  lemma PadResultIsGood(mode: Mode, ms: seq<Member>)
    requires GoodMembers(ms)
    ensures
      var r := PadResult(mode, ms);
      r.Some? ==> GoodMembers(r.value) && WellPlaced(r.value) && Good(TotalSize(r.value), MaxAlign(r.value))
  {
    if mode == FixSorted {
      SortedIsGood(ms);
      PaddedIsPlaced(Sorted(ms));
    } else {
      PaddedIsPlaced(ms);
    }
  }

  function MaxSize(ms: seq<Member>): (s: nat) {
    if ms == [] then 0 else Max(MaxSize(ms[..|ms| - 1]), ms[|ms| - 1].size)
  }

  /** The next multiple after a size that is not one. */
  function RoundUp(size: nat, align: int): (r: int)
    requires IsAlign(align) && Mod(size, align) != 0
    ensures Good(r, align) && r == size + Gap(size, align)
  {
    if align == 2 then (size / 2 + 1) * 2 else (size / 4 + 1) * 4
  }

  /** A union grows to a multiple of its alignment by one more member, a byte array of that size. */
  function UnionInfo(mode: Mode, ms: seq<Member>): (r: Option<Measured>)
    requires GoodMembers(ms)
    ensures r.Some? ==> GoodInfo(r.value.info)
  {
    var size, align := MaxSize(ms), MaxAlign(ms);
    if Mod(size, align) == 0 then Some(Measured(Info(size, align), Union(DeclsOf(ms))))
    else if mode == Detect then None
    else
      var rounded := RoundUp(size, align);
      Some(Measured(Info(rounded, align), Union(DeclsOf(ms) + [PadDecl(rounded, 0)])))
  }

  lemma MembersSnoc(ctx: Context, mode: Mode, decls: seq<Decl>, ms: seq<Member>, d: Decl, m: Member)
    requires ValidContext(ctx) && InfoOfMembers(ctx, mode, decls) == Some(ms) && InfoOfDecl(ctx, mode, d) == Some(m)
    ensures InfoOfMembers(ctx, mode, decls + [d]) == Some(ms + [m])
  {
    assert (decls + [d])[..|decls|] == decls;
  }
}
