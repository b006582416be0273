/** Headers that the checker accepts although they are not laid out right. */
module StructExamples {
  import opened Wrappers
  import opened StructAst
  import opened StructPadding
  import opened StructAlignment
  import opened StructLayout
  import opened StructUnit

  const BYTE_DECL := Decl("c", TypeDecl(Ident(["char"])))
  const POINTERS_DECL := Decl("p", ArrayDecl(Constant(1), PtrDecl(TypeDecl(Ident(["char"])))))
  const ROWS_DECL := Decl("m", ArrayDecl(Constant(1), ArrayDecl(Constant(2), TypeDecl(Ident(["char"])))))
  const SHORT_DECL := Decl("s", TypeDecl(Ident(["short"])))

  /** A character and an array of one pointer. */
  const MISALIGNED := Struct([BYTE_DECL, POINTERS_DECL])

  /** A character, one row of two characters, and a short. */
  const MISPLACED := Struct([BYTE_DECL, ROWS_DECL, SHORT_DECL])

  ghost function Start(enums: map<string, int>): (ctx: Context)
    ensures ValidContext(ctx) && ctx.enumTypes == {} && ctx.enums == enums
    ensures "char" in ctx.infos && ctx.infos["char"] == Info(1, 1)
    ensures "short" in ctx.infos && ctx.infos["short"] == Info(2, 2)
  {
    Context(BASE, enums, {})
  }

  /** Detect mode accepts a header of this one struct as it is, with these measures, although the struct
      is not aligned at the start of memory. */
  ghost predicate WronglyAccepted(enums: map<string, int>, struct_: Type, info: Info) {
    var exts := [Typedef("t", TypeDecl(struct_))];
    var r := Process(Detect, Start(enums), exts);
    && r.Some? && r.value.exts == exts && r.value.ctx.infos["t"] == info
    && !Aligned(NamesAfter(enums, BaseLayouts(), exts)["t"], 0)
  }

  /** A header with a character and an array of one pointer is accepted, although the pointer is not
      aligned in it. */
  lemma MisalignedHeaderAccepted(enums: map<string, int>)
    ensures WronglyAccepted(enums, MISALIGNED, Info(2, 1))
  {
    MisalignedMeasured(enums);
    MisalignedLayout(enums, BaseLayouts());
    OneStruct(enums, MISALIGNED, Info(2, 1));
  }

  /** A header with a character, one row of two characters and a short is accepted: the row is taken for
      one character, and the short is really at an odd offset. */
  lemma MisplacedHeaderAccepted(enums: map<string, int>)
    ensures WronglyAccepted(enums, MISPLACED, Info(4, 2))
  {
    MisplacedMeasured(enums);
    MisplacedLayout(enums, BaseLayouts());
    OneStruct(enums, MISPLACED, Info(4, 2));
  }

  lemma OneStruct(enums: map<string, int>, struct_: Type, info: Info)
    requires InfoOfType(Start(enums), Detect, struct_) == Some(Measured(info, struct_)) && struct_.Struct?
    requires !Aligned(LayoutOf(enums, BaseLayouts(), struct_), 0)
    ensures WronglyAccepted(enums, struct_, info)
  {
    var e := Typedef("t", TypeDecl(struct_));
    ProcessSnoc(Detect, Start(enums), [], e);
    assert [] + [e] == [e];
    OneName(enums, BaseLayouts(), "t", TypeDecl(struct_));
  }

  lemma OneName(enums: map<string, int>, names: map<string, Layout>, name: string, ty: Type)
    ensures NamesAfter(enums, names, [Typedef(name, ty)]) == names[name := LayoutOf(enums, names, ty)]
  {
    assert [Typedef(name, ty)][..0] == [];
  }

  // ----- what the checker measures -----

  lemma NamedMeasured(ctx: Context, name: string)
    requires ValidContext(ctx) && ctx.enumTypes == {} && name in ctx.infos
    ensures InfoOfType(ctx, Detect, Ident([name])) == Some(Measured(ctx.infos[name], Ident([name])))
    ensures InfoOfTypeDecl(ctx, Detect, TypeDecl(Ident([name]))) ==
      Some(Measured(ctx.infos[name], TypeDecl(Ident([name]))))
  {
    assert Lookup([name], ctx.infos) == Some(ctx.infos[name]);
  }

  lemma ByteMeasured(enums: map<string, int>)
    ensures InfoOfDecl(Start(enums), Detect, BYTE_DECL) == Some(Member(BYTE_DECL, 1, 1))
  {
    NamedMeasured(Start(enums), "char");
  }

  lemma PointersMeasuredAs(enums: map<string, int>)
    ensures InfoOfDecl(Start(enums), Detect, POINTERS_DECL) == Some(Member(POINTERS_DECL, 1, 1))
  {
    var ctx, one := Start(enums), TypeDecl(Ident(["char"]));
    NamedMeasured(ctx, "char");
    assert InfoOfType(ctx, Detect, one) == Some(Measured(Info(1, 1), one));
    assert InfoOfTypeDecl(ctx, Detect, PtrDecl(one)) == Some(Measured(Info(1, 1), PtrDecl(one)));
  }

  lemma RowsMeasuredAs(enums: map<string, int>)
    ensures InfoOfDecl(Start(enums), Detect, ROWS_DECL) == Some(Member(ROWS_DECL, 1, 1))
  {
    var ctx, one := Start(enums), TypeDecl(Ident(["char"]));
    NamedMeasured(ctx, "char");
    assert InfoOfType(ctx, Detect, one) == Some(Measured(Info(1, 1), one));
    var row := ArrayDecl(Constant(2), one);
    assert InfoOfTypeDecl(ctx, Detect, row) == Some(Measured(Info(1, 1), row));
  }

  lemma ShortMeasured(enums: map<string, int>)
    ensures InfoOfDecl(Start(enums), Detect, SHORT_DECL) == Some(Member(SHORT_DECL, 2, 2))
  {
    NamedMeasured(Start(enums), "short");
  }

  lemma OneMeasured(ctx: Context, m: Member)
    requires ValidContext(ctx) && InfoOfDecl(ctx, Detect, m.decl) == Some(m)
    ensures InfoOfMembers(ctx, Detect, [m.decl]) == Some([m])
  {
    MembersSnoc(ctx, Detect, [], [], m.decl, m);
    assert [] + [m.decl] == [m.decl] && [] + [m] == [m];
  }

  lemma TwoMeasured(ctx: Context, m: Member, m': Member)
    requires ValidContext(ctx) && InfoOfDecl(ctx, Detect, m.decl) == Some(m)
    requires InfoOfDecl(ctx, Detect, m'.decl) == Some(m')
    ensures InfoOfMembers(ctx, Detect, [m.decl, m'.decl]) == Some([m, m'])
  {
    OneMeasured(ctx, m);
    MembersSnoc(ctx, Detect, [m.decl], [m], m'.decl, m');
    assert [m.decl] + [m'.decl] == [m.decl, m'.decl] && [m] + [m'] == [m, m'];
  }

  lemma ThreeMeasured(ctx: Context, m: Member, m': Member, m'': Member)
    requires ValidContext(ctx) && InfoOfDecl(ctx, Detect, m.decl) == Some(m)
    requires InfoOfDecl(ctx, Detect, m'.decl) == Some(m') && InfoOfDecl(ctx, Detect, m''.decl) == Some(m'')
    ensures InfoOfMembers(ctx, Detect, [m.decl, m'.decl, m''.decl]) == Some([m, m', m''])
  {
    TwoMeasured(ctx, m, m');
    MembersSnoc(ctx, Detect, [m.decl, m'.decl], [m, m'], m''.decl, m'');
    assert [m.decl, m'.decl] + [m''.decl] == [m.decl, m'.decl, m''.decl] && [m, m'] + [m''] == [m, m', m''];
  }

  /** A struct whose members are in place is accepted with their total size. */
  lemma StructAccepted(ctx: Context, ms: seq<Member>, decls: seq<Decl>)
    requires ValidContext(ctx) && InfoOfMembers(ctx, Detect, decls) == Some(ms) && DeclsOf(ms) == decls
    requires GoodMembers(ms) && WellPlaced(ms) && Good(TotalSize(ms), MaxAlign(ms))
    ensures InfoOfType(ctx, Detect, Struct(decls)) == Some(Measured(Info(TotalSize(ms), MaxAlign(ms)), Struct(decls)))
  {
    PlacedInfo(ms);
  }

  lemma PlacedInfo(ms: seq<Member>)
    requires GoodMembers(ms) && WellPlaced(ms) && Good(TotalSize(ms), MaxAlign(ms))
    ensures StructInfo(Detect, ms) == Some(Measured(Info(TotalSize(ms), MaxAlign(ms)), Struct(DeclsOf(ms))))
  {
    PaddedUnchanged(ms);
    assert PadResult(Detect, ms) == Some(ms);
  }

  /** Two members of one byte, and a third of two bytes behind them, are in place. */
  lemma BytesPlaced(m: Member, m': Member)
    requires m.size == m.align == 1 && m'.size == m'.align == 1
    ensures GoodMembers([m, m']) && WellPlaced([m, m']) && TotalSize([m, m']) == 2 && MaxAlign([m, m']) == 1
  {
    WellPlacedSnoc([], m);
    assert [] + [m] == [m] && [m] + [m'] == [m, m'];
    WellPlacedSnoc([m], m');
  }

  lemma ShortPlaced(m: Member, m': Member, m'': Member)
    requires m.size == m.align == 1 && m'.size == m'.align == 1 && m''.size == m''.align == 2
    ensures GoodMembers([m, m', m'']) && WellPlaced([m, m', m''])
    ensures TotalSize([m, m', m'']) == 4 && MaxAlign([m, m', m'']) == 2
  {
    BytesPlaced(m, m');
    WellPlacedSnoc([m, m'], m'');
    assert [m, m'] + [m''] == [m, m', m''];
  }

  lemma MisalignedMeasured(enums: map<string, int>)
    ensures InfoOfType(Start(enums), Detect, MISALIGNED) == Some(Measured(Info(2, 1), MISALIGNED))
  {
    var c, p := Member(BYTE_DECL, 1, 1), Member(POINTERS_DECL, 1, 1);
    ByteMeasured(enums);
    PointersMeasuredAs(enums);
    TwoMeasured(Start(enums), c, p);
    BytesPlaced(c, p);
    StructAccepted(Start(enums), [c, p], [BYTE_DECL, POINTERS_DECL]);
  }

  lemma MisplacedMeasured(enums: map<string, int>)
    ensures InfoOfType(Start(enums), Detect, MISPLACED) == Some(Measured(Info(4, 2), MISPLACED))
  {
    var c, m, s := Member(BYTE_DECL, 1, 1), Member(ROWS_DECL, 1, 1), Member(SHORT_DECL, 2, 2);
    ByteMeasured(enums);
    RowsMeasuredAs(enums);
    ShortMeasured(enums);
    ThreeMeasured(Start(enums), c, m, s);
    ShortPlaced(c, m, s);
    StructAccepted(Start(enums), [c, m, s], [BYTE_DECL, ROWS_DECL, SHORT_DECL]);
  }

  // ----- how the members really lie -----

  lemma NamedLayout(enums: map<string, int>, names: map<string, Layout>, name: string)
    requires name in names
    ensures LayoutOf(enums, names, TypeDecl(Ident([name]))) == names[name]
  {
    assert Lookup([name], names) == Some(names[name]);
    assert LayoutOf(enums, names, Ident([name])) == names[name];
  }

  lemma LayoutsOfTwo(enums: map<string, int>, names: map<string, Layout>, d: Decl, d': Decl)
    ensures LayoutsOf(enums, names, [d, d']) == [LayoutOf(enums, names, d.ty), LayoutOf(enums, names, d'.ty)]
  {
    assert [d, d'][..1] == [d] && [d][..0] == [];
    assert LayoutsOf(enums, names, [d]) == [LayoutOf(enums, names, d.ty)];
  }

  lemma LayoutsOfThree(enums: map<string, int>, names: map<string, Layout>, d: Decl, d': Decl, d'': Decl)
    ensures LayoutsOf(enums, names, [d, d', d'']) ==
      [LayoutOf(enums, names, d.ty), LayoutOf(enums, names, d'.ty), LayoutOf(enums, names, d''.ty)]
  {
    assert [d, d', d''][..2] == [d, d'];
    LayoutsOfTwo(enums, names, d, d');
  }

  lemma MisalignedLayout(enums: map<string, int>, names: map<string, Layout>)
    requires "char" in names && names["char"] == Scalar(1, 1)
    ensures !Aligned(LayoutOf(enums, names, MISALIGNED), 0)
  {
    NamedLayout(enums, names, "char");
    LayoutsOfTwo(enums, names, BYTE_DECL, POINTERS_DECL);
    assert LayoutOf(enums, names, POINTERS_DECL.ty) == Repeat(1, ADDRESS_SCALAR);
    PointerAfterByte();
  }

  lemma PointerAfterByte()
    ensures !Aligned(Sequence([Scalar(1, 1), Repeat(1, ADDRESS_SCALAR)]), 0)
  {
    var ls := [Scalar(1, 1), Repeat(1, ADDRESS_SCALAR)];
    assert ls[..1] == [Scalar(1, 1)] && [Scalar(1, 1)][..0] == [];
    assert SumOf(ls[..1]) == 1;
    assert Aligned(ls[1], 1) ==> Aligned(ADDRESS_SCALAR, 1 + Times(0, SizeOf(ADDRESS_SCALAR)));
    assert !Aligned(ls[1], 0 + SumOf(ls[..1]));
  }

  lemma MisplacedLayout(enums: map<string, int>, names: map<string, Layout>)
    requires "char" in names && names["char"] == Scalar(1, 1) && "short" in names && names["short"] == Scalar(2, 2)
    ensures !Aligned(LayoutOf(enums, names, MISPLACED), 0)
  {
    NamedLayout(enums, names, "char");
    NamedLayout(enums, names, "short");
    LayoutsOfThree(enums, names, BYTE_DECL, ROWS_DECL, SHORT_DECL);
    RowsLayout(enums, names);
    ShortAfterThree();
  }

  lemma RowsLayout(enums: map<string, int>, names: map<string, Layout>)
    requires LayoutOf(enums, names, TypeDecl(Ident(["char"]))) == Scalar(1, 1)
    ensures LayoutOf(enums, names, ROWS_DECL.ty) == Repeat(1, Repeat(2, Scalar(1, 1)))
  {
    var row := ArrayDecl(Constant(2), TypeDecl(Ident(["char"])));
    assert LayoutOf(enums, names, row) == Repeat(2, Scalar(1, 1));
  }

  lemma ShortAfterThree()
    ensures !Aligned(Sequence([Scalar(1, 1), Repeat(1, Repeat(2, Scalar(1, 1))), Scalar(2, 2)]), 0)
  {
    var byte, rows, short_ := Scalar(1, 1), Repeat(1, Repeat(2, Scalar(1, 1))), Scalar(2, 2);
    var ls := [byte, rows, short_];
    assert SizeOf(rows) == 2;
    SequenceSnoc([], byte);
    SequenceSnoc([byte], rows);
    assert [] + [byte] == [byte] && [byte] + [rows] == ls[..2];
    assert SumOf(ls[..2]) == 3;
    assert !Aligned(ls[2], 0 + SumOf(ls[..2]));
  }
}
