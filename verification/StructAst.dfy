/** C declarations as the struct checker sees them: the nodes of the parsed header. */
module StructAst {
  datatype Dim =
    | Constant(value: nat)
    | EnumConstant(name: string)
    | Binary(op: char, left: nat, right: nat)
    | OtherDim

  datatype Type =
    | TypeDecl(inner: Type)
    | PtrDecl(inner: Type)
    | ArrayDecl(dim: Dim, inner: Type)
    | Ident(names: seq<string>)
    | Enum
    | Struct(decls: seq<Decl>)
    | Union(decls: seq<Decl>)
    | OtherType

  datatype Decl = Decl(name: string, ty: Type)

  datatype Info = Info(size: int, align: int)

  /** A struct member with its measured size and alignment. */
  datatype Member = Member(decl: Decl, size: int, align: int)

  /** Only report problems; repair them; repair them after sorting the members of each struct. */
  datatype Mode = Detect | Fix | FixSorted

  const DEFAULT_ALIGN: int := 4

  /** Alignments are powers of two up to the default, and divide sizes. */
  predicate IsAlign(a: int) {
    a == 1 || a == 2 || a == 4
  }

  predicate Good(size: int, align: int) {
    IsAlign(align) && Mod(size, align) == 0
  }

  /** The remainder by an alignment. */
  function Mod(n: int, a: int): (r: int)
    requires IsAlign(a)
    ensures 0 <= r < a
  {
    if a == 1 then 0 else if a == 2 then n % 2 else n % 4
  }

  function Max(a: int, b: int): int {
    if a < b then b else a
  }

  function Digits(n: nat): string {
    var digit := ['0' + (n % 10) as char];
    if n < 10 then digit else Digits(n / 10) + digit
  }

  /** The inserted byte array; all but the first of a struct are numbered. */
  function PadDecl(size: nat, idx: nat): Decl {
    Decl("pad" + (if idx == 0 then "" else Digits(idx)), ArrayDecl(Constant(size), TypeDecl(Ident(["uint8_t"]))))
  }

  function PadMember(size: nat, idx: nat): Member {
    Member(PadDecl(size, idx), size, 1)
  }
}
