/** Next hops as routing clients name them, forwarding paths as VPP holds them, and the encoding
    of the one into the other.  All addresses are IPv6. */
module VppPaths {
  import opened Wrappers

  type Byte = b: nat | b < 256
  type Address = a: seq<Byte> | |a| == 16 witness seq(16, _ => 0)

  datatype Prefix = Prefix(address: Address, length: nat)
  datatype NextHop = NextHop(address: Address, ifName: Option<string>, weight: int)
  datatype Path = Path(address: Address, swIfIndex: nat, weight: Byte)

  /** The interface index of a path that names no interface. */
  const ANY_INTERFACE: nat := 0xFFFF_FFFF

  /** The name/index tables of VPP interfaces; `popTap` is the Linux tap of the wired uplink. */
  datatype Interfaces = Interfaces(indexOf: map<string, nat>, nameOf: map<nat, string>, popTap: string) {
    /** Looking up the name of an index and then the index of that name gives the index back. */
    ghost predicate Valid() {
      && (forall i :: i in nameOf ==> nameOf[i] in indexOf && indexOf[nameOf[i]] == i)
      && (forall n :: n in indexOf ==> indexOf[n] in nameOf && indexOf[n] != ANY_INTERFACE)
    }

    /** Known names keep their index; an index may get another name, as that of the bridge interface
        does when the uplink's tap takes it over. */
    ghost predicate Extends(older: Interfaces) {
      && popTap == older.popTap
      && older.indexOf.Keys <= indexOf.Keys
      && (forall n :: n in older.indexOf ==> indexOf[n] == older.indexOf[n])
    }
  }

  /** The link-local address of VPP's loopback for that of the uplink's tap: the first hexadecimal
      digit of the last 16-bit group becomes 0. */
  function LoopbackAddress(a: Address): (r: Address)
    ensures forall i :: 0 <= i < 16 && i != 14 ==> r[i] == a[i]
    ensures r[14] % 16 == a[14] % 16 && r[14] < 16
    ensures r == a <==> a[14] < 16
  {
    a[14 := a[14] % 16]
  }

  /** The forwarding path of a next hop, or `None` when its interface is unknown. */
  function Encode(ifs: Interfaces, h: NextHop): (r: Option<Path>) {
    match h.ifName
    case None => Some(Path(h.address, ANY_INTERFACE, h.weight % 256))
    case Some(name) =>
      if name !in ifs.indexOf then None
      else Some(Path(if name == ifs.popTap then LoopbackAddress(h.address) else h.address,
                     ifs.indexOf[name], h.weight % 256))
  }

  /** Over the uplink's tap the address may lose the digit that tells the tap from VPP's loopback;
      nothing else is ever changed, except that the weight is cut to a byte. */
  lemma EncodeKeeps(ifs: Interfaces, h: NextHop)
    requires Encode(ifs, h).Some?
    ensures
      var q := Encode(ifs, h).value;
      && (forall i :: 0 <= i < 16 && i != 14 ==> q.address[i] == h.address[i])
      && q.address[14] % 16 == h.address[14] % 16
      && (q.address[14] / 16 == if h.ifName == Some(ifs.popTap) then 0 else h.address[14] / 16)
      && (q.weight - h.weight) % 256 == 0
      && (h.ifName.Some? ==> h.ifName.value in ifs.indexOf && q.swIfIndex == ifs.indexOf[h.ifName.value])
  {
  }

  /** The next hop that the table dump reports for a path, with its address and weight as they are. */
  function Decode(ifs: Interfaces, q: Path): (r: Option<NextHop>)
    ensures r.Some? ==> r.value.address == q.address && r.value.weight == q.weight
  {
    if q.swIfIndex == ANY_INTERFACE then Some(NextHop(q.address, None, q.weight))
    else if q.swIfIndex !in ifs.nameOf then None
    else Some(NextHop(q.address, Some(ifs.nameOf[q.swIfIndex]), q.weight))
  }

  function EncodeAll(ifs: Interfaces, hops: set<NextHop>): set<Path> {
    set h | h in hops && Encode(ifs, h).Some? :: Encode(ifs, h).value
  }

  function DecodeAll(ifs: Interfaces, paths: set<Path>): set<NextHop> {
    set q | q in paths && Decode(ifs, q).Some? :: Decode(ifs, q).value
  }

  function ToSet(hops: seq<NextHop>): set<NextHop> {
    set i | 0 <= i < |hops| :: hops[i]
  }

  ghost predicate Encodable(ifs: Interfaces, hops: set<NextHop>) {
    forall h :: h in hops ==> Encode(ifs, h).Some?
  }

  /** No two different next hops have the same path. */
  ghost predicate Unambiguous(ifs: Interfaces, hops: set<NextHop>) {
    forall x, y :: x in hops && y in hops && Encode(ifs, x) == Encode(ifs, y) ==> x == y
  }

  /** Dumping a path and encoding the result gives the path back. */
  ghost predicate Canonical(ifs: Interfaces, q: Path) {
    Decode(ifs, q).Some? && Encode(ifs, Decode(ifs, q).value) == Some(q)
  }

  /** A dumped path is canonical unless it runs over the uplink tap with an address that the
      encoding would have rewritten. */
  lemma CanonicalExactly(ifs: Interfaces, q: Path)
    requires ifs.Valid()
    ensures Canonical(ifs, q) <==>
      || q.swIfIndex == ANY_INTERFACE
      || (q.swIfIndex in ifs.nameOf && (ifs.nameOf[q.swIfIndex] == ifs.popTap ==> q.address[14] < 16))
  {
  }

  /** Encoding a dumped path a second time changes nothing: the rewriting is idempotent. */
  lemma EncodeDecodeIdempotent(ifs: Interfaces, q: Path)
    requires ifs.Valid() && Decode(ifs, q).Some?
    ensures Encode(ifs, Decode(ifs, q).value).Some?
    ensures Canonical(ifs, Encode(ifs, Decode(ifs, q).value).value)
  {
  }

  /** A next hop whose interface name is the one reported for its index encodes canonically. */
  lemma EncodeIsCanonical(ifs: Interfaces, h: NextHop)
    requires ifs.Valid() && Encode(ifs, h).Some?
    requires h.ifName.Some? ==> ifs.nameOf[ifs.indexOf[h.ifName.value]] == h.ifName.value
    ensures Canonical(ifs, Encode(ifs, h).value)
  {
  }

  /** What a dump can give back: a weight that is a byte, and over an interface the name that is
      reported for it and an address that is not rewritten. */
  ghost predicate Reportable(ifs: Interfaces, h: NextHop)
    requires Encode(ifs, h).Some? && ifs.Valid()
  {
    && 0 <= h.weight < 256
    && (h.ifName.Some? ==>
          && ifs.nameOf[ifs.indexOf[h.ifName.value]] == h.ifName.value
          && (h.ifName.value == ifs.popTap ==> h.address[14] < 16))
  }

  /** A programmed next hop is reported as it was stated if and only if it is such. */
  lemma ReportedExactly(ifs: Interfaces, h: NextHop)
    requires ifs.Valid() && Encode(ifs, h).Some?
    ensures Decode(ifs, Encode(ifs, h).value) == Some(h) <==> Reportable(ifs, h)
  {
  }

  ghost predicate AllReportable(ifs: Interfaces, hops: set<NextHop>)
    requires ifs.Valid()
  {
    forall h :: h in hops && Encode(ifs, h).Some? ==> Reportable(ifs, h)
  }

  /** The paths of such next hops are dumped as those next hops. */
  lemma ReportedBack(ifs: Interfaces, hops: set<NextHop>)
    requires ifs.Valid() && Encodable(ifs, hops)
    ensures AllReportable(ifs, hops) ==> DecodeAll(ifs, EncodeAll(ifs, hops)) == hops
  {
    if AllReportable(ifs, hops) {
      forall h | h in hops ensures Decode(ifs, Encode(ifs, h).value) == Some(h) {
        ReportedExactly(ifs, h);
      }
      assert forall h :: h in hops ==> Encode(ifs, h).value in EncodeAll(ifs, hops);
    }
  }

  /** Knowing more interfaces does not change the path of an encodable next hop. */
  lemma EncodeStable(older: Interfaces, ifs: Interfaces, hops: set<NextHop>)
    requires ifs.Extends(older) && Encodable(older, hops)
    ensures Encodable(ifs, hops) && EncodeAll(ifs, hops) == EncodeAll(older, hops)
    ensures Unambiguous(older, hops) ==> Unambiguous(ifs, hops)
  {
    forall h | h in hops ensures Encode(ifs, h) == Encode(older, h) {
      assert Encode(older, h).Some?;
    }
  }

  /** Dumped canonical paths have different encodings, and together encode to the dumped set. */
  lemma DecodedCanonical(ifs: Interfaces, paths: set<Path>)
    requires forall q :: q in paths ==> Canonical(ifs, q)
    ensures Encodable(ifs, DecodeAll(ifs, paths)) && Unambiguous(ifs, DecodeAll(ifs, paths))
    ensures EncodeAll(ifs, DecodeAll(ifs, paths)) == paths
  {
    forall q | q in paths ensures q in EncodeAll(ifs, DecodeAll(ifs, paths)) {
      assert Decode(ifs, q).value in DecodeAll(ifs, paths);
    }
  }

  // ----- one route update -----

  /** The paths of a route that held `paths`, after deleting those of `old` that are not in `new`
      and then adding those of `added`. */
  function Programmed(ifs: Interfaces, paths: set<Path>, old': set<NextHop>, new': set<NextHop>,
                      added: set<NextHop>): set<Path>
  {
    paths - EncodeAll(ifs, old' - new') + EncodeAll(ifs, added)
  }

  /** An update from `old` to `new` leaves exactly the paths of `new`, if and only if each path
      shared by a kept and a removed next hop is also that of an added one. */
  lemma UpdateExact(ifs: Interfaces, old': set<NextHop>, new': set<NextHop>)
    requires Encodable(ifs, old') && Encodable(ifs, new')
    ensures Programmed(ifs, EncodeAll(ifs, old'), old', new', new' - old') == EncodeAll(ifs, new') <==>
      EncodeAll(ifs, old' * new') * EncodeAll(ifs, old' - new') <= EncodeAll(ifs, new' - old')
  {
    EncodeSplit(ifs, old', new');
    EncodeSplit(ifs, new', old');
    assert new' * old' == old' * new';
  }

  lemma EncodeSplit(ifs: Interfaces, a: set<NextHop>, b: set<NextHop>)
    ensures EncodeAll(ifs, a) == EncodeAll(ifs, a * b) + EncodeAll(ifs, a - b)
  {
  }

  /** In particular the update is exact when the old next hops have different paths. */
  lemma UpdateUnambiguous(ifs: Interfaces, old': set<NextHop>, new': set<NextHop>)
    requires Encodable(ifs, old') && Encodable(ifs, new') && Unambiguous(ifs, old')
    ensures Programmed(ifs, EncodeAll(ifs, old'), old', new', new' - old') == EncodeAll(ifs, new')
  {
    UpdateExact(ifs, old', new');
  }

  /** Two next hops of one route with the same path, one of them then withdrawn: the path is
      deleted although the other next hop still asks for it. */
  lemma SharedPathIsLost(ifs: Interfaces, a: Address)
    ensures
      var x, y := NextHop(a, None, 0), NextHop(a, None, 256);
      && Encodable(ifs, {x, y})
      && Programmed(ifs, EncodeAll(ifs, {x, y}), {x, y}, {x}, {x} - {x, y}) == {}
      && EncodeAll(ifs, {x}) != {}
  {
    var x, y := NextHop(a, None, 0), NextHop(a, None, 256);
    var q := Path(a, ANY_INTERFACE, 0);
    assert Encode(ifs, x) == Some(q) && Encode(ifs, y) == Some(q);
    assert {x, y} - {x} == {y} && {x} - {x, y} == {};
    assert q in EncodeAll(ifs, {x}) && q in EncodeAll(ifs, {y});
  }

  /** Flushing a dumped route removes all its paths if and only if all of them are canonical. */
  lemma FlushExact(ifs: Interfaces, paths: set<Path>)
    requires ifs.Valid() && forall q :: q in paths ==> Decode(ifs, q).Some?
    ensures paths - EncodeAll(ifs, DecodeAll(ifs, paths)) == {} <==> forall q :: q in paths ==> Canonical(ifs, q)
  {
    var hops := DecodeAll(ifs, paths);
    assert forall q :: q in paths && q !in EncodeAll(ifs, hops) ==> q in paths - EncodeAll(ifs, hops);
    if forall q :: q in paths ==> Canonical(ifs, q) {
      DecodedCanonical(ifs, paths);
    }
    if paths <= EncodeAll(ifs, hops) {
      forall q | q in paths ensures Canonical(ifs, q) {
        var h :| h in hops && Encode(ifs, h) == Some(q);
        var q' :| q' in paths && Decode(ifs, q') == Some(h);
        EncodeDecodeIdempotent(ifs, q');
      }
    }
  }

  /** After an update to `first` that failed having added `added`, a later update to `second`
      repairs the route if and only if `second` drops all that was withdrawn and not asked for
      in `first`, and keeps all that was added. */
  lemma RepairExact(ifs: Interfaces, old': set<NextHop>, first: set<NextHop>, added: set<NextHop>, second: set<NextHop>)
    requires Encodable(ifs, old' + added + second) && Unambiguous(ifs, old' + added + second)
    requires added <= first - old'
    ensures
      var broken := Programmed(ifs, EncodeAll(ifs, old'), old', first, added);
      Programmed(ifs, broken, old', second, second - old') == EncodeAll(ifs, second) <==>
      old' * second <= first && added <= second
  {
    var broken := Programmed(ifs, EncodeAll(ifs, old'), old', first, added);
    EncodeMember(ifs, old' + added + second);
    assert broken == EncodeAll(ifs, (old' * first) + added);
    assert Programmed(ifs, broken, old', second, second - old') ==
      EncodeAll(ifs, ((old' * first) + added) - (old' - second) + (second - old'));
    EncodeInjective(ifs, ((old' * first) + added) - (old' - second) + (second - old'), second);
    assert ((old' * first) + added) - (old' - second) + (second - old') == second <==>
      old' * second <= first && added <= second;
  }

  /** The paths that no dump can give back. */
  ghost function Residue(ifs: Interfaces, paths: set<Path>): set<Path> {
    set q | q in paths && !Canonical(ifs, q)
  }

  ghost predicate CanonicalHops(ifs: Interfaces, hops: set<NextHop>) {
    forall h :: h in hops && Encode(ifs, h).Some? ==> Canonical(ifs, Encode(ifs, h).value)
  }

  /** An update only deletes canonical paths when the cached next hops encode to such. */
  lemma ResidueStays(ifs: Interfaces, paths: set<Path>, old': set<NextHop>, new': set<NextHop>, added: set<NextHop>)
    requires CanonicalHops(ifs, old')
    ensures Residue(ifs, paths) <= Programmed(ifs, paths, old', new', added)
  {
  }

  lemma DecodedAreCanonicalHops(ifs: Interfaces, paths: set<Path>)
    requires ifs.Valid()
    ensures CanonicalHops(ifs, DecodeAll(ifs, paths))
  {
    forall q | q in paths && Decode(ifs, q).Some? ensures CanonicalHops(ifs, {Decode(ifs, q).value}) {
      EncodeDecodeIdempotent(ifs, q);
    }
    forall h | h in DecodeAll(ifs, paths) && Encode(ifs, h).Some? ensures Canonical(ifs, Encode(ifs, h).value) {
      assert CanonicalHops(ifs, {h});
      assert h in {h};
    }
  }

  /** A route that is requested as it was dumped is not touched, so a path that is not canonical
      stays although another is wanted. */
  lemma KeptRouteIsWrong(ifs: Interfaces, q: Path)
    requires ifs.Valid() && Decode(ifs, q).Some? && !Canonical(ifs, q)
    ensures
      var hops := DecodeAll(ifs, {q});
      && Encodable(ifs, hops) && Unambiguous(ifs, hops)
      && Programmed(ifs, {q}, hops, hops, hops - hops) == {q} != EncodeAll(ifs, hops)
  {
    var h := Decode(ifs, q).value;
    EncodeDecodeIdempotent(ifs, q);
    assert DecodeAll(ifs, {q}) == {h};
    assert Encode(ifs, h).value in EncodeAll(ifs, {h});
    assert EncodeAll(ifs, {h} - {h}) == {};
  }

  lemma EncodeMember(ifs: Interfaces, all: set<NextHop>)
    requires Encodable(ifs, all) && Unambiguous(ifs, all)
    ensures forall h, s :: h in all && s <= all ==> (Encode(ifs, h).value in EncodeAll(ifs, s) <==> h in s)
  {
  }

  lemma EncodeInjective(ifs: Interfaces, a: set<NextHop>, b: set<NextHop>)
    requires Encodable(ifs, a + b) && Unambiguous(ifs, a + b)
    ensures EncodeAll(ifs, a) == EncodeAll(ifs, b) ==> a == b
  {
    EncodeMember(ifs, a + b);
    if EncodeAll(ifs, a) == EncodeAll(ifs, b) {
      forall h ensures h in a <==> h in b {
        if h in a + b {
          assert Encode(ifs, h).value in EncodeAll(ifs, a) <==> h in a;
          assert Encode(ifs, h).value in EncodeAll(ifs, b) <==> h in b;
        }
      }
    }
  }
}
