/** BGP-learnt routes: tracking which peers announce a prefix, and programming all of them as one
    multi-path route through the VPP route service. */
module BgpFib {
  import opened Wrappers
  import opened VppPaths
  import opened VppRoutes
  import opened Announcer
  import opened BgpLedger
  import opened BgpRuns
  import opened BgpRecovery

  function BgpHop(a: Address): NextHop {
    NextHop(a, None, 0)
  }

  function BgpHops(addresses: set<Address>): set<NextHop> {
    set a | a in addresses :: BgpHop(a)
  }

  function BgpPaths(addresses: set<Address>): set<Path> {
    set a | a in addresses :: Path(a, ANY_INTERFACE, 0)
  }

  /** BGP next hops name no interface, so they always encode, each to its own path. */
  lemma BgpHopsEncode(ifs: Interfaces, addresses: set<Address>)
    ensures Encodable(ifs, BgpHops(addresses)) && Unambiguous(ifs, BgpHops(addresses))
    ensures EncodeAll(ifs, BgpHops(addresses)) == BgpPaths(addresses)
  {
    forall a | a in addresses ensures Path(a, ANY_INTERFACE, 0) in EncodeAll(ifs, BgpHops(addresses)) {
      assert BgpHop(a) in BgpHops(addresses);
    }
  }

  method ToHops(addresses: set<Address>) returns (hops: seq<NextHop>)
    ensures ToSet(hops) == BgpHops(addresses)
  {
    hops := [];
    var todo := addresses;
    while todo != {}
      invariant todo <= addresses && ToSet(hops) == BgpHops(addresses - todo)
      decreases todo
    {
      var a :| a in todo;
      assert addresses - (todo - {a}) == (addresses - todo) + {a};
      assert ToSet(hops + [BgpHop(a)]) == ToSet(hops) + {BgpHop(a)} by {
        assert forall i :: 0 <= i < |hops| ==> (hops + [BgpHop(a)])[i] == hops[i];
        assert (hops + [BgpHop(a)])[|hops|] == BgpHop(a);
      }
      todo, hops := todo - {a}, hops + [BgpHop(a)];
    }
    assert addresses - {} == addresses;
  }

  /** The learnt peers are those whose latest event is an announcement, and a prefix is tracked from
      its first announcement on. */
  ghost predicate Tracks(learnt: map<Prefix, set<Address>>, events: seq<Event>) {
    && (forall p, a :: a in PeersOf(learnt, p) <==> Announced(events, p, a))
    && (forall p :: p in learnt <==> EverAnnounced(events, p))
  }

  lemma TracksStep(learnt: map<Prefix, set<Address>>, events: seq<Event>, e: Event, learnt': map<Prefix, set<Address>>)
    requires Tracks(learnt, events)
    requires learnt'.Keys == learnt.Keys + if e.Announce? then {e.prefix} else {}
    requires forall p :: PeersOf(learnt', p) == match e
      case Announce(p', a) => if p == p' then PeersOf(learnt, p) + {a} else PeersOf(learnt, p)
      case Withdraw(p', a) => if p == p' then PeersOf(learnt, p) - {a} else PeersOf(learnt, p)
      case WithdrawAll(a) => PeersOf(learnt, p) - {a}
    ensures Tracks(learnt', events + [e])
  {
    var more := events + [e];
    assert more[..|events|] == events;
    forall p ensures EverAnnounced(more, p) <==> EverAnnounced(events, p) || (e.Announce? && e.prefix == p) {
      if EverAnnounced(events, p) {
        var i :| 0 <= i < |events| && events[i].Announce? && events[i].prefix == p;
        assert more[i] == events[i];
      }
      if e.Announce? && e.prefix == p {
        assert more[|events|] == e;
      }
    }
  }

  /** Programs the BGP routes of a platform. */
  class PlatformFib {
    const policy: Policy
    const vpp: VppClient
    var learnt: map<Prefix, set<Address>>
    ghost const initial: Fib
    ghost var ledger: Ledger

    /** The learnt peers are those of the events, and the table has the paths that the ledger shows. */
    ghost predicate Valid()
      reads this, vpp
    {
      && vpp.Valid()
      && (forall p :: vpp.InSync(Key(BGP_PREFERENCE, p)))
      && Tracks(learnt, ledger.events)
      && Dated(ledger)
      && Displays(vpp.fib, initial, ledger)
    }

    constructor (vpp: VppClient, policy: Policy)
      requires vpp.Valid() && forall p :: vpp.InSync(Key(BGP_PREFERENCE, p))
      ensures Valid() && this.vpp == vpp && this.policy == policy && initial == vpp.fib
      ensures learnt == map[] && ledger == Ledger([], [])
    {
      this.vpp := vpp;
      this.policy := policy;
      this.learnt := map[];
      this.initial := vpp.fib;
      this.ledger := Ledger([], []);
    }

    /** That the table is as it should be for a prefix means that its paths are the learnt peers. */
    lemma AgreesMeans(p: Prefix)
      requires Valid()
      ensures Agrees(initial, ledger, p) <==> PathsAt(vpp.fib, Key(BGP_PREFERENCE, p)) == BgpPaths(PeersOf(learnt, p))
    {
      forall q ensures q in BgpPaths(PeersOf(learnt, p)) <==> Current(ledger, p, q) {
        assert Current(ledger, p, q) ==> q.address in PeersOf(learnt, p) && q == Path(q.address, ANY_INTERFACE, 0);
      }
      assert forall q :: q in PathsAt(vpp.fib, Key(BGP_PREFERENCE, p)) <==> Shows(initial, ledger, p, q);
      if Agrees(initial, ledger, p) {
        assert forall q :: Shows(initial, ledger, p, q) <==> Current(ledger, p, q);
      }
    }

    /** Sends the learnt peers of a prefix to the route service as its whole set of next hops. */
    method PushRoute(prefix: Prefix, rpc: Rpc) returns (ok: bool)
      requires Valid()
      modifies this`ledger, vpp`cache, vpp`fib, vpp`history
      ensures Valid() && ok == !rpc.Rejected?
      ensures ledger == Pushed(old(ledger), [], prefix, rpc)
      // the request arrives unless it is refused or lost; that the reply gets lost changes nothing
      ensures rpc.Delivered? || rpc.LostReply? ==>
        PathsAt(vpp.fib, Key(BGP_PREFERENCE, prefix)) == BgpPaths(PeersOf(learnt, prefix))
      ensures rpc.Rejected? || rpc.LostRequest? ==> vpp.fib == old(vpp.fib)
      ensures forall k: Key :: k.preference != BGP_PREFERENCE ==> PathsAt(vpp.fib, k) == PathsAt(old(vpp.fib), k)
    {
      var hops := ToHops(PeersOf(learnt, prefix));
      BgpHopsEncode(vpp.ifs, PeersOf(learnt, prefix));
      if rpc.Applied() {
        var _, _ := vpp.AddRoute(Key(BGP_PREFERENCE, prefix), hops);
      }
      PushShows(initial, ledger, prefix, rpc);
      PushDisplays(old(vpp.fib), vpp.fib, initial, ledger, learnt, prefix, rpc);
      assert ledger.events + [] == ledger.events;
      ledger := Ledger(ledger.events, ledger.pushes + [Push(prefix, rpc, |ledger.events|)]);
      return !rpc.Rejected?;
    }

    /** Tracks an announcement; one without a next hop is ignored. */
    method TrackAdd(nextHop: Option<Address>, prefix: Prefix)
      requires Valid()
      modifies this`learnt, this`ledger
      ensures Valid()
      ensures ledger.events == old(ledger).events + if nextHop.Some? then [Announce(prefix, nextHop.value)] else []
      ensures ledger.pushes == old(ledger).pushes
    {
      if nextHop.Some? {
        learnt := learnt[prefix := PeersOf(learnt, prefix) + {nextHop.value}];
        TracksStep(old(learnt), ledger.events, Announce(prefix, nextHop.value), learnt);
        Note(Announce(prefix, nextHop.value));
      } else {
        assert ledger.events + [] == ledger.events;
      }
    }

    /** Enters an event that has been tracked. */
    ghost method Note(e: Event)
      requires vpp.Valid() && (forall p :: vpp.InSync(Key(BGP_PREFERENCE, p)))
      requires Tracks(learnt, ledger.events + [e]) && Dated(ledger) && Displays(vpp.fib, initial, ledger)
      modifies this`ledger
      ensures Valid() && ledger == Ledger(old(ledger).events + [e], old(ledger).pushes)
    {
      EventKeepsShown(initial, ledger, e);
      ledger := Ledger(ledger.events + [e], ledger.pushes);
    }

    /** Tracks a withdrawal; withdrawing a peer that a tracked prefix does not have is an error. */
    method TrackRemove(nextHop: Address, prefix: Prefix) returns (raised: bool)
      requires Valid()
      modifies this`learnt, this`ledger
      ensures Valid()
      ensures raised <==> prefix in old(learnt) && nextHop !in old(learnt)[prefix]
      ensures raised <==> !Withdrawable(old(ledger), prefix, Some(nextHop))
      ensures raised ==> learnt == old(learnt) && ledger == old(ledger)
      ensures !raised ==> ledger == Ledger(old(ledger).events + [Withdraw(prefix, nextHop)], old(ledger).pushes)
    {
      assert nextHop in PeersOf(learnt, prefix) <==> Announced(ledger.events, prefix, nextHop);
      if prefix in learnt {
        if nextHop !in learnt[prefix] {
          return true;
        }
        learnt := learnt[prefix := learnt[prefix] - {nextHop}];
      }
      TracksStep(old(learnt), ledger.events, Withdraw(prefix, nextHop), learnt);
      Note(Withdraw(prefix, nextHop));
      return false;
    }

    /** Tracks the loss of a peer: it is removed from every prefix. */
    method TrackRemoveAll(nextHop: Address)
      requires Valid()
      modifies this`learnt, this`ledger
      ensures Valid()
      ensures ledger == Ledger(old(ledger).events + [WithdrawAll(nextHop)], old(ledger).pushes)
      ensures forall p :: nextHop !in PeersOf(learnt, p)
    {
      learnt := map p | p in learnt :: learnt[p] - {nextHop};
      TracksStep(old(learnt), ledger.events, WithdrawAll(nextHop), learnt);
      Note(WithdrawAll(nextHop));
    }

    /** Tracks an accepted announcement and pushes the prefix.  A rejected push is reported with the
        next hop; without one, the report itself fails. */
    method AddRoute(prefix: Prefix, nextHop: Option<Address>, rpc: Rpc) returns (r: Outcome)
      requires Valid()
      modifies this, vpp`cache, vpp`fib, vpp`history
      ensures Valid() && Step(initial, policy, BgpRuns.AddRoute(prefix, nextHop, rpc), old(ledger), ledger)
      ensures !policy.Accepts(prefix, nextHop) ==> r == Done(false) && learnt == old(learnt) && vpp.fib == old(vpp.fib)
      ensures policy.Accepts(prefix, nextHop) ==>
        r == if !rpc.Rejected? then Done(true) else if nextHop.Some? then Done(false) else Raised
      ensures forall k: Key :: k.preference != BGP_PREFERENCE ==> PathsAt(vpp.fib, k) == PathsAt(old(vpp.fib), k)
    {
      if !policy.accepts(prefix, nextHop) {
        return Done(false);
      }
      if !policy.allowNonDefault && prefix != DEFAULT_V6 {
        return Done(false);
      }
      TrackAdd(nextHop, prefix);
      var ok := PushRoute(prefix, rpc);
      if !ok {
        return if nextHop == None then Raised else Done(false);
      }
      return Done(true);
    }

    method DelRoute(prefix: Prefix, nextHop: Option<Address>, rpc: Rpc) returns (r: Outcome)
      requires Valid()
      modifies this, vpp`cache, vpp`fib, vpp`history
      ensures Valid() && Step(initial, policy, BgpRuns.DelRoute(prefix, nextHop, rpc), old(ledger), ledger)
      ensures r.Raised? <==> nextHop == None || (prefix in old(learnt) && nextHop.value !in old(learnt)[prefix])
      ensures r.Raised? ==> learnt == old(learnt) && ledger == old(ledger) && vpp.fib == old(vpp.fib)
      ensures r.Done? ==> r.result == !rpc.Rejected? && ledger != old(ledger)
      ensures forall k: Key :: k.preference != BGP_PREFERENCE ==> PathsAt(vpp.fib, k) == PathsAt(old(vpp.fib), k)
    {
      if nextHop == None {
        return Raised;
      }
      var raised := TrackRemove(nextHop.value, prefix);
      if raised {
        return Raised;
      }
      var ok := PushRoute(prefix, rpc);
      return Done(ok);
    }

    /** Removes a lost peer from every route that has it, by programming what is left.  The routes
        come from a dump of the table; programming stops at the first rejected push. */
    method DelAllRoutes(nextHop: Option<Address>, dump: Rpc, rpcs: nat -> Rpc)
      returns (r: Outcome, ghost order: seq<Prefix>)
      requires Valid()
      modifies this, vpp`cache, vpp`fib, vpp`history
      ensures Valid() && PeerLost(initial, old(ledger), ledger, nextHop, dump, rpcs, order, r)
      ensures r.Raised? <==> nextHop == None
      ensures ledger == old(ledger) ==> learnt == old(learnt) && vpp.fib == old(vpp.fib)
      ensures forall k: Key :: k.preference != BGP_PREFERENCE ==> PathsAt(vpp.fib, k) == PathsAt(old(vpp.fib), k)
    {
      if nextHop == None {
        return Raised, [];
      }
      if !dump.Delivered? {
        return Done(false), [];
      }
      var prefixes := RoutesVia(nextHop.value);
      if prefixes == [] {
        NotDumped(initial, ledger, nextHop.value, prefixes);
        return Done(false), [];
      }
      ghost var l := ledger;
      var ok := RemovePeer(nextHop.value, prefixes, rpcs);
      PeerIsLost(initial, l, ledger, nextHop.value, rpcs, prefixes, ok);
      return Done(ok), prefixes;
    }

    /** Forgets a peer, and pushes what is left for the routes that have it. */
    method RemovePeer(a: Address, order: seq<Prefix>, rpcs: nat -> Rpc) returns (ok: bool)
      requires Valid() && order != [] && forall p :: p in order <==> Via(initial, ledger, p, a)
      modifies this, vpp`cache, vpp`fib, vpp`history
      ensures Valid()
      ensures |ledger.pushes| > |old(ledger).pushes| && ok == !ledger.pushes[|ledger.pushes| - 1].rpc.Rejected?
      ensures Removal(initial, old(ledger), ledger, a, order, rpcs, |ledger.pushes| - |old(ledger).pushes|)
      ensures forall k: Key :: k.preference != BGP_PREFERENCE ==> PathsAt(vpp.fib, k) == PathsAt(old(vpp.fib), k)
    {
      TrackRemoveAll(a);
      ok := PushAll(order, rpcs);
    }

    /** Dumps the BGP routes and picks those through the peer. */
    method RoutesVia(a: Address) returns (order: seq<Prefix>)
      requires Valid()
      ensures forall p :: p in order <==> Via(initial, ledger, p, a)
      ensures Clean(initial, ledger) ==> NoDuplicates(order)
    {
      DumpAvailable();
      var dump := vpp.GetRoutes(BGP_PREFERENCE);
      DumpShows(dump.value, a);
      if Clean(initial, ledger) {
        DumpOnce(dump.value, a);
      }
      order := MatchingPrefixes(dump.value, a);
    }

    /** Pushes the prefixes in turn, stopping at the first rejection. */
    method PushAll(order: seq<Prefix>, rpcs: nat -> Rpc) returns (ok: bool)
      requires Valid() && order != []
      modifies this`ledger, vpp`cache, vpp`fib, vpp`history
      ensures Valid() && ledger.events == old(ledger).events
      ensures
        var n := |ledger.pushes| - |old(ledger).pushes|;
        && n > 0
        && PushedInTurn(old(ledger).pushes, ledger.pushes, order, rpcs, |ledger.events|, n)
        && (n < |order| ==> rpcs(n - 1).Rejected?)
        && ok == !rpcs(n - 1).Rejected?
      ensures forall k: Key :: k.preference != BGP_PREFERENCE ==> PathsAt(vpp.fib, k) == PathsAt(old(vpp.fib), k)
    {
      for i := 0 to |order|
        invariant Valid() && ledger.events == old(ledger).events
        invariant PushedInTurn(old(ledger).pushes, ledger.pushes, order, rpcs, |ledger.events|, i)
        invariant i > 0 ==> !rpcs(i - 1).Rejected?
        invariant forall k: Key :: k.preference != BGP_PREFERENCE ==> PathsAt(vpp.fib, k) == PathsAt(old(vpp.fib), k)
      {
        PushedOneMore(old(ledger).pushes, ledger.pushes, order, rpcs, |ledger.events|, i);
        ok := PushRoute(order[i], rpcs(i));
        if !ok {
          return;
        }
      }
      return true;
    }

    /** What BGP has programmed can always be dumped. */
    lemma DumpAvailable()
      requires Valid()
      ensures forall d :: Decodable(vpp.ifs, PathsAt(vpp.fib, Key(BGP_PREFERENCE, d)))
    {
      forall d ensures Decodable(vpp.ifs, PathsAt(vpp.fib, Key(BGP_PREFERENCE, d))) {
        assert vpp.InSync(Key(BGP_PREFERENCE, d));
      }
    }

    /** The dump lists the prefixes that have a path through the peer. */
    lemma DumpShows(dump: seq<Route>, a: Address)
      requires Valid() && IsDump(vpp.ifs, vpp.fib, BGP_PREFERENCE, dump)
      ensures forall p :: Via(initial, ledger, p, a) <==>
        exists i :: 0 <= i < |dump| && dump[i].dest == p && HasHopAt(dump[i], a)
    {
      forall p | Via(initial, ledger, p, a)
        ensures exists i :: 0 <= i < |dump| && dump[i].dest == p && HasHopAt(dump[i], a)
      {
        assert PathsAt(vpp.fib, Key(BGP_PREFERENCE, p)) != {} by {
          var q :| Shows(initial, ledger, p, q) && q.address == a;
          assert q in PathsAt(vpp.fib, Key(BGP_PREFERENCE, p));
        }
        var i :| 0 <= i < |dump| && dump[i].dest == p;
        ViaIffHop(dump[i], a);
      }
      forall i | 0 <= i < |dump| && HasHopAt(dump[i], a) ensures Via(initial, ledger, dump[i].dest, a) {
        ViaIffHop(dump[i], a);
      }
    }

    lemma ViaIffHop(route: Route, a: Address)
      requires Valid() && IsDumpOf(vpp.ifs, vpp.fib, BGP_PREFERENCE, route)
      ensures Via(initial, ledger, route.dest, a) <==> HasHopAt(route, a)
    {
      var paths := PathsAt(vpp.fib, Key(BGP_PREFERENCE, route.dest));
      if Via(initial, ledger, route.dest, a) {
        var q :| Shows(initial, ledger, route.dest, q) && q.address == a;
        assert q in paths;
        assert Decode(vpp.ifs, q).value in ToSet(route.nextHops);
      }
      if HasHopAt(route, a) {
        var j :| 0 <= j < |route.nextHops| && route.nextHops[j].address == a;
        assert route.nextHops[j] in ToSet(route.nextHops);
        var q :| q in paths && Decode(vpp.ifs, q) == Some(route.nextHops[j]);
        assert Shows(initial, ledger, route.dest, q);
      }
    }

    /** When all is in order, no route of the dump has two next hops at one address. */
    lemma DumpOnce(dump: seq<Route>, a: Address)
      requires Valid() && IsDump(vpp.ifs, vpp.fib, BGP_PREFERENCE, dump) && Clean(initial, ledger)
      requires forall i :: 0 <= i < |dump| ==> NoDuplicates(dump[i].nextHops)
      ensures forall i :: 0 <= i < |dump| ==> OneHopAt(dump[i], a)
    {
      forall i | 0 <= i < |dump| ensures OneHopAt(dump[i], a) {
        assert IsDumpOf(vpp.ifs, vpp.fib, BGP_PREFERENCE, dump[i]) && Agrees(initial, ledger, dump[i].dest);
        forall j | 0 <= j < |dump[i].nextHops| ensures dump[i].nextHops[j] == BgpHop(dump[i].nextHops[j].address) {
          assert dump[i].nextHops[j] in ToSet(dump[i].nextHops);
          var paths := PathsAt(vpp.fib, Key(BGP_PREFERENCE, dump[i].dest));
          var q :| q in paths && Decode(vpp.ifs, q) == Some(dump[i].nextHops[j]);
          assert Shows(initial, ledger, dump[i].dest, q) && Current(ledger, dump[i].dest, q);
        }
      }
    }
  }

  /** The table has exactly the paths that the ledger shows. */
  ghost predicate Displays(fib: Fib, initial: Fib, l: Ledger) {
    forall p, q :: q in PathsAt(fib, Key(BGP_PREFERENCE, p)) <==> Shows(initial, l, p, q)
  }

  /** A push that programs the learnt peers of one prefix, if it arrives, keeps the table and the
      ledger together. */
  lemma PushDisplays(before: Fib, fib: Fib, initial: Fib, l: Ledger, learnt: map<Prefix, set<Address>>, prefix: Prefix,
                     rpc: Rpc)
    requires Displays(before, initial, l) && Dated(l) && Tracks(learnt, l.events)
    requires !rpc.Applied() ==> fib == before
    requires rpc.Applied() ==> PathsAt(fib, Key(BGP_PREFERENCE, prefix)) == BgpPaths(PeersOf(learnt, prefix))
    requires forall p :: p != prefix ==> PathsAt(fib, Key(BGP_PREFERENCE, p)) == PathsAt(before, Key(BGP_PREFERENCE, p))
    ensures Displays(fib, initial, Ledger(l.events, l.pushes + [Push(prefix, rpc, |l.events|)]))
  {
    var l' := Ledger(l.events, l.pushes + [Push(prefix, rpc, |l.events|)]);
    PushShows(initial, l, prefix, rpc);
    forall p, q ensures q in PathsAt(fib, Key(BGP_PREFERENCE, p)) <==> Shows(initial, l', p, q) {
      if p == prefix && rpc.Applied() {
        assert Agrees(initial, l', p);
        assert Current(l', p, q) <==> IsBgpPath(q) && q.address in PeersOf(learnt, p);
        assert IsBgpPath(q) ==> q == Path(q.address, ANY_INTERFACE, 0);
      } else {
        assert Shows(initial, l', p, q) <==> Shows(initial, l, p, q);
      }
    }
  }

  /** What is done about the loss of a peer: nothing without a dump that shows it; otherwise the
      routes that have it are pushed in turn, and the result tells whether the last push was rejected. */
  ghost predicate PeerLost(initial: Fib, l: Ledger, l': Ledger, h: Option<Address>, dump: Rpc, rpcs: nat -> Rpc,
                           order: seq<Prefix>, r: Outcome)
  {
    if Dumped(initial, l, h, dump) then
      && |l'.pushes| > |l.pushes|
      && Removal(initial, l, l', h.value, order, rpcs, |l'.pushes| - |l.pushes|)
      && r == Done(!l'.pushes[|l'.pushes| - 1].rpc.Rejected?)
      && (Clean(initial, l) ==> NoDuplicates(order))
    else
      l' == l && order == [] && (r.Done? ==> !r.result)
  }

  lemma NotDumped(initial: Fib, l: Ledger, a: Address, order: seq<Prefix>)
    requires order == [] && forall p :: p in order <==> Via(initial, l, p, a)
    ensures !Dumped(initial, l, Some(a), Delivered)
  {
  }

  lemma PeerIsLost(initial: Fib, l: Ledger, l': Ledger, a: Address, rpcs: nat -> Rpc, order: seq<Prefix>, ok: bool)
    requires |l'.pushes| > |l.pushes| && Removal(initial, l, l', a, order, rpcs, |l'.pushes| - |l.pushes|)
    requires ok == !l'.pushes[|l'.pushes| - 1].rpc.Rejected? && (Clean(initial, l) ==> NoDuplicates(order))
    ensures PeerLost(initial, l, l', Some(a), Delivered, rpcs, order, Done(ok)) && l' != l
  {
    assert order[0] in order;
  }

  // ----- whole runs -----

  /** Over any run, whatever becomes of the calls, the paths of each prefix are exactly the peers that
      were announced when the last push of it to arrive was made. */
  method Run(f: PlatformFib, commands: seq<Command>) returns (ghost ls: seq<Ledger>)
    requires f.Valid()
    modifies f, f.vpp`cache, f.vpp`fib, f.vpp`history
    ensures f.Valid()
    ensures IsRun(f.initial, f.policy, commands, ls) && ls[0] == old(f.ledger) && ls[|commands|] == f.ledger
    ensures forall p, q :: q in PathsAt(f.vpp.fib, Key(BGP_PREFERENCE, p)) <==> Shows(f.initial, f.ledger, p, q)
    ensures forall k: Key :: k.preference != BGP_PREFERENCE ==> PathsAt(f.vpp.fib, k) == PathsAt(old(f.vpp.fib), k)
    // end to end, when the table was in order and every call arrives
    ensures old(Clean(f.initial, f.ledger)) && (forall i :: 0 <= i < |commands| ==> Arrives(commands[i])) ==>
      forall p, q :: q in PathsAt(f.vpp.fib, Key(BGP_PREFERENCE, p)) <==>
        IsBgpPath(q) && Announced(old(f.ledger).events + Intended(f.policy, commands), p, q.address)
    // throughout, only prefixes whose latest push did not arrive differ, if and only if no loss of a
    // peer leaves one behind
    ensures old(Explained(f.initial, f.ledger)) ==>
      ((forall i :: 0 <= i < |ls| ==> Explained(f.initial, ls[i])) <==>
       forall i :: 0 <= i < |commands| ==> Thorough(f.initial, commands[i], ls[i], ls[i + 1]))
  {
    ls := [f.ledger];
    for i := 0 to |commands|
      invariant f.Valid()
      invariant IsRun(f.initial, f.policy, commands[..i], ls) && ls[0] == old(f.ledger) && ls[i] == f.ledger
      invariant forall k: Key :: k.preference != BGP_PREFERENCE ==> PathsAt(f.vpp.fib, k) == PathsAt(old(f.vpp.fib), k)
    {
      RunOne(f, commands[i]);
      RunLonger(f.initial, f.policy, commands[..i], ls, commands[i], f.ledger);
      assert commands[..i] + [commands[i]] == commands[..i + 1];
      ls := ls + [f.ledger];
    }
    assert commands[..|commands|] == commands;
    if old(Clean(f.initial, f.ledger)) && forall i :: 0 <= i < |commands| ==> Arrives(commands[i]) {
      ArrivingRun(f.initial, f.policy, commands, ls);
    }
    if old(Explained(f.initial, f.ledger)) {
      RunExplained(f.initial, f.policy, commands, ls);
    }
  }

  lemma RunLonger(initial: Fib, policy: Policy, commands: seq<Command>, ls: seq<Ledger>, c: Command, l: Ledger)
    requires IsRun(initial, policy, commands, ls) && Step(initial, policy, c, ls[|commands|], l)
    ensures IsRun(initial, policy, commands + [c], ls + [l])
  {
  }

  method RunOne(f: PlatformFib, c: Command)
    requires f.Valid()
    modifies f, f.vpp`cache, f.vpp`fib, f.vpp`history
    ensures f.Valid() && Step(f.initial, f.policy, c, old(f.ledger), f.ledger)
    ensures forall k: Key :: k.preference != BGP_PREFERENCE ==> PathsAt(f.vpp.fib, k) == PathsAt(old(f.vpp.fib), k)
  {
    match c {
      case AddRoute(p, h, rpc) => var _ := f.AddRoute(p, h, rpc);
      case DelRoute(p, h, rpc) => var _ := f.DelRoute(p, h, rpc);
      case DelAllRoutes(h, dump, rpcs) => var _, _ := f.DelAllRoutes(h, dump, rpcs);
    }
  }

  /** Losing a peer, in any state, be it for the first time or again: exactly the listed prefixes of
      which no push arrived still have a path through it, so none has when all pushes arrive; and
      exactly which prefixes differ from what is announced.  If all was in order before, these are all
      prefixes whose push failed if and only if no push but the last of the list is rejected. */
  method LosePeer(f: PlatformFib, a: Address, rpcs: nat -> Rpc) returns (r: Outcome, ghost order: seq<Prefix>)
    requires f.Valid()
    modifies f, f.vpp`cache, f.vpp`fib, f.vpp`history
    ensures f.Valid()
    ensures forall p :: p in order <==> old(Via(f.initial, f.ledger, p, a))
    ensures forall p :: Via(f.initial, f.ledger, p, a) <==>
      p in order && !ArrivedSince(old(f.ledger).pushes, f.ledger.pushes, p)
    ensures (forall i :: 0 <= i < |order| ==> rpcs(i).Applied()) ==> forall p :: !Via(f.initial, f.ledger, p, a)
    ensures order != [] ==> forall p :: !Agrees(f.initial, f.ledger, p) <==>
      && !ArrivedSince(old(f.ledger).pushes, f.ledger.pushes, p)
      && (p in order || !old(AgreesBut(f.initial, f.ledger, p, a)))
    ensures old(Clean(f.initial, f.ledger)) ==>
      && NoDuplicates(order)
      && ((forall p :: !Agrees(f.initial, f.ledger, p) ==> FailedSince(old(f.ledger).pushes, f.ledger.pushes, p)) <==>
          forall i :: 0 <= i < |order| - 1 ==> !rpcs(i).Rejected?)
    ensures r == Done(order != [] && forall i :: 0 <= i < |order| ==> !rpcs(i).Rejected?)
  {
    ghost var l, initial := f.ledger, f.initial;
    r, order := f.DelAllRoutes(Some(a), Delivered, rpcs);
    if Dumped(initial, l, Some(a), Delivered) {
      LostPeer(initial, l, f.ledger, a, order, rpcs, r);
    } else {
      assert forall p :: !Via(initial, l, p, a);
      assert forall p :: !ArrivedSince(l.pushes, l.pushes, p);
      if Clean(initial, l) {
        assert forall p :: Agrees(initial, l, p);
      }
    }
  }

  lemma LostPeer(initial: Fib, l: Ledger, l': Ledger, a: Address, order: seq<Prefix>, rpcs: nat -> Rpc, r: Outcome)
    requires Dated(l) && Dumped(initial, l, Some(a), Delivered)
    requires PeerLost(initial, l, l', Some(a), Delivered, rpcs, order, r)
    ensures forall p :: p in order <==> Via(initial, l, p, a)
    ensures forall p :: Via(initial, l', p, a) <==> p in order && !ArrivedSince(l.pushes, l'.pushes, p)
    ensures (forall i :: 0 <= i < |order| ==> rpcs(i).Applied()) ==> forall p :: !Via(initial, l', p, a)
    ensures order != [] && forall p :: !Agrees(initial, l', p) <==>
      !ArrivedSince(l.pushes, l'.pushes, p) && (p in order || !AgreesBut(initial, l, p, a))
    ensures Clean(initial, l) ==>
      && NoDuplicates(order)
      && ((forall p :: !Agrees(initial, l', p) ==> FailedSince(l.pushes, l'.pushes, p)) <==>
          forall i :: 0 <= i < |order| - 1 ==> !rpcs(i).Rejected?)
    ensures r == Done(forall i :: 0 <= i < |order| ==> !rpcs(i).Rejected?)
  {
    var n := |l'.pushes| - |l.pushes|;
    forall p ensures Via(initial, l', p, a) <==> p in order && !ArrivedSince(l.pushes, l'.pushes, p) {
      RemovalVia(initial, l, l', a, order, rpcs, n, p);
    }
    RemovedExactly(initial, l, l', a, order, rpcs, n);
    forall p ensures !Agrees(initial, l', p) <==>
      !ArrivedSince(l.pushes, l'.pushes, p) && (p in order || !AgreesBut(initial, l, p, a))
    {
      RemovalExact(initial, l, l', a, order, rpcs, n, p);
    }
    if Clean(initial, l) {
      FailuresExplainExactly(initial, l, l', a, order, rpcs, n);
    }
    RemovalResult(initial, l, l', a, order, rpcs, n);
  }

  /** The last push is rejected exactly if any of the list is. */
  lemma RemovalResult(initial: Fib, l: Ledger, l': Ledger, a: Address, order: seq<Prefix>, rpcs: nat -> Rpc, n: nat)
    requires Removal(initial, l, l', a, order, rpcs, n)
    ensures l'.pushes[|l'.pushes| - 1].rpc.Rejected? <==> exists i :: 0 <= i < |order| && rpcs(i).Rejected?
  {
    assert l'.pushes[|l'.pushes| - 1].rpc == rpcs(n - 1);
  }

  /** Success is also reported when the requests are lost on the way: the removal of a peer that some
      prefix has returns true, and every such prefix keeps its path. */
  method LostRemovalReported(f: PlatformFib, a: Address, p: Prefix) returns (r: Outcome)
    requires f.Valid() && Via(f.initial, f.ledger, p, a)
    modifies f, f.vpp`cache, f.vpp`fib, f.vpp`history
    ensures f.Valid() && r == Done(true) && Via(f.initial, f.ledger, p, a)
  {
    ghost var l, order := f.ledger, [];
    r, order := f.DelAllRoutes(Some(a), Delivered, _ => LostRequest);
    AllLost(f.initial, l, f.ledger, a, order, _ => LostRequest, r, p);
  }

  lemma AllLost(initial: Fib, l: Ledger, l': Ledger, a: Address, order: seq<Prefix>, rpcs: nat -> Rpc, r: Outcome,
                p: Prefix)
    requires Dated(l) && PeerLost(initial, l, l', Some(a), Delivered, rpcs, order, r) && Via(initial, l, p, a)
    requires forall i :: rpcs(i) == LostRequest
    ensures r == Done(true) && Via(initial, l', p, a)
  {
    var n := |l'.pushes| - |l.pushes|;
    RemovalVia(initial, l, l', a, order, rpcs, n, p);
    RemovalResult(initial, l, l', a, order, rpcs, n);
  }

  /** A removal that may have failed in any way, and its repetition with all pushes arriving: no route
      through the peer is left. */
  method RepeatedRemoval(f: PlatformFib, a: Address, rpcs: nat -> Rpc)
    requires f.Valid()
    modifies f, f.vpp`cache, f.vpp`fib, f.vpp`history
    ensures f.Valid() && forall p :: !Via(f.initial, f.ledger, p, a)
  {
    var _, _ := f.DelAllRoutes(Some(a), Delivered, rpcs);
    ghost var l, order := f.ledger, [];
    var r;
    r, order := f.DelAllRoutes(Some(a), Delivered, _ => Delivered);
    AllArrived(f.initial, l, f.ledger, a, order, _ => Delivered, r);
  }

  lemma AllArrived(initial: Fib, l: Ledger, l': Ledger, a: Address, order: seq<Prefix>, rpcs: nat -> Rpc, r: Outcome)
    requires Dated(l) && PeerLost(initial, l, l', Some(a), Delivered, rpcs, order, r) && forall i :: rpcs(i).Applied()
    ensures forall p :: !Via(initial, l', p, a)
  {
    if Dumped(initial, l, Some(a), Delivered) {
      RemovedExactly(initial, l, l', a, order, rpcs, |l'.pushes| - |l.pushes|);
    }
  }

  /** Two routes through a lost peer, with the first push rejected: both differ, although the route
      service rejected one of them only. */
  method RejectedRemoval(f: PlatformFib, p1: Prefix, p2: Prefix, a: Address)
    requires f.Valid() && Clean(f.initial, f.ledger) && p1 != p2
    requires a in PeersOf(f.learnt, p1) && a in PeersOf(f.learnt, p2)
    modifies f, f.vpp`cache, f.vpp`fib, f.vpp`history
    ensures f.Valid() && !Agrees(f.initial, f.ledger, p1) && !Agrees(f.initial, f.ledger, p2)
    ensures
      || !FailedSince(old(f.ledger).pushes, f.ledger.pushes, p1)
      || !FailedSince(old(f.ledger).pushes, f.ledger.pushes, p2)
  {
    PeerIsVia(f, p1, a);
    PeerIsVia(f, p2, a);
    ghost var l, order := f.ledger, [];
    var r;
    r, order := f.DelAllRoutes(Some(a), Delivered, _ => Rejected);
    AllRejected(f.initial, l, f.ledger, a, order, _ => Rejected, r, p1, p2);
  }

  lemma AllRejected(initial: Fib, l: Ledger, l': Ledger, a: Address, order: seq<Prefix>, rpcs: nat -> Rpc, r: Outcome,
                    p1: Prefix, p2: Prefix)
    requires Clean(initial, l) && PeerLost(initial, l, l', Some(a), Delivered, rpcs, order, r) && rpcs(0).Rejected?
    requires p1 != p2 && Via(initial, l, p1, a) && Via(initial, l, p2, a)
    ensures !Agrees(initial, l', p1) && !Agrees(initial, l', p2)
    ensures !FailedSince(l.pushes, l'.pushes, p1) || !FailedSince(l.pushes, l'.pushes, p2)
  {
    RejectedFirst(initial, l, l', a, order, rpcs, |l'.pushes| - |l.pushes|);
  }

  lemma PeerIsVia(f: PlatformFib, p: Prefix, a: Address)
    requires f.Valid() && Clean(f.initial, f.ledger) && a in PeersOf(f.learnt, p)
    ensures Via(f.initial, f.ledger, p, a)
  {
    assert Agrees(f.initial, f.ledger, p) && Current(f.ledger, p, Path(a, ANY_INTERFACE, 0));
  }

  ghost predicate HasHopAt(route: Route, a: Address) {
    exists j :: 0 <= j < |route.nextHops| && route.nextHops[j].address == a
  }

  ghost predicate OneHopAt(route: Route, a: Address) {
    forall i, j :: 0 <= i < j < |route.nextHops| && route.nextHops[i].address == a ==> route.nextHops[j].address != a
  }

  /** The prefixes of a dump with a next hop at this address, once per such next hop. */
  method MatchingPrefixes(routes: seq<Route>, a: Address) returns (r: seq<Prefix>)
    ensures forall p :: p in r <==> exists i :: 0 <= i < |routes| && routes[i].dest == p && HasHopAt(routes[i], a)
    ensures DistinctDests(routes) && (forall i :: 0 <= i < |routes| ==> OneHopAt(routes[i], a)) ==> NoDuplicates(r)
  {
    r := [];
    ghost var once := DistinctDests(routes) && forall i :: 0 <= i < |routes| ==> OneHopAt(routes[i], a);
    for i := 0 to |routes|
      invariant forall p :: p in r <==> exists i' :: 0 <= i' < i && routes[i'].dest == p && HasHopAt(routes[i'], a)
      invariant once ==> NoDuplicates(r)
    {
      ghost var before := r;
      assert once ==> routes[i].dest !in before && OneHopAt(routes[i], a);
      for j := 0 to |routes[i].nextHops|
        invariant forall p :: p in r <==>
          || p in before
          || (p == routes[i].dest && exists j' :: 0 <= j' < j && routes[i].nextHops[j'].address == a)
        invariant once ==> NoDuplicates(r)
      {
        if routes[i].nextHops[j].address == a {
          r := r + [routes[i].dest];
        }
      }
    }
  }
}
