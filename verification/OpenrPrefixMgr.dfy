/** Redistribution of BGP-learnt prefixes into Open/R: a prefix is advertised while at least one
    peer announces it. */
module OpenrPrefixMgr {
  import opened Wrappers
  import opened VppPaths
  import opened Announcer

  type Peer = Option<Address>
  type Learnt = map<Prefix, set<Peer>>

  /** The prefix is advertised exactly when some peer announces it. */
  ghost predicate Consistent(learnt: Learnt, advertised: set<Prefix>, p: Prefix) {
    p in advertised <==> PeersOf(learnt, p) != {}
  }

  /** The peers left when one is lost: a last peer stays if its prefix could not be withdrawn. */
  function Left(peers: set<Peer>, peer: Peer, rpc: Rpc): set<Peer> {
    if peers == {peer} && rpc.Rejected? then peers else peers - {peer}
  }

  /** The loss of the peer takes the prefix out of Open/R. */
  predicate Withdrawn(peers: set<Peer>, peer: Peer, rpc: Rpc) {
    peers == {peer} && rpc.Applied()
  }

  /** The peer has been removed from the prefixes of `done`; all else is as it was. */
  ghost predicate Lost(learnt: Learnt, advertised: set<Prefix>, learnt': Learnt, advertised': set<Prefix>,
                       peer: Peer, rpcs: Prefix -> Rpc, done: set<Prefix>)
  {
    forall p :: LostAt(learnt, advertised, learnt', advertised', peer, rpcs, p, p in done)
  }

  ghost predicate LostAt(learnt: Learnt, advertised: set<Prefix>, learnt': Learnt, advertised': set<Prefix>,
                         peer: Peer, rpcs: Prefix -> Rpc, p: Prefix, done: bool)
  {
    var peers := PeersOf(learnt, p);
    if done then PeersOf(learnt', p) == Left(peers, peer, rpcs(p)) &&
                 (p in advertised' <==> p in advertised && !Withdrawn(peers, peer, rpcs(p)))
    else PeersOf(learnt', p) == peers && (p in advertised' <==> p in advertised)
  }

  lemma LostOneMore(learnt0: Learnt, advertised0: set<Prefix>, learnt: Learnt, advertised: set<Prefix>,
                    learnt': Learnt, advertised': set<Prefix>, peer: Peer, rpcs: Prefix -> Rpc,
                    done: set<Prefix>, prefix: Prefix)
    requires prefix !in done && Lost(learnt0, advertised0, learnt, advertised, peer, rpcs, done)
    requires LostAt(learnt, advertised, learnt', advertised', peer, rpcs, prefix, true)
    requires forall p :: p != prefix ==>
      PeersOf(learnt', p) == PeersOf(learnt, p) && (p in advertised' <==> p in advertised)
    ensures Lost(learnt0, advertised0, learnt', advertised', peer, rpcs, done + {prefix})
  {
    forall p ensures LostAt(learnt0, advertised0, learnt', advertised', peer, rpcs, p, p in done + {prefix}) {
      assert LostAt(learnt0, advertised0, learnt, advertised, peer, rpcs, p, p in done);
    }
  }

  lemma LostEverywhere(learnt: Learnt, advertised: set<Prefix>, learnt': Learnt, advertised': set<Prefix>,
                       peer: Peer, rpcs: Prefix -> Rpc)
    requires Lost(learnt, advertised, learnt', advertised', peer, rpcs, learnt.Keys)
    ensures forall p :: LostAt(learnt, advertised, learnt', advertised', peer, rpcs, p, true)
    ensures forall p :: !rpcs(p).Rejected? || PeersOf(learnt, p) != {peer} ==>
      PeersOf(learnt', p) == PeersOf(learnt, p) - {peer}
    ensures forall p :: rpcs(p).Rejected? && PeersOf(learnt, p) == {peer} ==> PeersOf(learnt', p) == {peer}
    ensures forall p :: p in advertised' <==>
      p in advertised && !(PeersOf(learnt, p) == {peer} && rpcs(p).Applied())
  {
    forall p
      ensures LostAt(learnt, advertised, learnt', advertised', peer, rpcs, p, true)
      ensures !rpcs(p).Rejected? || PeersOf(learnt, p) != {peer} ==> PeersOf(learnt', p) == PeersOf(learnt, p) - {peer}
      ensures rpcs(p).Rejected? && PeersOf(learnt, p) == {peer} ==> PeersOf(learnt', p) == {peer}
      ensures p in advertised' <==> p in advertised && !(PeersOf(learnt, p) == {peer} && rpcs(p).Applied())
    {
      assert LostAt(learnt, advertised, learnt', advertised', peer, rpcs, p, p in learnt.Keys);
    }
  }

  class PrefixMgr {
    const accepts: (Prefix, Peer) -> bool
    const allowNonDefault: bool
    var learnt: Learnt
    /** The prefixes that Open/R redistributes on our behalf. */
    var advertised: set<Prefix>

    constructor (advertised: set<Prefix>, allowNonDefault: bool, accepts: (Prefix, Peer) -> bool)
      ensures this.advertised == advertised && learnt == map[]
      ensures this.allowNonDefault == allowNonDefault && this.accepts == accepts
    {
      this.accepts := accepts;
      this.allowNonDefault := allowNonDefault;
      this.learnt := map[];
      this.advertised := advertised;
    }

    predicate Accepted(prefix: Prefix, peer: Peer) {
      accepts(prefix, peer) && (allowNonDefault || prefix == DEFAULT_V6)
    }

    /** Advertises the prefix, and then remembers the peer. */
    method AddRoute(prefix: Prefix, peer: Peer, rpc: Rpc) returns (r: bool)
      modifies this
      ensures r == (Accepted(prefix, peer) && !rpc.Rejected?)
      ensures forall p :: PeersOf(learnt, p) == PeersOf(old(learnt), p) + (if r && p == prefix then {peer} else {})
      ensures advertised == old(advertised) + (if r && rpc.Applied() then {prefix} else {})
      ensures forall p :: old(Consistent(learnt, advertised, p)) && (p == prefix ==> rpc != LostRequest) ==>
        Consistent(learnt, advertised, p)
      ensures r && rpc.Applied() ==> Consistent(learnt, advertised, prefix)
      ensures r && rpc == LostRequest ==> (Consistent(learnt, advertised, prefix) <==> prefix in old(advertised))
    {
      if !accepts(prefix, peer) {
        return false;
      }
      if !allowNonDefault && prefix != DEFAULT_V6 {
        return false;
      }
      if rpc.Rejected? {
        return false;
      }
      if rpc.Applied() {
        advertised := advertised + {prefix};
      }
      learnt := learnt[prefix := PeersOf(learnt, prefix) + {peer}];
      return true;
    }

    /** Forgets one peer; the prefix is withdrawn from Open/R only together with its last peer. */
    method DelRoute(prefix: Prefix, peer: Peer, rpc: Rpc) returns (r: Outcome)
      modifies this
      ensures r.Raised? <==> prefix !in old(learnt)
      ensures
        var peers := PeersOf(old(learnt), prefix);
        && PeersOf(learnt, prefix) == Left(peers, peer, rpc)
        && advertised == old(advertised) - (if Withdrawn(peers, peer, rpc) then {prefix} else {})
        && (r.Done? ==> r.result == (PeersOf(learnt, prefix) != peers))
      // in plain sets: the peer alone is removed, unless it is the last and the withdrawal is refused
      ensures !rpc.Rejected? ==> PeersOf(learnt, prefix) == PeersOf(old(learnt), prefix) - {peer}
      ensures PeersOf(old(learnt), prefix) != {peer} ==>
        PeersOf(learnt, prefix) == PeersOf(old(learnt), prefix) - {peer}
      ensures rpc.Rejected? && PeersOf(old(learnt), prefix) == {peer} ==>
        learnt == old(learnt) && advertised == old(advertised) && r == Done(false)
      ensures prefix in old(learnt) && (!rpc.Rejected? || PeersOf(old(learnt), prefix) != {peer}) ==>
        r == Done(peer in PeersOf(old(learnt), prefix))
      // and the prefix leaves Open/R only with it
      ensures forall p :: p in old(advertised) && p !in advertised <==>
        p == prefix && p in old(advertised) && PeersOf(old(learnt), p) == {peer} && rpc.Applied()
      ensures advertised <= old(advertised)
      ensures learnt.Keys == old(learnt).Keys
      ensures forall p :: p != prefix ==> PeersOf(learnt, p) == PeersOf(old(learnt), p)
      ensures forall p :: old(Consistent(learnt, advertised, p)) && (p == prefix ==> rpc != LostRequest) ==>
        Consistent(learnt, advertised, p)
    {
      if prefix !in learnt {
        return Raised;
      }
      if peer !in learnt[prefix] {
        return Done(false);
      }
      if |learnt[prefix]| > 1 {
        // another peer still announces the prefix, so it stays in Open/R
        assert learnt[prefix] != {peer};
        assert learnt[prefix] - {peer} != {} by {
          assert learnt[prefix] == (learnt[prefix] - {peer}) + {peer};
        }
        learnt := learnt[prefix := learnt[prefix] - {peer}];
        return Done(true);
      }
      SingletonIs(learnt[prefix], peer);
      if rpc.Rejected? {
        return Done(false);
      }
      if rpc.Applied() {
        advertised := advertised - {prefix};
      }
      learnt := learnt[prefix := learnt[prefix] - {peer}];
      return Done(true);
    }

    /** Forgets the peer for one prefix, if it has it. */
    method Forget(prefix: Prefix, peer: Peer, rpcs: Prefix -> Rpc) returns (gone: bool)
      requires prefix in learnt
      modifies this
      ensures learnt.Keys == old(learnt).Keys
      ensures LostAt(old(learnt), old(advertised), learnt, advertised, peer, rpcs, prefix, true)
      ensures forall p :: p != prefix ==>
        PeersOf(learnt, p) == PeersOf(old(learnt), p) && (p in advertised <==> p in old(advertised))
      ensures gone <==> PeersOf(learnt, prefix) != PeersOf(old(learnt), prefix)
    {
      if peer !in learnt[prefix] {
        return false;
      }
      var done := DelRoute(prefix, peer, rpcs(prefix));
      return done == Done(true);
    }

    /** Forgets a lost peer everywhere; `rpcs` says how the withdrawal of each prefix ends. */
    method DelAllRoutes(peer: Peer, rpcs: Prefix -> Rpc) returns (r: bool)
      modifies this
      ensures learnt.Keys == old(learnt).Keys
      ensures forall p :: LostAt(old(learnt), old(advertised), learnt, advertised, peer, rpcs, p, true)
      // in plain sets: the peer is gone, except where it is the last and the withdrawal is refused
      ensures forall p :: !rpcs(p).Rejected? || PeersOf(old(learnt), p) != {peer} ==>
        PeersOf(learnt, p) == PeersOf(old(learnt), p) - {peer}
      ensures forall p :: rpcs(p).Rejected? && PeersOf(old(learnt), p) == {peer} ==> PeersOf(learnt, p) == {peer}
      ensures forall p :: p in advertised <==>
        p in old(advertised) && !(PeersOf(old(learnt), p) == {peer} && rpcs(p).Applied())
      ensures r <==> exists p :: PeersOf(learnt, p) != PeersOf(old(learnt), p)
      ensures forall p :: Consistent(old(learnt), old(advertised), p) && rpcs(p) != LostRequest ==>
        Consistent(learnt, advertised, p)
    {
      var removed := 0;
      var todo := learnt.Keys;
      while todo != {}
        invariant learnt.Keys == old(learnt).Keys && todo <= learnt.Keys
        invariant Lost(old(learnt), old(advertised), learnt, advertised, peer, rpcs, learnt.Keys - todo)
        invariant removed > 0 <==> exists p :: PeersOf(learnt, p) != PeersOf(old(learnt), p)
        decreases todo
      {
        var prefix :| prefix in todo;
        ghost var before, known, done := learnt, advertised, learnt.Keys - todo;
        assert LostAt(old(learnt), old(advertised), before, known, peer, rpcs, prefix, prefix in done);
        todo := todo - {prefix};
        var gone := Forget(prefix, peer, rpcs);
        LostOneMore(old(learnt), old(advertised), before, known, learnt, advertised, peer, rpcs, done, prefix);
        assert learnt.Keys - todo == done + {prefix};
        if gone {
          removed := removed + 1;
          assert PeersOf(learnt, prefix) != PeersOf(old(learnt), prefix);
        } else {
          assert forall p :: PeersOf(learnt, p) == PeersOf(before, p);
        }
      }
      assert learnt.Keys - {} == learnt.Keys;
      LostEverywhere(old(learnt), old(advertised), learnt, advertised, peer, rpcs);
      return removed > 0;
    }

    /** Compares with what Open/R advertises, and corrects the peers remembered for the prefix. An
        answer that got lost reads like an empty one. */
    method CheckForRoute(prefix: Prefix, peer: Peer, rpc: Rpc) returns (r: Outcome)
      modifies this`learnt
      ensures r.Raised? <==> rpc.Rejected? || prefix !in old(learnt)
      ensures r.Raised? ==> learnt == old(learnt)
      ensures learnt.Keys == old(learnt).Keys
      ensures r.Done? ==> r.result == (rpc.Delivered? && prefix in advertised)
      ensures r == Done(true) ==> PeersOf(learnt, prefix) == PeersOf(old(learnt), prefix) + {peer}
      ensures r == Done(false) ==> PeersOf(learnt, prefix) == PeersOf(old(learnt), prefix) - {peer}
      ensures forall p :: p != prefix ==> PeersOf(learnt, p) == PeersOf(old(learnt), p)
      ensures rpc.Delivered? || rpc.Rejected? ==>
        forall p :: old(Consistent(learnt, advertised, p)) ==> Consistent(learnt, advertised, p)
      // a prefix that Open/R lost is repaired by checking its last peer
      ensures r.Done? && prefix !in advertised ==>
        (Consistent(learnt, advertised, prefix) <==> PeersOf(old(learnt), prefix) <= {peer})
    {
      if rpc.Rejected? {
        return Raised;
      }
      var routes := if rpc.Delivered? then advertised else {};
      if prefix !in learnt {
        return Raised;
      }
      if prefix !in routes {
        learnt := learnt[prefix := learnt[prefix] - {peer}];
        return Done(false);
      }
      learnt := learnt[prefix := learnt[prefix] + {peer}];
      return Done(true);
    }
  }

  // ----- whole runs -----

  datatype Command =
    | Add(prefix: Prefix, peer: Peer, rpc: Rpc)
    | Del(prefix: Prefix, peer: Peer, rpc: Rpc)
    | DelAll(peer: Peer, rpcs: Prefix -> Rpc)
    | Check(prefix: Prefix, peer: Peer, rpc: Rpc)

  /** The command loses no request about this prefix on the way to Open/R; a check must also get its
      reply. */
  ghost predicate Heard(c: Command, p: Prefix) {
    match c
    case DelAll(_, rpcs) => rpcs(p) != LostRequest
    case Check(prefix, _, rpc) => prefix == p ==> !rpc.LostRequest? && !rpc.LostReply?
    case _ => c.prefix == p ==> c.rpc != LostRequest
  }

  ghost predicate HeardAll(commands: seq<Command>, p: Prefix) {
    forall i :: 0 <= i < |commands| ==> Heard(commands[i], p)
  }

  /** The command is not refused by Open/R for this prefix, and is not a check of it. */
  ghost predicate Taken(c: Command, p: Prefix) {
    match c
    case DelAll(_, rpcs) => !rpcs(p).Rejected?
    case Check(prefix, _, _) => prefix != p
    case _ => c.prefix == p ==> !c.rpc.Rejected?
  }

  /** The command is an accepted announcement of the prefix by the peer. */
  ghost predicate Announces(m: PrefixMgr, c: Command, p: Prefix, peer: Peer) {
    c.Add? && c.prefix == p && c.peer == peer && m.Accepted(p, peer)
  }

  /** The command says that the peer no longer announces the prefix. */
  ghost predicate Withdraws(c: Command, p: Prefix, peer: Peer) {
    (c.Del? && c.prefix == p && c.peer == peer) || (c.DelAll? && c.peer == peer)
  }

  /** The latest that the commands say of the peer is that it announces the prefix; `before` stands for
      what was said earlier. */
  ghost predicate LastAnnounces(m: PrefixMgr, commands: seq<Command>, p: Prefix, peer: Peer, before: bool) {
    if commands == [] then before
    else
      var c := commands[|commands| - 1];
      if Announces(m, c, p, peer) then true
      else !Withdraws(c, p, peer) && LastAnnounces(m, commands[..|commands| - 1], p, peer, before)
  }

  /** Over any run, with any of the calls refused by Open/R or lost: each prefix of which no call was
      lost is advertised exactly when some peer announces it; and the peers recorded for a prefix are
      exactly those that announced it last, as long as it is neither refused nor checked. */
  method Run(m: PrefixMgr, commands: seq<Command>)
    modifies m
    ensures forall p :: old(Consistent(m.learnt, m.advertised, p)) && HeardAll(commands, p) ==>
      Consistent(m.learnt, m.advertised, p)
    ensures forall p, peer :: (forall i :: 0 <= i < |commands| ==> Taken(commands[i], p)) ==>
      (peer in PeersOf(m.learnt, p) <==> LastAnnounces(m, commands, p, peer, old(peer in PeersOf(m.learnt, p))))
  {
    for i := 0 to |commands|
      invariant forall p :: old(Consistent(m.learnt, m.advertised, p)) && HeardAll(commands, p) ==>
        Consistent(m.learnt, m.advertised, p)
      invariant forall p, peer :: (forall j :: 0 <= j < |commands| ==> Taken(commands[j], p)) ==>
        (peer in PeersOf(m.learnt, p) <==> LastAnnounces(m, commands[..i], p, peer, old(peer in PeersOf(m.learnt, p))))
    {
      assert forall p :: HeardAll(commands, p) ==> Heard(commands[i], p);
      assert commands[..i + 1][..i] == commands[..i];
      RunOne(m, commands[i]);
    }
    assert commands[..|commands|] == commands;
  }

  method RunOne(m: PrefixMgr, c: Command)
    modifies m
    ensures forall p :: old(Consistent(m.learnt, m.advertised, p)) && Heard(c, p) ==>
      Consistent(m.learnt, m.advertised, p)
    ensures forall p, peer :: Taken(c, p) ==>
      (peer in PeersOf(m.learnt, p) <==>
       Announces(m, c, p, peer) || (!Withdraws(c, p, peer) && old(peer in PeersOf(m.learnt, p))))
  {
    match c {
      case Add(prefix, peer, rpc) => var _ := m.AddRoute(prefix, peer, rpc);
      case Del(prefix, peer, rpc) => var _ := m.DelRoute(prefix, peer, rpc);
      case DelAll(peer, rpcs) => var _ := m.DelAllRoutes(peer, rpcs);
      case Check(prefix, peer, rpc) => var _ := m.CheckForRoute(prefix, peer, rpc);
    }
  }

  lemma SingletonIs<T>(s: set<T>, x: T)
    requires x in s && |s| <= 1
    ensures s == {x}
  {
    assert |s - {x}| == |s| - 1;
  }
}
