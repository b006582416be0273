/** Runs of BGP commands on the ledger, with any outcome of any call. */
module BgpRuns {
  import opened Wrappers
  import opened VppPaths
  import opened VppRoutes
  import opened Announcer
  import opened BgpLedger

  /** Which announcements are accepted: `accepts` is the check of the announcer's base class, which
      for one refuses link-local peers. */
  datatype Policy = Policy(accepts: (Prefix, Option<Address>) -> bool, allowNonDefault: bool) {
    predicate Accepts(prefix: Prefix, nextHop: Option<Address>) {
      accepts(prefix, nextHop) && (allowNonDefault || prefix == DEFAULT_V6)
    }
  }

  /** A BGP update or peer loss, as handed to the announcer, with how its calls end. */
  datatype Command =
    | AddRoute(prefix: Prefix, nextHop: Option<Address>, rpc: Rpc)
    | DelRoute(prefix: Prefix, nextHop: Option<Address>, rpc: Rpc)
    | DelAllRoutes(nextHop: Option<Address>, dump: Rpc, rpcs: nat -> Rpc)

  ghost function Pushed(l: Ledger, events: seq<Event>, p: Prefix, rpc: Rpc): Ledger {
    Ledger(l.events + events, l.pushes + [Push(p, rpc, |l.events| + |events|)])
  }

  /** Withdrawing a peer that a tracked prefix does not have, or no peer at all, is an error. */
  ghost predicate Withdrawable(l: Ledger, p: Prefix, h: Option<Address>) {
    h.Some? && (EverAnnounced(l.events, p) ==> Announced(l.events, p, h.value))
  }

  /** The table could be dumped, and has a route through the peer. */
  ghost predicate Dumped(initial: Fib, l: Ledger, h: Option<Address>, dump: Rpc) {
    h.Some? && dump.Delivered? && exists p :: Via(initial, l, p, h.value)
  }

  /** What a command does to the ledger. */
  ghost predicate Step(initial: Fib, policy: Policy, c: Command, l: Ledger, l': Ledger) {
    match c
    case AddRoute(p, h, rpc) =>
      l' == if policy.Accepts(p, h) then Pushed(l, if h.Some? then [Announce(p, h.value)] else [], p, rpc) else l
    case DelRoute(p, h, rpc) =>
      l' == if Withdrawable(l, p, h) then Pushed(l, [Withdraw(p, h.value)], p, rpc) else l
    case DelAllRoutes(h, dump, rpcs) =>
      if !Dumped(initial, l, h, dump) then l' == l
      else exists order, n :: Removal(initial, l, l', h.value, order, rpcs, n)
  }

  /** The ledgers that a run of commands goes through. */
  ghost predicate IsRun(initial: Fib, policy: Policy, commands: seq<Command>, ls: seq<Ledger>) {
    && |ls| == |commands| + 1
    && forall i :: 0 <= i < |commands| ==> Step(initial, policy, commands[i], ls[i], ls[i + 1])
  }

  // ----- runs in which every call arrives -----

  ghost predicate Arrives(c: Command) {
    match c
    case DelAllRoutes(_, dump, rpcs) => dump.Delivered? && forall i :: rpcs(i).Applied()
    case _ => c.rpc.Applied()
  }

  /** The events that the commands call for, read off the commands alone. */
  ghost function Intended(policy: Policy, commands: seq<Command>): seq<Event> {
    if commands == [] then []
    else Intended(policy, commands[..|commands| - 1]) + IntendedBy(policy, commands[|commands| - 1])
  }

  ghost function IntendedBy(policy: Policy, c: Command): seq<Event> {
    match c
    case AddRoute(p, h, _) => if policy.Accepts(p, h) && h.Some? then [Announce(p, h.value)] else []
    case DelRoute(p, h, _) => if h.Some? then [Withdraw(p, h.value)] else []
    case DelAllRoutes(h, _, _) => if h.Some? then [WithdrawAll(h.value)] else []
  }

  /** Two event histories that leave the same peers announced everywhere. */
  ghost predicate SamePeers(events: seq<Event>, events': seq<Event>) {
    forall p, a :: Announced(events, p, a) <==> Announced(events', p, a)
  }

  /** The ledger is in order: no push is dated ahead, and the table is as it should be everywhere. */
  ghost predicate Clean(initial: Fib, l: Ledger) {
    Dated(l) && forall p :: Agrees(initial, l, p)
  }

  lemma SamePeersStep(events: seq<Event>, events': seq<Event>, e: Event)
    requires SamePeers(events, events')
    ensures SamePeers(events + [e], events' + [e])
  {
    assert (events + [e])[..|events|] == events && (events' + [e])[..|events'|] == events';
  }

  /** An event about peers that are not announced changes nothing. */
  lemma IdleEvent(events: seq<Event>, e: Event)
    requires e.Withdraw? ==> !Announced(events, e.prefix, e.peer)
    requires e.WithdrawAll? ==> forall p :: !Announced(events, p, e.peer)
    requires !e.Announce?
    ensures SamePeers(events + [e], events)
  {
    assert (events + [e])[..|events|] == events;
  }

  /** One step of the intended history, taken by the real one unless it makes no difference. */
  lemma FollowIntended(before: seq<Event>, after: seq<Event>, intended: seq<Event>, step: seq<Event>)
    requires SamePeers(before, intended) && |step| <= 1
    requires after == before + step || (after == before && step != [] && SamePeers(intended + step, intended))
    ensures SamePeers(after, intended + step)
  {
    if step == [] {
      assert before + step == before && intended + step == intended;
    } else {
      assert step == [step[0]];
      SamePeersStep(before, intended, step[0]);
    }
  }

  /** A pushed event keeps the ledger in order if it concerns the pushed prefix only. */
  lemma PushedClean(initial: Fib, l: Ledger, events: seq<Event>, p: Prefix, rpc: Rpc)
    requires Clean(initial, l) && rpc.Applied() && |events| <= 1
    requires events != [] ==> !events[0].WithdrawAll? && events[0].prefix == p
    ensures Clean(initial, Pushed(l, events, p, rpc))
  {
    var mid := Ledger(l.events + events, l.pushes);
    if events == [] {
      assert mid == l;
    } else {
      assert events == [events[0]];
      EventKeepsShown(initial, l, events[0]);
      assert mid.events[..|l.events|] == l.events;
    }
    forall p' | p' != p ensures Agrees(initial, mid, p') {
      assert Agrees(initial, l, p');
      assert forall q :: Current(mid, p', q) <==> Current(l, p', q);
    }
    PushShows(initial, mid, p, rpc);
    var l' := Pushed(l, events, p, rpc);
    assert l' == Ledger(mid.events, mid.pushes + [Push(p, rpc, |mid.events|)]);
    forall p' ensures Agrees(initial, l', p') {
      if p' != p {
        assert Agrees(initial, mid, p');
        assert forall q :: Shows(initial, l', p', q) <==> Shows(initial, mid, p', q);
        assert forall q :: Current(l', p', q) <==> Current(mid, p', q);
      }
    }
  }

  lemma RemovalClean(initial: Fib, l: Ledger, l': Ledger, a: Address, order: seq<Prefix>, rpcs: nat -> Rpc, n: nat)
    requires Clean(initial, l) && Removal(initial, l, l', a, order, rpcs, n) && forall i :: rpcs(i).Applied()
    ensures Clean(initial, l')
  {
    CleanRemovalExact(initial, l, l', a, order, rpcs, n);
    forall p | Via(initial, l, p, a) ensures ArrivedSince(l.pushes, l'.pushes, p) {
      var i :| 0 <= i < |order| && order[i] == p;
      assert l'.pushes[|l.pushes| + i].prefix == p;
    }
  }

  /** When no route goes through a peer, and all is in order, none is announced by it. */
  lemma NoPathNoPeer(initial: Fib, l: Ledger, a: Address)
    requires Clean(initial, l) && forall p :: !Via(initial, l, p, a)
    ensures forall p :: !Announced(l.events, p, a)
  {
    forall p | Announced(l.events, p, a) ensures false {
      assert Agrees(initial, l, p) && Current(l, p, Path(a, ANY_INTERFACE, 0));
      assert Via(initial, l, p, a);
    }
  }

  lemma ArrivingStep(initial: Fib, policy: Policy, c: Command, l: Ledger, l': Ledger, intended: seq<Event>)
    requires Clean(initial, l) && Step(initial, policy, c, l, l') && Arrives(c) && SamePeers(l.events, intended)
    ensures Clean(initial, l') && SamePeers(l'.events, intended + IntendedBy(policy, c))
  {
    match c
    case AddRoute(p, h, rpc) =>
      var step := if h.Some? then [Announce(p, h.value)] else [];
      if policy.Accepts(p, h) {
        PushedClean(initial, l, step, p, rpc);
      }
      assert l.events + [] == l.events;
      FollowIntended(l.events, l'.events, intended, IntendedBy(policy, c));
    case DelRoute(p, h, rpc) =>
      if Withdrawable(l, p, h) {
        PushedClean(initial, l, [Withdraw(p, h.value)], p, rpc);
      } else if h.Some? {
        IdleEvent(intended, Withdraw(p, h.value));
      }
      assert l.events + [] == l.events;
      FollowIntended(l.events, l'.events, intended, IntendedBy(policy, c));
    case DelAllRoutes(h, dump, rpcs) =>
      if Dumped(initial, l, h, dump) {
        var order, n :| Removal(initial, l, l', h.value, order, rpcs, n);
        RemovalClean(initial, l, l', h.value, order, rpcs, n);
      } else if h.Some? {
        NoPathNoPeer(initial, l, h.value);
        IdleEvent(intended, WithdrawAll(h.value));
      }
      assert l.events + [] == l.events;
      FollowIntended(l.events, l'.events, intended, IntendedBy(policy, c));
  }

  /** End to end, when every call arrives: the table shows for each prefix exactly the peers whose
      latest command is an accepted announcement. */
  lemma {:induction false} ArrivingRun(initial: Fib, policy: Policy, commands: seq<Command>, ls: seq<Ledger>)
    requires IsRun(initial, policy, commands, ls) && Clean(initial, ls[0])
    requires forall i :: 0 <= i < |commands| ==> Arrives(commands[i])
    ensures Clean(initial, ls[|commands|])
    ensures forall p, q :: Shows(initial, ls[|commands|], p, q) <==>
      IsBgpPath(q) && Announced(ls[0].events + Intended(policy, commands), p, q.address)
  {
    ArrivingPeers(initial, policy, commands, ls);
    forall p, q ensures Shows(initial, ls[|commands|], p, q) <==>
      IsBgpPath(q) && Announced(ls[0].events + Intended(policy, commands), p, q.address)
    {
      assert Agrees(initial, ls[|commands|], p);
    }
  }

  lemma {:induction false} ArrivingPeers(initial: Fib, policy: Policy, commands: seq<Command>, ls: seq<Ledger>)
    requires IsRun(initial, policy, commands, ls) && Clean(initial, ls[0])
    requires forall i :: 0 <= i < |commands| ==> Arrives(commands[i])
    ensures Clean(initial, ls[|commands|])
    ensures SamePeers(ls[|commands|].events, ls[0].events + Intended(policy, commands))
  {
    if commands == [] {
      assert ls[0].events + [] == ls[0].events;
    } else {
      var n := |commands| - 1;
      var earlier := commands[..n];
      ArrivingPeers(initial, policy, earlier, ls[..n + 1]);
      var intended := ls[0].events + Intended(policy, earlier);
      ArrivingStep(initial, policy, commands[n], ls[n], ls[n + 1], intended);
      assert intended + IntendedBy(policy, commands[n]) == ls[0].events + Intended(policy, commands);
    }
  }
}
