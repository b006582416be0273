/** Failures and recovery over runs of BGP commands: which prefixes differ from what is announced, and
    what a repeated removal of a lost peer achieves. */
module BgpRecovery {
  import opened Wrappers
  import opened VppPaths
  import opened VppRoutes
  import opened Announcer
  import opened BgpLedger
  import opened BgpRuns

  /** How the latest push of a prefix ended. */
  ghost function Latest(pushes: seq<Push>, p: Prefix): Option<Rpc> {
    if pushes == [] then None
    else if pushes[|pushes| - 1].prefix == p then Some(pushes[|pushes| - 1].rpc)
    else Latest(pushes[..|pushes| - 1], p)
  }

  ghost predicate LatestFailed(pushes: seq<Push>, p: Prefix) {
    Latest(pushes, p).Some? && !Latest(pushes, p).value.Applied()
  }

  /** Only prefixes whose latest push did not arrive differ from what is announced. */
  ghost predicate Explained(initial: Fib, l: Ledger) {
    forall p :: ExplainedAt(initial, l, p)
  }

  ghost predicate ExplainedAt(initial: Fib, l: Ledger, p: Prefix) {
    !Agrees(initial, l, p) ==> LatestFailed(l.pushes, p)
  }

  /** The loss of a peer leaves a prefix behind: it has a path through the peer, its latest push had
      arrived, or there was none, and it is not pushed now. */
  ghost predicate LeavesBehind(initial: Fib, l: Ledger, l': Ledger, a: Address, p: Prefix) {
    Via(initial, l, p, a) && !LatestFailed(l.pushes, p) && !PushedSince(l.pushes, l'.pushes, p)
  }

  /** The command is the loss of a peer that is acted upon, and leaves no prefix behind; or another. */
  ghost predicate Thorough(initial: Fib, c: Command, l: Ledger, l': Ledger) {
    c.DelAllRoutes? && Dumped(initial, l, c.nextHop, c.dump) ==>
      forall p :: !LeavesBehind(initial, l, l', c.nextHop.value, p)
  }

  // ----- the latest push -----

  lemma {:induction false} LatestSince(before: seq<Push>, after: seq<Push>, p: Prefix)
    requires before <= after
    ensures !PushedSince(before, after, p) ==> Latest(after, p) == Latest(before, p)
    ensures PushedSince(before, after, p) && !ArrivedSince(before, after, p) ==> LatestFailed(after, p)
    decreases |after|
  {
    if |after| == |before| {
      assert after == before;
    } else {
      var m := |after| - 1;
      var earlier := after[..m];
      LatestSince(before, earlier, p);
      assert after[m].prefix == p ==> PushedSince(before, after, p);
      if i :| |before| <= i < m && earlier[i].prefix == p {
        assert after[i] == earlier[i];
      }
      if i :| |before| <= i < |after| && after[i].prefix == p && i < m {
        assert earlier[i] == after[i];
      }
      if i :| |before| <= i < m && earlier[i].prefix == p && earlier[i].rpc.Applied() {
        assert after[i] == earlier[i];
      }
    }
  }

  // ----- one step -----

  /** A push explains its own prefix, and leaves the others as they were. */
  lemma PushedExplains(initial: Fib, l: Ledger, events: seq<Event>, p: Prefix, rpc: Rpc, p': Prefix)
    requires Dated(l) && |events| <= 1 && ExplainedAt(initial, l, p')
    requires events != [] ==> !events[0].WithdrawAll? && events[0].prefix == p
    ensures ExplainedAt(initial, Pushed(l, events, p, rpc), p')
  {
    var l' := Pushed(l, events, p, rpc);
    PushedShown(initial, l, events, p, rpc, p');
    assert l'.pushes[..|l.pushes|] == l.pushes;
  }

  lemma PushedShown(initial: Fib, l: Ledger, events: seq<Event>, p: Prefix, rpc: Rpc, p': Prefix)
    requires Dated(l) && |events| <= 1
    requires events != [] ==> !events[0].WithdrawAll? && events[0].prefix == p
    ensures Dated(Pushed(l, events, p, rpc))
    ensures p' == p && rpc.Applied() ==> Agrees(initial, Pushed(l, events, p, rpc), p')
    ensures p' != p ==> (Agrees(initial, Pushed(l, events, p, rpc), p') <==> Agrees(initial, l, p'))
  {
    var mid := Ledger(l.events + events, l.pushes);
    if events == [] {
      assert mid == l;
    } else {
      assert events == [events[0]];
      EventKeepsShown(initial, l, events[0]);
      assert mid.events[..|l.events|] == l.events;
    }
    PushShows(initial, mid, p, rpc);
    var l' := Pushed(l, events, p, rpc);
    assert l' == Ledger(mid.events, mid.pushes + [Push(p, rpc, |mid.events|)]);
    if p' != p {
      assert forall q :: Shows(initial, l', p', q) <==> Shows(initial, l, p', q);
      assert forall q :: Current(l', p', q) <==> Current(l, p', q);
      SameAgreement(initial, l, l', p');
    }
  }

  lemma SameAgreement(initial: Fib, l: Ledger, l': Ledger, p: Prefix)
    requires forall q :: Shows(initial, l', p, q) <==> Shows(initial, l, p, q)
    requires forall q :: Current(l', p, q) <==> Current(l, p, q)
    ensures Agrees(initial, l', p) <==> Agrees(initial, l, p)
  {
    if Agrees(initial, l, p) {
      forall q ensures Shows(initial, l', p, q) <==> Current(l', p, q) {
        assert Shows(initial, l, p, q) <==> Current(l, p, q);
      }
    }
    if Agrees(initial, l', p) {
      forall q ensures Shows(initial, l, p, q) <==> Current(l, p, q) {
        assert Shows(initial, l', p, q) <==> Current(l', p, q);
      }
    }
  }

  /** The loss of a peer keeps a prefix explained exactly if it does not leave it behind. */
  lemma RemovalExplains(initial: Fib, l: Ledger, l': Ledger, a: Address, order: seq<Prefix>, rpcs: nat -> Rpc, n: nat,
                        p: Prefix)
    requires Dated(l) && Removal(initial, l, l', a, order, rpcs, n) && ExplainedAt(initial, l, p)
    ensures ExplainedAt(initial, l', p) <==> !LeavesBehind(initial, l, l', a, p)
  {
    RemovalExact(initial, l, l', a, order, rpcs, n, p);
    LatestSince(l.pushes, l'.pushes, p);
    if i :| |l.pushes| <= i < |l'.pushes| && l'.pushes[i].prefix == p && l'.pushes[i].rpc.Applied() {
      assert PushedSince(l.pushes, l'.pushes, p);
    }
    if !Via(initial, l, p, a) && !AgreesBut(initial, l, p, a) {
      var q: Path :| q.address != a && !(Shows(initial, l, p, q) <==> Current(l, p, q));
      assert !Agrees(initial, l, p);
      NotPushed(initial, l, l', a, order, rpcs, n, p);
    }
  }

  /** Only prefixes with a path through the peer are pushed. */
  lemma NotPushed(initial: Fib, l: Ledger, l': Ledger, a: Address, order: seq<Prefix>, rpcs: nat -> Rpc, n: nat,
                  p: Prefix)
    requires Removal(initial, l, l', a, order, rpcs, n) && !Via(initial, l, p, a)
    ensures !PushedSince(l.pushes, l'.pushes, p)
  {
    forall i | |l.pushes| <= i < |l'.pushes| ensures l'.pushes[i].prefix != p {
      assert order[i - |l.pushes|] in order;
    }
  }

  lemma RemovalDated(initial: Fib, l: Ledger, l': Ledger, a: Address, order: seq<Prefix>, rpcs: nat -> Rpc, n: nat)
    requires Dated(l) && Removal(initial, l, l', a, order, rpcs, n)
    ensures Dated(l')
  {
    forall i | 0 <= i < |l'.pushes| ensures l'.pushes[i].at <= |l'.events| {
      assert i < |l.pushes| ==> l'.pushes[i] == l.pushes[i];
    }
  }

  /** A step keeps all differences explained exactly if it leaves no prefix behind. */
  lemma StepExplains(initial: Fib, policy: Policy, c: Command, l: Ledger, l': Ledger)
    requires Dated(l) && Explained(initial, l) && Step(initial, policy, c, l, l')
    ensures Dated(l') && (Explained(initial, l') <==> Thorough(initial, c, l, l'))
  {
    match c
    case AddRoute(p, h, rpc) =>
      if policy.Accepts(p, h) {
        PushedStep(initial, l, if h.Some? then [Announce(p, h.value)] else [], p, rpc);
      }
    case DelRoute(p, h, rpc) =>
      if Withdrawable(l, p, h) {
        PushedStep(initial, l, [Withdraw(p, h.value)], p, rpc);
      }
    case DelAllRoutes(h, dump, rpcs) =>
      if Dumped(initial, l, h, dump) {
        var order, n :| Removal(initial, l, l', h.value, order, rpcs, n);
        RemovalStep(initial, l, l', h.value, order, rpcs, n);
      }
  }

  lemma PushedStep(initial: Fib, l: Ledger, events: seq<Event>, p: Prefix, rpc: Rpc)
    requires Dated(l) && Explained(initial, l) && |events| <= 1
    requires events != [] ==> !events[0].WithdrawAll? && events[0].prefix == p
    ensures Dated(Pushed(l, events, p, rpc)) && Explained(initial, Pushed(l, events, p, rpc))
  {
    PushedShown(initial, l, events, p, rpc, p);
    forall p' ensures ExplainedAt(initial, Pushed(l, events, p, rpc), p') {
      assert ExplainedAt(initial, l, p');
      PushedExplains(initial, l, events, p, rpc, p');
    }
  }

  lemma RemovalStep(initial: Fib, l: Ledger, l': Ledger, a: Address, order: seq<Prefix>, rpcs: nat -> Rpc, n: nat)
    requires Dated(l) && Explained(initial, l) && Removal(initial, l, l', a, order, rpcs, n)
    ensures Dated(l') && (Explained(initial, l') <==> forall p :: !LeavesBehind(initial, l, l', a, p))
  {
    RemovalDated(initial, l, l', a, order, rpcs, n);
    forall p ensures ExplainedAt(initial, l', p) <==> !LeavesBehind(initial, l, l', a, p) {
      assert ExplainedAt(initial, l, p);
      RemovalExplains(initial, l, l', a, order, rpcs, n, p);
    }
  }

  // ----- runs -----

  /** Over any run, with any outcome of any call: throughout, only prefixes whose latest push did not
      arrive differ, if and only if no loss of a peer leaves a prefix behind. */
  lemma {:induction false} RunExplained(initial: Fib, policy: Policy, commands: seq<Command>, ls: seq<Ledger>)
    requires IsRun(initial, policy, commands, ls) && Dated(ls[0]) && Explained(initial, ls[0])
    ensures (forall i :: 0 <= i < |ls| ==> Explained(initial, ls[i])) <==>
      forall i :: 0 <= i < |commands| ==> Thorough(initial, commands[i], ls[i], ls[i + 1])
  {
    RunDated(initial, policy, commands, ls);
    if forall i :: 0 <= i < |ls| ==> Explained(initial, ls[i]) {
      forall i | 0 <= i < |commands| ensures Thorough(initial, commands[i], ls[i], ls[i + 1]) {
        StepExplains(initial, policy, commands[i], ls[i], ls[i + 1]);
        assert Explained(initial, ls[i + 1]);
      }
    }
    if forall i :: 0 <= i < |commands| ==> Thorough(initial, commands[i], ls[i], ls[i + 1]) {
      forall i | 0 <= i < |ls| ensures Explained(initial, ls[i]) {
        ThoroughRun(initial, policy, commands, ls, i);
      }
    }
  }

  lemma {:induction false} RunDated(initial: Fib, policy: Policy, commands: seq<Command>, ls: seq<Ledger>)
    requires IsRun(initial, policy, commands, ls) && Dated(ls[0])
    ensures forall i :: 0 <= i < |ls| ==> Dated(ls[i])
  {
    forall i | 0 <= i < |ls| ensures Dated(ls[i]) {
      DatedAt(initial, policy, commands, ls, i);
    }
  }

  lemma {:induction false} DatedAt(initial: Fib, policy: Policy, commands: seq<Command>, ls: seq<Ledger>, i: nat)
    requires IsRun(initial, policy, commands, ls) && Dated(ls[0]) && i < |ls|
    ensures Dated(ls[i])
  {
    if i > 0 {
      DatedAt(initial, policy, commands, ls, i - 1);
      StepDated(initial, policy, commands[i - 1], ls[i - 1], ls[i]);
    }
  }

  lemma StepDated(initial: Fib, policy: Policy, c: Command, l: Ledger, l': Ledger)
    requires Dated(l) && Step(initial, policy, c, l, l')
    ensures Dated(l')
  {
    match c
    case AddRoute(p, h, rpc) =>
      if policy.Accepts(p, h) {
        PushedShown(initial, l, if h.Some? then [Announce(p, h.value)] else [], p, rpc, p);
      }
    case DelRoute(p, h, rpc) =>
      if Withdrawable(l, p, h) {
        PushedShown(initial, l, [Withdraw(p, h.value)], p, rpc, p);
      }
    case DelAllRoutes(h, dump, rpcs) =>
      if Dumped(initial, l, h, dump) {
        var order, n :| Removal(initial, l, l', h.value, order, rpcs, n);
        RemovalDated(initial, l, l', h.value, order, rpcs, n);
      }
  }

  lemma {:induction false} ThoroughRun(initial: Fib, policy: Policy, commands: seq<Command>, ls: seq<Ledger>, i: nat)
    requires IsRun(initial, policy, commands, ls) && Dated(ls[0]) && Explained(initial, ls[0]) && i < |ls|
    requires forall j :: 0 <= j < |commands| ==> Thorough(initial, commands[j], ls[j], ls[j + 1])
    ensures Dated(ls[i]) && Explained(initial, ls[i])
  {
    if i > 0 {
      ThoroughRun(initial, policy, commands, ls, i - 1);
      StepExplains(initial, policy, commands[i - 1], ls[i - 1], ls[i]);
    }
  }

  /** A table in order has nothing to explain. */
  lemma CleanIsExplained(initial: Fib, l: Ledger)
    requires Clean(initial, l)
    ensures Dated(l) && Explained(initial, l)
  {
    forall p ensures ExplainedAt(initial, l, p) {
      assert Agrees(initial, l, p);
    }
  }

  /** Without a rejected push, no loss of a peer leaves a prefix behind. */
  ghost predicate Unrejected(c: Command) {
    c.DelAllRoutes? ==> forall i :: !c.rpcs(i).Rejected?
  }

  lemma UnrejectedIsThorough(initial: Fib, policy: Policy, c: Command, l: Ledger, l': Ledger)
    requires Step(initial, policy, c, l, l') && Unrejected(c)
    ensures Thorough(initial, c, l, l')
  {
    if c.DelAllRoutes? && Dumped(initial, l, c.nextHop, c.dump) {
      var a := c.nextHop.value;
      var order, n :| Removal(initial, l, l', a, order, c.rpcs, n);
      assert n == |order|;
      forall p ensures !LeavesBehind(initial, l, l', a, p) {
        AllListedPushed(initial, l, l', a, order, c.rpcs, p);
      }
    }
  }

  lemma AllListedPushed(initial: Fib, l: Ledger, l': Ledger, a: Address, order: seq<Prefix>, rpcs: nat -> Rpc,
                        p: Prefix)
    requires Removal(initial, l, l', a, order, rpcs, |order|)
    ensures Via(initial, l, p, a) ==> PushedSince(l.pushes, l'.pushes, p)
  {
    if Via(initial, l, p, a) {
      var i :| 0 <= i < |order| && order[i] == p;
      assert l'.pushes[|l.pushes| + i].prefix == p;
    }
  }

  /** From a table in order, over any run without a rejected push for a lost peer, with any other
      outcome of any call: a prefix that differs is one whose latest push did not arrive. */
  lemma UnrejectedRun(initial: Fib, policy: Policy, commands: seq<Command>, ls: seq<Ledger>)
    requires IsRun(initial, policy, commands, ls) && Clean(initial, ls[0])
    requires forall i :: 0 <= i < |commands| ==> Unrejected(commands[i])
    ensures forall i, p :: 0 <= i < |ls| && !Agrees(initial, ls[i], p) ==> LatestFailed(ls[i].pushes, p)
  {
    CleanIsExplained(initial, ls[0]);
    forall i | 0 <= i < |commands| ensures Thorough(initial, commands[i], ls[i], ls[i + 1]) {
      UnrejectedIsThorough(initial, policy, commands[i], ls[i], ls[i + 1]);
    }
    RunExplained(initial, policy, commands, ls);
    forall i, p | 0 <= i < |ls| && !Agrees(initial, ls[i], p) ensures LatestFailed(ls[i].pushes, p) {
      assert Explained(initial, ls[i]) && ExplainedAt(initial, ls[i], p);
    }
  }

  // ----- repeating a removal -----

  /** In any state, a removal leaves no route through the peer if and only if a push of each listed
      prefix arrived; in particular when all its pushes do. */
  lemma RemovedExactly(initial: Fib, l: Ledger, l': Ledger, a: Address, order: seq<Prefix>, rpcs: nat -> Rpc, n: nat)
    requires Dated(l) && Removal(initial, l, l', a, order, rpcs, n)
    ensures (forall p :: !Via(initial, l', p, a)) <==> forall p :: p in order ==> ArrivedSince(l.pushes, l'.pushes, p)
    ensures (forall i :: 0 <= i < |order| ==> rpcs(i).Applied()) ==> forall p :: !Via(initial, l', p, a)
  {
    forall p ensures Via(initial, l', p, a) <==> p in order && !ArrivedSince(l.pushes, l'.pushes, p) {
      RemovalVia(initial, l, l', a, order, rpcs, n, p);
    }
    if forall i :: 0 <= i < |order| ==> rpcs(i).Applied() {
      assert n == |order|;
      forall p | p in order ensures ArrivedSince(l.pushes, l'.pushes, p) {
        var i :| 0 <= i < |order| && order[i] == p;
        assert l'.pushes[|l.pushes| + i] == Push(p, rpcs(i), |l'.events|);
      }
    }
  }
}
