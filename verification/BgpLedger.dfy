/** BGP-learnt routes as a ledger: the events accepted so far and the pushes to the route service,
    and what the forwarding table shows for it, however the pushes end. */
module BgpLedger {
  import opened Wrappers
  import opened VppPaths
  import opened VppRoutes
  import opened Announcer

  const BGP_CLIENT: int := 0
  const OPENR_CLIENT: int := 786

  /** The preference of a client's routes, lower being better; `None` where the route service reads past
      its table. */
  function PreferenceOf(client: int): Option<Preference> {
    if client == OPENR_CLIENT then Some(10)
    else if 0 <= client <= 255 then Some(client)
    else None
  }

  const BGP_PREFERENCE: Preference := 0

  /** BGP routes have a preference that beats all others, that of Open/R included. */
  lemma BgpComesFirst(client: int)
    requires client != BGP_CLIENT && PreferenceOf(client).Some?
    ensures PreferenceOf(BGP_CLIENT) == Some(BGP_PREFERENCE) && BGP_PREFERENCE < PreferenceOf(client).value
  {
  }

  /** Every preference is that of the client with this id; and two clients share their routes exactly if
      one is Open/R and the other has client id 10. */
  lemma SharedPreference(a: int, b: int)
    requires a < b && PreferenceOf(a).Some? && PreferenceOf(b).Some?
    ensures forall p: Preference :: PreferenceOf(p) == Some(p)
    ensures PreferenceOf(a) == PreferenceOf(b) <==> a == 10 && b == 786
  {
  }

  /** A BGP event as far as it was accepted for tracking. */
  datatype Event =
    | Announce(prefix: Prefix, peer: Address)
    | Withdraw(prefix: Prefix, peer: Address)
    | WithdrawAll(peer: Address)

  /** A push of a prefix to the route service, made when there had been `at` events. */
  datatype Push = Push(prefix: Prefix, rpc: Rpc, at: nat)

  datatype Ledger = Ledger(events: seq<Event>, pushes: seq<Push>)

  /** The latest event about this prefix and this peer is an announcement. */
  ghost predicate Announced(events: seq<Event>, p: Prefix, a: Address) {
    events != [] &&
    var last, earlier := events[|events| - 1], events[..|events| - 1];
    match last
    case Announce(p', a') => (p' == p && a' == a) || Announced(earlier, p, a)
    case Withdraw(p', a') => !(p' == p && a' == a) && Announced(earlier, p, a)
    case WithdrawAll(a') => a' != a && Announced(earlier, p, a)
  }

  /** The prefix has been announced at some time. */
  ghost predicate EverAnnounced(events: seq<Event>, p: Prefix) {
    exists i :: 0 <= i < |events| && events[i].Announce? && events[i].prefix == p
  }

  /** The number of events there had been at the last push of the prefix that arrived. */
  ghost function LastArrived(pushes: seq<Push>, p: Prefix): Option<nat> {
    if pushes == [] then None
    else
      var last := pushes[|pushes| - 1];
      if last.prefix == p && last.rpc.Applied() then Some(last.at) else LastArrived(pushes[..|pushes| - 1], p)
  }

  ghost predicate IsBgpPath(q: Path) {
    q.swIfIndex == ANY_INTERFACE && q.weight == 0
  }

  /** The path the table has: to a peer that was announced when the last push of the prefix to arrive
      was made; without any such push, a path from the beginning. */
  ghost predicate Shows(initial: Fib, l: Ledger, p: Prefix, q: Path) {
    match LastArrived(l.pushes, p)
    case None => q in PathsAt(initial, Key(BGP_PREFERENCE, p))
    case Some(n) => n <= |l.events| && IsBgpPath(q) && Announced(l.events[..n], p, q.address)
  }

  /** The path the table should have: to a peer that is announced now. */
  ghost predicate Current(l: Ledger, p: Prefix, q: Path) {
    IsBgpPath(q) && Announced(l.events, p, q.address)
  }

  ghost predicate Agrees(initial: Fib, l: Ledger, p: Prefix) {
    forall q :: Shows(initial, l, p, q) <==> Current(l, p, q)
  }

  ghost predicate Via(initial: Fib, l: Ledger, p: Prefix, a: Address) {
    exists q :: Shows(initial, l, p, q) && q.address == a
  }

  /** No push is dated after the last event. */
  ghost predicate Dated(l: Ledger) {
    forall i :: 0 <= i < |l.pushes| ==> l.pushes[i].at <= |l.events|
  }

  lemma {:induction false} LastArrivedDated(l: Ledger, n: nat, p: Prefix)
    requires Dated(l) && n <= |l.pushes|
    ensures var r := LastArrived(l.pushes[..n], p); r.Some? ==> r.value <= |l.events|
  {
    if n > 0 {
      assert l.pushes[..n][..n - 1] == l.pushes[..n - 1];
      LastArrivedDated(l, n - 1, p);
    }
  }

  /** What the table shows does not depend on events since the last push. */
  lemma EventKeepsShown(initial: Fib, l: Ledger, e: Event)
    requires Dated(l)
    ensures Dated(Ledger(l.events + [e], l.pushes))
    ensures forall p, q :: Shows(initial, Ledger(l.events + [e], l.pushes), p, q) <==> Shows(initial, l, p, q)
  {
    var l' := Ledger(l.events + [e], l.pushes);
    forall p, q ensures Shows(initial, l', p, q) <==> Shows(initial, l, p, q) {
      LastArrivedDated(l, |l.pushes|, p);
      assert l.pushes[..|l.pushes|] == l.pushes;
      var r := LastArrived(l.pushes, p);
      assert r.Some? ==> l'.events[..r.value] == l.events[..r.value];
    }
  }

  /** A push that arrives makes the prefix agree; it changes no other, and a lost one changes nothing. */
  lemma PushShows(initial: Fib, l: Ledger, prefix: Prefix, rpc: Rpc)
    requires Dated(l)
    ensures
      var l' := Ledger(l.events, l.pushes + [Push(prefix, rpc, |l.events|)]);
      && Dated(l')
      && (rpc.Applied() ==> Agrees(initial, l', prefix))
      && forall p, q :: p != prefix || !rpc.Applied() ==> (Shows(initial, l', p, q) <==> Shows(initial, l, p, q))
  {
    var l' := Ledger(l.events, l.pushes + [Push(prefix, rpc, |l.events|)]);
    assert l'.pushes[..|l.pushes|] == l.pushes;
    assert l.events[..|l.events|] == l.events;
  }

  // ----- the loss of a peer -----

  /** The pushes since `before` are the first `n` of the list, none but the last one rejected, and
      the list is cut short only by a rejection. */
  ghost predicate PushedInTurn(before: seq<Push>, after: seq<Push>, order: seq<Prefix>, rpcs: nat -> Rpc, at: nat,
                               n: nat)
  {
    && n <= |order|
    && before <= after && |after| == |before| + n
    && (forall i :: |before| <= i < |after| ==> after[i] == Push(order[i - |before|], rpcs(i - |before|), at))
    && (forall i :: 0 <= i < n - 1 ==> !rpcs(i).Rejected?)
  }

  lemma PushedOneMore(before: seq<Push>, after: seq<Push>, order: seq<Prefix>, rpcs: nat -> Rpc, at: nat, n: nat)
    requires PushedInTurn(before, after, order, rpcs, at, n) && n < |order| && (n > 0 ==> !rpcs(n - 1).Rejected?)
    ensures PushedInTurn(before, after + [Push(order[n], rpcs(n), at)], order, rpcs, at, n + 1)
  {
  }

  /** The peer is lost: the routes that have it are listed, and pushed in turn without it. */
  ghost predicate Removal(initial: Fib, l: Ledger, l': Ledger, a: Address, order: seq<Prefix>, rpcs: nat -> Rpc, n: nat)
  {
    && l'.events == l.events + [WithdrawAll(a)]
    && order != []
    && (forall p :: p in order <==> Via(initial, l, p, a))
    && PushedInTurn(l.pushes, l'.pushes, order, rpcs, |l'.events|, n)
    && 0 < n && (n < |order| ==> rpcs(n - 1).Rejected?)
  }

  ghost predicate ArrivedSince(before: seq<Push>, after: seq<Push>, p: Prefix) {
    exists i :: |before| <= i < |after| && after[i].prefix == p && after[i].rpc.Applied()
  }

  /** The latest of these pushes of the prefix did not arrive. */
  ghost predicate FailedSince(before: seq<Push>, after: seq<Push>, p: Prefix) {
    exists i :: |before| <= i < |after| && after[i].prefix == p && !after[i].rpc.Applied() && LatestAt(after, i)
  }

  ghost predicate LatestAt(pushes: seq<Push>, i: nat)
    requires i < |pushes|
  {
    forall j :: i < j < |pushes| ==> pushes[j].prefix != pushes[i].prefix
  }

  lemma {:induction false} LastArrivedSince(before: seq<Push>, after: seq<Push>, p: Prefix, at: nat)
    requires before <= after && forall i :: |before| <= i < |after| ==> after[i].at == at
    ensures LastArrived(after, p) == if ArrivedSince(before, after, p) then Some(at) else LastArrived(before, p)
    decreases |after|
  {
    if |after| == |before| {
      assert after == before;
    } else {
      var m := |after| - 1;
      var earlier, last := after[..m], after[m];
      LastArrivedSince(before, earlier, p, at);
      var now := last.prefix == p && last.rpc.Applied();
      assert ArrivedSince(before, after, p) <==> ArrivedSince(before, earlier, p) || now by {
        if ArrivedSince(before, earlier, p) {
          var i :| |before| <= i < m && earlier[i].prefix == p && earlier[i].rpc.Applied();
          assert after[i] == earlier[i];
        }
        if i :| |before| <= i < |after| && after[i].prefix == p && after[i].rpc.Applied() {
          assert i < m ==> earlier[i] == after[i];
        }
      }
    }
  }

  /** The prefix is as it should be, apart from paths to this peer. */
  ghost predicate AgreesBut(initial: Fib, l: Ledger, p: Prefix, a: Address) {
    forall q: Path :: q.address != a ==> (Shows(initial, l, p, q) <==> Current(l, p, q))
  }

  /** The loss of a peer, in any state: prefixes of which a push arrived agree; all others show what
      they did. */
  lemma RemovalShows(initial: Fib, l: Ledger, l': Ledger, a: Address, order: seq<Prefix>, rpcs: nat -> Rpc, n: nat,
                     p: Prefix)
    requires Dated(l) && Removal(initial, l, l', a, order, rpcs, n)
    ensures ArrivedSince(l.pushes, l'.pushes, p) ==> Agrees(initial, l', p)
    ensures !ArrivedSince(l.pushes, l'.pushes, p) ==>
      forall q :: Shows(initial, l', p, q) <==> Shows(initial, l, p, q)
    ensures forall q :: Current(l', p, q) <==> Current(l, p, q) && q.address != a
  {
    LastArrivedSince(l.pushes, l'.pushes, p, |l'.events|);
    assert l'.events[..|l.events|] == l.events;
    if ArrivedSince(l.pushes, l'.pushes, p) {
      assert l'.events[..|l'.events|] == l'.events;
      assert forall q :: Shows(initial, l', p, q) <==> Current(l', p, q);
    } else {
      EventKeepsShown(initial, l, WithdrawAll(a));
    }
  }

  /** The loss of a peer, in any state: a prefix still has a path through it exactly if it had one and
      no push of it arrived. */
  lemma RemovalVia(initial: Fib, l: Ledger, l': Ledger, a: Address, order: seq<Prefix>, rpcs: nat -> Rpc, n: nat,
                   p: Prefix)
    requires Dated(l) && Removal(initial, l, l', a, order, rpcs, n)
    ensures Via(initial, l', p, a) <==> Via(initial, l, p, a) && !ArrivedSince(l.pushes, l'.pushes, p)
  {
    RemovalShows(initial, l, l', a, order, rpcs, n, p);
    if ArrivedSince(l.pushes, l'.pushes, p) {
      assert forall q :: Shows(initial, l', p, q) ==> Current(l', p, q);
    } else if Via(initial, l, p, a) {
      var q :| Shows(initial, l, p, q) && q.address == a;
      assert Shows(initial, l', p, q);
    }
  }

  /** The loss of a peer, in any state: exactly those prefixes differ of which no push arrived and that
      had a path through the peer, or differed in another path. */
  lemma RemovalExact(initial: Fib, l: Ledger, l': Ledger, a: Address, order: seq<Prefix>, rpcs: nat -> Rpc, n: nat,
                     p: Prefix)
    requires Dated(l) && Removal(initial, l, l', a, order, rpcs, n)
    ensures !Agrees(initial, l', p) <==>
      && !ArrivedSince(l.pushes, l'.pushes, p)
      && (Via(initial, l, p, a) || !AgreesBut(initial, l, p, a))
  {
    RemovalShows(initial, l, l', a, order, rpcs, n, p);
    if !ArrivedSince(l.pushes, l'.pushes, p) {
      RemovedStays(initial, l, l', p, a);
    }
  }

  /** A prefix shown as before differs after the loss of a peer exactly if it has a path through it, or
      differed in another path. */
  lemma RemovedStays(initial: Fib, l: Ledger, l': Ledger, p: Prefix, a: Address)
    requires forall q :: Shows(initial, l', p, q) <==> Shows(initial, l, p, q)
    requires forall q :: Current(l', p, q) <==> Current(l, p, q) && q.address != a
    ensures !Agrees(initial, l', p) <==> Via(initial, l, p, a) || !AgreesBut(initial, l, p, a)
  {
    if Via(initial, l, p, a) {
      var q :| Shows(initial, l, p, q) && q.address == a;
      assert Shows(initial, l', p, q) && !Current(l', p, q);
    } else if AgreesBut(initial, l, p, a) {
      forall q ensures Shows(initial, l', p, q) <==> Current(l', p, q) {
        assert q.address != a ==> (Shows(initial, l, p, q) <==> Current(l, p, q));
      }
    } else {
      var q: Path :| q.address != a && !(Shows(initial, l, p, q) <==> Current(l, p, q));
      assert !(Shows(initial, l', p, q) <==> Current(l', p, q));
    }
  }

  /** In particular, from a table that agrees everywhere, exactly those differ that had a path through
      the peer and of which no push arrived. */
  lemma CleanRemovalExact(initial: Fib, l: Ledger, l': Ledger, a: Address, order: seq<Prefix>, rpcs: nat -> Rpc, n: nat)
    requires Dated(l) && (forall p :: Agrees(initial, l, p)) && Removal(initial, l, l', a, order, rpcs, n)
    ensures forall p :: !Agrees(initial, l', p) <==> Via(initial, l, p, a) && !ArrivedSince(l.pushes, l'.pushes, p)
  {
    forall p ensures !Agrees(initial, l', p) <==> Via(initial, l, p, a) && !ArrivedSince(l.pushes, l'.pushes, p) {
      RemovalExact(initial, l, l', a, order, rpcs, n, p);
      assert Agrees(initial, l, p);
    }
  }

  /** Only prefixes whose push failed differ exactly if no push but the last of the list is rejected:
      a rejection before that leaves prefixes behind that were never pushed. */
  lemma FailuresExplainExactly(initial: Fib, l: Ledger, l': Ledger, a: Address, order: seq<Prefix>, rpcs: nat -> Rpc,
                               n: nat)
    requires Dated(l) && (forall p :: Agrees(initial, l, p)) && Removal(initial, l, l', a, order, rpcs, n)
    requires NoDuplicates(order)
    ensures (forall p :: !Agrees(initial, l', p) ==> FailedSince(l.pushes, l'.pushes, p)) <==>
      forall i :: 0 <= i < |order| - 1 ==> !rpcs(i).Rejected?
  {
    CleanRemovalExact(initial, l, l', a, order, rpcs, n);
    if n == |order| {
      AllPushed(l.pushes, l'.pushes, order, rpcs, |l'.events|);
      forall p | !Agrees(initial, l', p) ensures FailedSince(l.pushes, l'.pushes, p) {
        assert p in order;
      }
    } else {
      assert rpcs(n - 1).Rejected?;
      var p := order[|order| - 1];
      assert p in order && !PushedSince(l.pushes, l'.pushes, p) by {
        assert forall i :: |l.pushes| <= i < |l'.pushes| ==> l'.pushes[i].prefix == order[i - |l.pushes|] != p;
      }
      assert !Agrees(initial, l', p) && !FailedSince(l.pushes, l'.pushes, p);
    }
  }

  /** After a rejected first push, no route through the peer has arrived, and one at most was pushed. */
  lemma RejectedFirst(initial: Fib, l: Ledger, l': Ledger, a: Address, order: seq<Prefix>, rpcs: nat -> Rpc, n: nat)
    requires Dated(l) && (forall p :: Agrees(initial, l, p)) && Removal(initial, l, l', a, order, rpcs, n)
    requires rpcs(0).Rejected?
    ensures forall p :: Via(initial, l, p, a) ==> !Agrees(initial, l', p)
    ensures forall p :: FailedSince(l.pushes, l'.pushes, p) ==> p == order[0]
  {
    CleanRemovalExact(initial, l, l', a, order, rpcs, n);
    assert n == 1;
    assert l'.pushes[|l.pushes|] == Push(order[0], rpcs(0), |l'.events|);
  }

  ghost predicate PushedSince(before: seq<Push>, after: seq<Push>, p: Prefix) {
    exists i :: |before| <= i < |after| && after[i].prefix == p
  }

  /** Of a list without duplicates that was pushed to its end, each prefix arrived or failed. */
  lemma AllPushed(before: seq<Push>, after: seq<Push>, order: seq<Prefix>, rpcs: nat -> Rpc, at: nat)
    requires PushedInTurn(before, after, order, rpcs, at, |order|) && NoDuplicates(order)
    ensures forall p :: p in order ==> ArrivedSince(before, after, p) || FailedSince(before, after, p)
  {
    forall p | p in order ensures ArrivedSince(before, after, p) || FailedSince(before, after, p) {
      var i :| 0 <= i < |order| && order[i] == p;
      var k := |before| + i;
      assert after[k].prefix == p;
      assert LatestAt(after, k) by {
        forall j | k < j < |after| ensures after[j].prefix != after[k].prefix {
          assert after[j].prefix == order[j - |before|];
        }
      }
    }
  }
}
