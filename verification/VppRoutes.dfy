/** Route programming: clients state the next hops a prefix should have, VPP is told which single
    paths to add and delete, and a cache remembers what was last stated. */
module VppRoutes {
  import opened Wrappers
  import opened VppPaths

  type Preference = Byte
  datatype Key = Key(preference: Preference, dest: Prefix)
  type Fib = map<Key, set<Path>>

  datatype Route = Route(dest: Prefix, nextHops: seq<NextHop>)

  function PathsAt(fib: Fib, k: Key): set<Path> {
    if k in fib then fib[k] else {}
  }

  function HopsAt(cache: map<Key, seq<NextHop>>, k: Key): seq<NextHop> {
    if k in cache then cache[k] else []
  }

  /** The next hops the list asks for `dest`: those of the last route that names it. */
  function Requested(routes: seq<Route>, dest: Prefix): (r: seq<NextHop>) {
    if routes == [] then []
    else if routes[|routes| - 1].dest == dest then routes[|routes| - 1].nextHops
    else Requested(routes[..|routes| - 1], dest)
  }

  function Dests(routes: seq<Route>): set<Prefix> {
    set i | 0 <= i < |routes| :: routes[i].dest
  }

  /** A state of the table passed through while `k` is updated from `old'` to `new'`: nothing else
      changes, no path of a next hop that both lists have is missing, and no path is foreign. */
  ghost predicate Transit(fib: Fib, before: Fib, k: Key, ifs: Interfaces, old': set<NextHop>, new': set<NextHop>) {
    && (forall k' :: k' != k ==> PathsAt(fib, k') == PathsAt(before, k'))
    && PathsAt(before, k) * EncodeAll(ifs, old' * new') - EncodeAll(ifs, old' - new') <= PathsAt(fib, k)
    && PathsAt(fib, k) <= PathsAt(before, k) + EncodeAll(ifs, new')
  }

  /** What every step of an update has in common. */
  lemma TransitOf(fib: Fib, before: Fib, k: Key, ifs: Interfaces, old': set<NextHop>, new': set<NextHop>,
                  removed: set<NextHop>, added: set<NextHop>)
    requires forall k' :: k' != k ==> PathsAt(fib, k') == PathsAt(before, k')
    requires removed <= old' - new' && added <= new'
    requires PathsAt(fib, k) == PathsAt(before, k) - EncodeAll(ifs, removed) + EncodeAll(ifs, added)
    ensures Transit(fib, before, k, ifs, old', new')
  {
    assert EncodeAll(ifs, removed) <= EncodeAll(ifs, old' - new');
    assert EncodeAll(ifs, added) <= EncodeAll(ifs, new');
  }

  /** The history goes on from `past` through such states only. */
  ghost predicate PassesThrough(past: seq<Fib>, history: seq<Fib>, before: Fib, k: Key, ifs: Interfaces,
                                old': set<NextHop>, new': set<NextHop>)
  {
    && past <= history
    && forall i :: |past| <= i < |history| ==> Transit(history[i], before, k, ifs, old', new')
  }

  lemma PassesOneMore(past: seq<Fib>, history: seq<Fib>, fib: Fib, before: Fib, k: Key, ifs: Interfaces,
                      old': set<NextHop>, new': set<NextHop>, removed: set<NextHop>, added: set<NextHop>)
    requires PassesThrough(past, history, before, k, ifs, old', new')
    requires forall k' :: k' != k ==> PathsAt(fib, k') == PathsAt(before, k')
    requires removed <= old' - new' && added <= new'
    requires PathsAt(fib, k) == PathsAt(before, k) - EncodeAll(ifs, removed) + EncodeAll(ifs, added)
    ensures PassesThrough(past, history + [fib], before, k, ifs, old', new')
  {
    TransitOf(fib, before, k, ifs, old', new', removed, added);
  }

  /** The cached next hops no longer wanted are gone, and the first `n` of those wanted are there. */
  ghost predicate Adding(ifs: Interfaces, before: Fib, fib: Fib, k: Key, was: set<NextHop>, hops: seq<NextHop>, n: nat)
    requires n <= |hops|
  {
    && (forall k' :: k' != k ==> PathsAt(fib, k') == PathsAt(before, k'))
    && Encodable(ifs, ToSet(hops[..n]))
    && PathsAt(fib, k) == Programmed(ifs, PathsAt(before, k), was, ToSet(hops), ToSet(hops[..n]) - was)
  }

  lemma AddingSkips(ifs: Interfaces, before: Fib, fib: Fib, k: Key, was: set<NextHop>, hops: seq<NextHop>, n: nat)
    requires n < |hops| && hops[n] in was && Encodable(ifs, was) && Adding(ifs, before, fib, k, was, hops, n)
    ensures Adding(ifs, before, fib, k, was, hops, n + 1)
    ensures ToSet(hops[..n + 1]) <= was <==> ToSet(hops[..n]) <= was
  {
    EncodeOneMore(ifs, hops, n, was);
  }

  lemma AddingOneMore(ifs: Interfaces, before: Fib, fib: Fib, fib': Fib, k: Key, was: set<NextHop>, hops: seq<NextHop>,
                      n: nat)
    requires n < |hops| && hops[n] !in was && Encode(ifs, hops[n]).Some? && Adding(ifs, before, fib, k, was, hops, n)
    requires PathsAt(fib', k) == PathsAt(fib, k) + {Encode(ifs, hops[n]).value}
    requires forall k' :: k' != k ==> PathsAt(fib', k') == PathsAt(fib, k')
    ensures Adding(ifs, before, fib', k, was, hops, n + 1)
    ensures ToSet(hops[..n + 1]) - was <= ToSet(hops) && !(ToSet(hops[..n + 1]) <= was)
  {
    EncodeOneMore(ifs, hops, n, was);
    assert hops[n] in ToSet(hops[..n + 1]);
    forall h | h in ToSet(hops[..n + 1]) ensures h in ToSet(hops) {
      var i :| 0 <= i <= n && hops[..n + 1][i] == h;
      assert hops[i] == h;
    }
  }

  /** Encoding one more next hop. */
  lemma EncodeOneMore(ifs: Interfaces, hops: seq<NextHop>, i: nat, skip: set<NextHop>)
    requires i < |hops|
    ensures ToSet(hops[..i + 1]) == ToSet(hops[..i]) + {hops[i]}
    ensures hops[i] in skip ==> ToSet(hops[..i + 1]) - skip == ToSet(hops[..i]) - skip
    ensures hops[i] !in skip && Encode(ifs, hops[i]).Some? ==>
      EncodeAll(ifs, ToSet(hops[..i + 1]) - skip) ==
      EncodeAll(ifs, ToSet(hops[..i]) - skip) + {Encode(ifs, hops[i]).value}
  {
    var more := hops[..i + 1];
    assert forall j :: 0 <= j < i ==> more[j] == hops[..i][j];
    assert more[i] == hops[i];
    assert ToSet(more) == ToSet(hops[..i]) + {hops[i]};
    if hops[i] !in skip {
      assert ToSet(more) - skip == (ToSet(hops[..i]) - skip) + {hops[i]};
    }
  }

  class VppClient {
    var ifs: Interfaces
    var cache: map<Key, seq<NextHop>>
    /** The forwarding table inside VPP. */
    var fib: Fib
    /** Every state the table has had. */
    ghost var history: seq<Fib>

    ghost predicate Valid()
      reads this
    {
      && ifs.Valid()
      && forall k :: k in cache ==> cache[k] != [] && Encodable(ifs, ToSet(cache[k]))
    }

    /** The table holds exactly what the cache says for `k`, and the cached hops have different paths. */
    ghost predicate InSync(k: Key)
      reads this
    {
      Synced(ifs, cache, fib, k)
    }

    static ghost predicate Synced(ifs: Interfaces, cache: map<Key, seq<NextHop>>, fib: Fib, k: Key) {
      && PathsAt(fib, k) == EncodeAll(ifs, ToSet(HopsAt(cache, k)))
      && Unambiguous(ifs, ToSet(HopsAt(cache, k)))
    }

    constructor (ifs: Interfaces, fib: Fib)
      requires ifs.Valid()
      ensures Valid() && this.ifs == ifs && this.fib == fib && cache == map[]
    {
      this.ifs := ifs;
      this.cache := map[];
      this.fib := fib;
      this.history := [];
    }

    /** Interfaces that appear later are learnt by querying VPP again. */
    method LearnInterfaces(more: Interfaces)
      requires Valid() && more.Valid() && more.Extends(ifs)
      modifies this`ifs
      ensures Valid() && ifs == more
      ensures forall k :: old(InSync(k)) ==> InSync(k)
    {
      forall k
        ensures Encodable(more, ToSet(HopsAt(cache, k)))
        ensures InSync(k) ==>
          && EncodeAll(more, ToSet(HopsAt(cache, k))) == EncodeAll(ifs, ToSet(HopsAt(cache, k)))
          && Unambiguous(more, ToSet(HopsAt(cache, k)))
      {
        EncodeStable(ifs, more, ToSet(HopsAt(cache, k)));
      }
      ifs := more;
    }

    /** Adds or deletes one path of VPP's table; fails, changing nothing, on an unknown interface. */
    method AddDelNextHop(k: Key, nextHop: NextHop, isAdd: bool) returns (ok: bool)
      modifies this`fib, this`history
      ensures ok <==> Encode(ifs, nextHop).Some?
      ensures !ok ==> fib == old(fib) && history == old(history)
      ensures ok ==>
        && var was, path := PathsAt(old(fib), k), Encode(ifs, nextHop).value;
           PathsAt(fib, k) == if isAdd then was + {path} else was - {path}
      ensures ok ==>
        && (forall k' :: k' != k ==> PathsAt(fib, k') == PathsAt(old(fib), k'))
        && history == old(history) + [fib]
    {
      var path := Encode(ifs, nextHop);
      if path == None {
        return false;
      }
      fib := fib[k := if isAdd then PathsAt(fib, k) + {path.value} else PathsAt(fib, k) - {path.value}];
      history := history + [fib];
      return true;
    }

    /** Makes `nextHops` the next hops of `k`: deletes the cached ones no longer wanted, then adds
        the wanted ones not cached.  Fails at the first next hop on an unknown interface, with the
        cache as it was. */
    method AddRoute(k: Key, nextHops: seq<NextHop>) returns (ok: bool, ghost added: nat)
      requires Valid()
      modifies this`cache, this`fib, this`history
      ensures Valid()
      ensures ok <==> Encodable(ifs, ToSet(nextHops))
      ensures forall k' :: k' != k ==>
        HopsAt(cache, k') == HopsAt(old(cache), k') && PathsAt(fib, k') == PathsAt(old(fib), k')
      ensures ok ==> HopsAt(cache, k) == nextHops
      ensures ok ==>
        var was := ToSet(HopsAt(old(cache), k));
        PathsAt(fib, k) == Programmed(ifs, PathsAt(old(fib), k), was, ToSet(nextHops), ToSet(nextHops) - was)
      ensures !ok ==>
        && cache == old(cache)
        && added < |nextHops|
        && Encode(ifs, nextHops[added]) == None
        && Encodable(ifs, ToSet(nextHops[..added]))
        && var was := ToSet(HopsAt(old(cache), k));
           PathsAt(fib, k) ==
           Programmed(ifs, PathsAt(old(fib), k), was, ToSet(nextHops), ToSet(nextHops[..added]) - was)
      // at every step on the way, kept next hops stay programmed and nothing else is touched
      ensures PassesThrough(old(history), history, old(fib), k, ifs, ToSet(HopsAt(old(cache), k)), ToSet(nextHops))
      // VPP is left alone exactly when the next hops are those cached
      ensures ok ==> (history == old(history) <==> ToSet(nextHops) == ToSet(HopsAt(old(cache), k)))
      ensures history == old(history) ==> fib == old(fib)
      // the update is exact, given what UpdateUnambiguous asks
      ensures ok && old(InSync(k)) && Unambiguous(ifs, ToSet(nextHops)) ==> InSync(k)
    {
      ghost var was := ToSet(HopsAt(cache, k));
      DeleteOldNextHops(k, nextHops);
      ok, added := AddNewNextHops(k, nextHops, old(fib));
      assert nextHops[..|nextHops|] == nextHops;
      if ok {
        cache := if nextHops != [] then cache[k := nextHops] else cache - {k};
        if old(InSync(k)) {
          UpdateUnambiguous(ifs, was, ToSet(nextHops));
        }
      }
    }

    /** Deletes the paths of the cached next hops that are not in `nextHops`. */
    method DeleteOldNextHops(k: Key, nextHops: seq<NextHop>)
      requires Valid()
      modifies this`fib, this`history
      ensures forall k' :: k' != k ==> PathsAt(fib, k') == PathsAt(old(fib), k')
      ensures PathsAt(fib, k) == PathsAt(old(fib), k) - EncodeAll(ifs, ToSet(HopsAt(cache, k)) - ToSet(nextHops))
      ensures PassesThrough(old(history), history, old(fib), k, ifs, ToSet(HopsAt(cache, k)), ToSet(nextHops))
      ensures history == old(history) <==> ToSet(HopsAt(cache, k)) <= ToSet(nextHops)
      ensures history == old(history) ==> fib == old(fib)
    {
      var hops := HopsAt(cache, k);
      for i := 0 to |hops|
        invariant |history| == |old(history)| <==> ToSet(hops[..i]) <= ToSet(nextHops)
        invariant |history| == |old(history)| ==> fib == old(fib)
        invariant forall k' :: k' != k ==> PathsAt(fib, k') == PathsAt(old(fib), k')
        invariant PathsAt(fib, k) == PathsAt(old(fib), k) - EncodeAll(ifs, ToSet(hops[..i]) - ToSet(nextHops))
        invariant PassesThrough(old(history), history, old(fib), k, ifs, ToSet(hops), ToSet(nextHops))
      {
        EncodeOneMore(ifs, hops, i, ToSet(nextHops));
        assert hops[i] in ToSet(hops);
        if hops[i] in nextHops {
          continue;
        }
        ghost var past := history;
        var ok := AddDelNextHop(k, hops[i], false);
        PassesOneMore(old(history), past, fib, old(fib), k, ifs, ToSet(hops), ToSet(nextHops),
                      ToSet(hops[..i + 1]) - ToSet(nextHops), {});
      }
      assert hops[..|hops|] == hops;
    }

    /** Adds the paths of the next hops that are not cached; stops at the first unknown interface. */
    method AddNewNextHops(k: Key, nextHops: seq<NextHop>, ghost before: Fib) returns (ok: bool, ghost added: nat)
      requires Valid()
      requires forall k' :: k' != k ==> PathsAt(fib, k') == PathsAt(before, k')
      requires PathsAt(fib, k) == PathsAt(before, k) - EncodeAll(ifs, ToSet(HopsAt(cache, k)) - ToSet(nextHops))
      modifies this`fib, this`history
      ensures ok <==> Encodable(ifs, ToSet(nextHops))
      ensures forall k' :: k' != k ==> PathsAt(fib, k') == PathsAt(before, k')
      ensures if ok then added == |nextHops| else added < |nextHops| && Encode(ifs, nextHops[added]) == None
      ensures Encodable(ifs, ToSet(nextHops[..added]))
      ensures
        var was := ToSet(HopsAt(cache, k));
        PathsAt(fib, k) == Programmed(ifs, PathsAt(before, k), was, ToSet(nextHops), ToSet(nextHops[..added]) - was)
      ensures PassesThrough(old(history), history, before, k, ifs, ToSet(HopsAt(cache, k)), ToSet(nextHops))
      ensures ok ==> (history == old(history) <==> ToSet(nextHops) <= ToSet(HopsAt(cache, k)))
      ensures history == old(history) ==> fib == old(fib)
    {
      var hops := HopsAt(cache, k);
      ghost var was := ToSet(hops);
      for i := 0 to |nextHops|
        invariant |history| == |old(history)| <==> ToSet(nextHops[..i]) <= was
        invariant |history| == |old(history)| ==> fib == old(fib)
        invariant Adding(ifs, before, fib, k, was, nextHops, i)
        invariant PassesThrough(old(history), history, before, k, ifs, was, ToSet(nextHops))
      {
        if nextHops[i] in hops {
          AddingSkips(ifs, before, fib, k, was, nextHops, i);
          continue;
        }
        ghost var past, fib' := history, fib;
        ok := AddDelNextHop(k, nextHops[i], true);
        if !ok {
          assert nextHops[i] in ToSet(nextHops);
          added := i;
          return;
        }
        AddingOneMore(ifs, before, fib', fib, k, was, nextHops, i);
        PassesOneMore(old(history), past, fib, before, k, ifs, was, ToSet(nextHops),
                      was - ToSet(nextHops), ToSet(nextHops[..i + 1]) - was);
      }
      assert nextHops[..|nextHops|] == nextHops;
      return true, |nextHops|;
    }

    /** Removes all paths of `k`, by asking for none. */
    method DeleteRoute(k: Key)
      requires Valid()
      modifies this`cache, this`fib, this`history
      ensures Valid()
      ensures forall k' :: k' != k ==>
        HopsAt(cache, k') == HopsAt(old(cache), k') && PathsAt(fib, k') == PathsAt(old(fib), k')
      ensures HopsAt(cache, k) == []
      ensures PathsAt(fib, k) == PathsAt(old(fib), k) - EncodeAll(ifs, ToSet(HopsAt(old(cache), k)))
      ensures old(InSync(k)) ==> InSync(k)
      ensures old(history) <= history && (history == old(history) <==> HopsAt(old(cache), k) == [])
    {
      NoHops(HopsAt(cache, k));
      var ok, _ := AddRoute(k, []);
      assert ToSet(HopsAt(old(cache), k)) - ToSet([]) == ToSet(HopsAt(old(cache), k));
      assert ToSet([]) - ToSet(HopsAt(old(cache), k)) == {};
    }

    /** `AddRoute`, with what matters to a sequence of updates. */
    method UpdateRoute(k: Key, nextHops: seq<NextHop>) returns (ok: bool)
      requires Valid()
      modifies this`cache, this`fib, this`history
      ensures Valid() && (ok <==> Encodable(ifs, ToSet(nextHops)))
      ensures forall k' :: k' != k ==>
        HopsAt(cache, k') == HopsAt(old(cache), k') && PathsAt(fib, k') == PathsAt(old(fib), k')
      ensures ok ==> RouteSet(ifs, k, nextHops, old(cache), old(fib), cache, fib)
      ensures !ok ==> cache == old(cache) && RouteFailed(ifs, k, nextHops, cache, old(fib), fib)
      ensures old(history) <= history
      ensures ok ==> (history == old(history) <==> ToSet(nextHops) == ToSet(HopsAt(old(cache), k)))
    {
      ghost var added;
      ok, added := AddRoute(k, nextHops);
      if !ok {
        KnownBeforeIs(ifs, nextHops, added);
      }
    }

    /** Updates several routes in turn; stops at the first that fails. */
    method AddRoutes(preference: Preference, routes: seq<Route>) returns (ok: bool)
      requires Valid()
      modifies this`cache, this`fib, this`history
      ensures Valid()
      ensures ok <==> forall i :: 0 <= i < |routes| ==> Encodable(ifs, ToSet(routes[i].nextHops))
      ensures forall k: Key :: k.preference != preference || k.dest !in Dests(routes) ==>
        HopsAt(cache, k) == HopsAt(old(cache), k) && PathsAt(fib, k) == PathsAt(old(fib), k)
      ensures ok ==> forall d :: d in Dests(routes) ==> HopsAt(cache, Key(preference, d)) == Requested(routes, d)
      ensures ok ==> UpdatedWell(ifs, preference, routes, old(cache), old(fib), cache, fib)
      // on failure, the routes before the first with an unknown interface have been updated
      ensures !ok ==> Stopped(ifs, preference, routes, old(cache), old(fib), cache, fib)
      // VPP is left alone exactly when every route of the list is as cached
      ensures old(history) <= history
      ensures ok ==> (history == old(history) <==> AsCached(old(cache), preference, routes, |routes|))
    {
      ghost var states;
      ok, states := UpdateRoutes(preference, routes);
      if ok {
        UpdatesAssign(ifs, preference, routes, |routes|, states);
        UpdatesWell(ifs, preference, routes, |routes|, states);
        assert routes[..|routes|] == routes;
      } else {
        UpdatesStopped(ifs, preference, routes, states, fib);
      }
    }

    method UpdateRoutes(preference: Preference, routes: seq<Route>)
      returns (ok: bool, ghost states: seq<(map<Key, seq<NextHop>>, Fib)>)
      requires Valid()
      modifies this`cache, this`fib, this`history
      ensures Valid()
      ensures ok <==> forall i :: 0 <= i < |routes| ==> Encodable(ifs, ToSet(routes[i].nextHops))
      ensures forall k: Key :: k.preference != preference || k.dest !in Dests(routes) ==>
        HopsAt(cache, k) == HopsAt(old(cache), k) && PathsAt(fib, k) == PathsAt(old(fib), k)
      ensures ok ==> Updates(ifs, preference, routes, |routes|, states)
      ensures ok ==> states[0] == (old(cache), old(fib)) && states[|routes|] == (cache, fib)
      ensures !ok ==> StoppedAfter(ifs, preference, routes, states, fib)
      ensures !ok ==> states[0] == (old(cache), old(fib)) && states[|states| - 1].0 == cache
      ensures old(history) <= history
      ensures ok ==> (history == old(history) <==> AsCached(old(cache), preference, routes, |routes|))
    {
      states := [(cache, fib)];
      for i := 0 to |routes|
        invariant Valid()
        invariant forall j :: 0 <= j < i ==> Encodable(ifs, ToSet(routes[j].nextHops))
        invariant forall k: Key :: k.preference != preference || k.dest !in Dests(routes) ==>
          HopsAt(cache, k) == HopsAt(old(cache), k) && PathsAt(fib, k) == PathsAt(old(fib), k)
        invariant Updates(ifs, preference, routes, i, states) && states[0] == (old(cache), old(fib))
        invariant states[i] == (cache, fib)
        invariant old(history) <= history && (history == old(history) <==> AsCached(old(cache), preference, routes, i))
        invariant history == old(history) ==> SameHops(old(cache), cache)
      {
        ghost var before, past := cache, history;
        assert routes[i].dest in Dests(routes);
        ok := UpdateRoute(Key(preference, routes[i].dest), routes[i].nextHops);
        if !ok {
          return;
        }
        UpdatesOneMore(ifs, preference, routes, i, states, cache, fib);
        CachedOneMore(old(cache), before, cache, preference, routes, i, past == old(history), history == past);
        states := states + [(cache, fib)];
      }
      ok := true;
    }

    /** All routes of one preference, with the next hops their paths stand for; fails when a path
        runs over an interface without a known name. */
    method GetRoutes(preference: Preference) returns (r: Option<seq<Route>>)
      ensures r.Some? <==> forall d :: Decodable(ifs, PathsAt(fib, Key(preference, d)))
      ensures r.Some? ==> IsDump(ifs, fib, preference, r.value)
      ensures r.Some? && ifs.Valid() ==> forall i :: 0 <= i < |r.value| ==> NoDuplicates(r.value[i].nextHops)
    {
      var todo := set k | k in fib && k.preference == preference;
      var routes: seq<Route> := [];
      while todo != {}
        invariant forall k :: k in todo ==> k in fib && k.preference == preference && k.dest !in Dests(routes)
        invariant forall d :: PathsAt(fib, Key(preference, d)) != {} ==>
          Key(preference, d) in todo || d in Dests(routes)
        invariant forall i :: 0 <= i < |routes| ==> IsDumpOf(ifs, fib, preference, routes[i])
        invariant DistinctDests(routes)
        invariant ifs.Valid() ==> forall i :: 0 <= i < |routes| ==> NoDuplicates(routes[i].nextHops)
        decreases todo
      {
        var k :| k in todo;
        todo := todo - {k};
        var hops := DecodePaths(ifs, fib[k]);
        if hops == None {
          assert !Decodable(ifs, PathsAt(fib, Key(preference, k.dest)));
          return None;
        }
        if hops.value != [] {
          assert Key(preference, k.dest) == k;
          DestsStep(routes, Route(k.dest, hops.value));
          routes := routes + [Route(k.dest, hops.value)];
        }
      }
      return Some(routes);
    }

    /** Every route of the table is as cached, by proper next hops. */
    ghost predicate Clean()
      reads this
    {
      forall k :: InSync(k) && Proper(ifs, ToSet(HopsAt(cache, k)))
    }

    lemma CleanIsCanonical(preference: Preference)
      requires Valid() && Clean()
      ensures CanonicalTable(ifs, fib, preference)
      ensures forall d :: Decodable(ifs, PathsAt(fib, Key(preference, d)))
    {
      forall d, q | q in PathsAt(fib, Key(preference, d)) ensures Canonical(ifs, q) {
        var k := Key(preference, d);
        assert InSync(k) && Proper(ifs, ToSet(HopsAt(cache, k)));
        var h :| h in ToSet(HopsAt(cache, k)) && Encode(ifs, h) == Some(q);
        EncodeIsCanonical(ifs, h);
      }
      forall d ensures Decodable(ifs, PathsAt(fib, Key(preference, d))) {
        assert forall q :: q in PathsAt(fib, Key(preference, d)) ==> Canonical(ifs, q);
      }
    }

    /** A dump lists exactly the cached next hops, each prefix once, when all of them can be reported. */
    lemma DumpIsCache(preference: Preference, dump: seq<Route>)
      requires Valid() && IsDump(ifs, fib, preference, dump)
      requires forall d :: Kept(Key(preference, d))
      ensures SameRoutes(cache, preference, dump) && DistinctDests(dump)
      ensures AsDumped(ifs, preference, dump, fib)
    {
      KeptCache(preference);
      forall i | 0 <= i < |dump| ensures RouteDumped(ifs, preference, dump[i], fib) {
        assert IsDumpOf(ifs, fib, preference, dump[i]);
      }
      KeptDecodable(preference);
      LoadedSame(ifs, cache, fib, preference, dump);
    }

    /** The table holds the cached next hops of the route, and a dump can give them back. */
    ghost predicate Kept(k: Key)
      reads this
      requires ifs.Valid()
    {
      InSync(k) && AllReportable(ifs, ToSet(HopsAt(cache, k)))
    }

    lemma KeptDecodable(preference: Preference)
      requires Valid() && forall d :: Kept(Key(preference, d))
      ensures forall d :: Decodable(ifs, PathsAt(fib, Key(preference, d)))
    {
      forall d ensures Decodable(ifs, PathsAt(fib, Key(preference, d))) {
        var k := Key(preference, d);
        assert Kept(k);
        forall q | q in PathsAt(fib, k) ensures Decode(ifs, q).Some? {
          var h :| h in ToSet(HopsAt(cache, k)) && Encode(ifs, h) == Some(q);
          ReportedExactly(ifs, h);
        }
      }
    }

    /** The routes as programmed come back in a dump: each prefix once, with exactly its next hops. */
    method DumpCached(preference: Preference) returns (dump: seq<Route>)
      requires Valid() && forall d :: Kept(Key(preference, d))
      ensures SameRoutes(cache, preference, dump) && DistinctDests(dump)
    {
      KeptDecodable(preference);
      var r := GetRoutes(preference);
      dump := r.value;
      DumpIsCache(preference, dump);
    }

    /** A synchronisation with any list of routes succeeds, and tells VPP something exactly if the list
        is not what is programmed. */
    method Resync(preference: Preference, routes: seq<Route>)
      requires Valid() && forall d :: Kept(Key(preference, d))
      requires forall i :: 0 <= i < |routes| ==> Encodable(ifs, ToSet(routes[i].nextHops))
      modifies this`cache, this`fib, this`history
      ensures Valid()
      ensures history == old(history) <==> SameRoutes(old(cache), preference, routes)
    {
      KeptSame(preference, routes);
      var ok := SyncRoutes(preference, routes);
    }

    lemma KeptSame(preference: Preference, routes: seq<Route>)
      requires Valid() && forall d :: Kept(Key(preference, d))
      ensures SameRoutes(cache, preference, routes) <==> AsDumped(ifs, preference, routes, fib)
      ensures forall d :: Decodable(ifs, PathsAt(fib, Key(preference, d)))
    {
      KeptDecodable(preference);
      KeptCache(preference);
      LoadedSame(ifs, cache, fib, preference, routes);
    }

    lemma KeptCache(preference: Preference)
      requires Valid() && forall d :: Kept(Key(preference, d))
      ensures forall d :: ToSet(HopsAt(cache, Key(preference, d))) == DecodeAll(ifs, PathsAt(fib, Key(preference, d)))
    {
      forall d ensures
        ToSet(HopsAt(cache, Key(preference, d))) == DecodeAll(ifs, PathsAt(fib, Key(preference, d)))
      {
        assert Kept(Key(preference, d));
        ReportedBack(ifs, ToSet(HopsAt(cache, Key(preference, d))));
      }
    }

    /** Over any run of proper requests, the table holds exactly what the requests ask for when
        read as plain assignments. */
    method Serve(requests: seq<Request>)
      requires Valid() && Clean()
      requires forall i :: 0 <= i < |requests| ==> ProperRequest(ifs, requests[i])
      modifies this`cache, this`fib, this`history
      ensures Valid() && Clean()
      ensures forall k :: HopsAt(cache, k) == Wanted(old(cache), requests, k)
      ensures forall k :: PathsAt(fib, k) == EncodeAll(ifs, ToSet(Wanted(old(cache), requests, k)))
    {
      for i := 0 to |requests|
        invariant Valid() && Clean()
        invariant forall k :: HopsAt(cache, k) == Wanted(old(cache), requests[..i], k)
      {
        assert requests[..i + 1][..i] == requests[..i];
        assert ProperRequest(ifs, requests[i]);
        ServeOne(requests[i]);
      }
      assert requests[..|requests|] == requests;
      assert forall k :: InSync(k);
    }

    method ServeOne(r: Request)
      requires Valid() && Clean() && ProperRequest(ifs, r)
      modifies this`cache, this`fib, this`history
      ensures Valid() && Clean()
      ensures forall k :: HopsAt(cache, k) == After(HopsAt(old(cache), k), r, k)
    {
      match r {
        case Update(p, routes) =>
          var ok := AddRoutes(p, routes);
          assert ok;
        case Delete(p, dests) =>
          DeleteRoutes(p, dests);
        case Sync(p, routes) =>
          CleanIsCanonical(p);
          var ok := SyncRoutes(p, routes);
          assert ok;
      }
      forall k
        ensures HopsAt(cache, k) == After(HopsAt(old(cache), k), r, k)
        ensures Proper(ifs, ToSet(HopsAt(cache, k))) && InSync(k)
      {
        assert k == Key(k.preference, k.dest);
        assert old(InSync(k)) && Proper(ifs, ToSet(HopsAt(old(cache), k)));
        if !r.Delete? {
          ProperRequested(ifs, r, k.dest);
        }
      }
    }

    method DeleteRoutes(preference: Preference, dests: seq<Prefix>)
      requires Valid()
      modifies this`cache, this`fib, this`history
      ensures Valid()
      ensures forall k :: HopsAt(cache, k) == After(HopsAt(old(cache), k), Delete(preference, dests), k)
      ensures Removed(ifs, old(cache), old(fib), cache, fib, preference, set d | d in dests)
      ensures forall k :: old(InSync(k)) ==> InSync(k)
    {
      ghost var gone: set<Prefix> := {};
      for i := 0 to |dests|
        invariant Valid() && gone == set d | d in dests[..i]
        invariant Removed(ifs, old(cache), old(fib), cache, fib, preference, gone)
      {
        assert dests[..i + 1] == dests[..i] + [dests[i]];
        DeleteRoute(Key(preference, dests[i]));
        gone := gone + {dests[i]};
      }
      assert dests[..|dests|] == dests;
      RemovedSynced(ifs, old(cache), old(fib), cache, fib, preference, gone);
      assert forall k: Key ::
        RemovedAt(ifs, old(cache), old(fib), cache, fib, k, k.preference == preference && k.dest in gone);
    }

    /** Replaces the cached routes of one preference by a dump of the table. */
    method LoadCache(preference: Preference, dump: seq<Route>)
      requires Valid() && IsDump(ifs, fib, preference, dump)
      modifies this`cache
      ensures Valid()
      ensures forall k: Key :: k.preference != preference ==> HopsAt(cache, k) == HopsAt(old(cache), k)
      ensures forall d :: ToSet(HopsAt(cache, Key(preference, d))) == DecodeAll(ifs, PathsAt(fib, Key(preference, d)))
      ensures forall d :: d !in Dests(dump) ==> HopsAt(cache, Key(preference, d)) == []
    {
      var loaded := map k | k in cache && k.preference != preference :: cache[k];
      ghost var others := loaded;
      for i := 0 to |dump|
        invariant forall k: Key :: k.preference != preference ==> HopsAt(loaded, k) == HopsAt(others, k)
        invariant forall k: Key :: k.preference == preference ==> HopsAt(loaded, k) == Requested(dump[..i], k.dest)
        invariant forall k :: k in loaded ==> loaded[k] != [] && Encodable(ifs, ToSet(loaded[k]))
      {
        RequestedStep(dump, i);
        assert IsDumpOf(ifs, fib, preference, dump[i]);
        DecodedEncodable(ifs, PathsAt(fib, Key(preference, dump[i].dest)));
        loaded := loaded[Key(preference, dump[i].dest) := dump[i].nextHops];
      }
      assert dump[..|dump|] == dump;
      cache := loaded;
      forall d ensures ToSet(HopsAt(cache, Key(preference, d))) == DecodeAll(ifs, PathsAt(fib, Key(preference, d)))
        && (d !in Dests(dump) ==> HopsAt(cache, Key(preference, d)) == [])
      {
        DumpedHops(ifs, fib, preference, dump, d);
      }
    }

    /** Deletes the routes of the dump that were not requested. */
    method RemoveOldRoutes(preference: Preference, dump: seq<Route>, keep: set<Prefix>)
      requires Valid() && DistinctDests(dump)
      modifies this`cache, this`fib, this`history
      ensures Valid()
      ensures Removed(ifs, old(cache), old(fib), cache, fib, preference, Dests(dump) - keep)
      ensures forall k :: old(InSync(k)) ==> InSync(k)
      ensures old(history) <= history && (history == old(history) <==> NoneLeft(old(cache), preference, dump, keep))
    {
      for i := 0 to |dump|
        invariant Valid()
        invariant old(history) <= history
        invariant history == old(history) <==> NoneLeft(old(cache), preference, dump[..i], keep)
        invariant Removed(ifs, old(cache), old(fib), cache, fib, preference, Dests(dump[..i]) - keep)
      {
        NoneLeftStep(old(cache), preference, dump, keep, i);
        if dump[i].dest in keep {
          assert Dests(dump[..i + 1]) - keep == Dests(dump[..i]) - keep;
          continue;
        }
        ghost var cache', fib', gone := cache, fib, Dests(dump[..i]) - keep;
        assert Dests(dump[..i + 1]) - keep == gone + {dump[i].dest};
        assert RemovedAt(ifs, old(cache), old(fib), cache, fib, Key(preference, dump[i].dest), false);
        DeleteRoute(Key(preference, dump[i].dest));
        RemovedOneMore(ifs, old(cache), old(fib), cache', fib', cache, fib, preference, gone, dump[i].dest);
      }
      assert dump[..|dump|] == dump;
      RemovedSynced(ifs, old(cache), old(fib), cache, fib, preference, Dests(dump) - keep);
    }

    /** Makes the routes of one preference exactly those requested, starting from a dump of the
        table and not from what the cache held. */
    method SyncRoutes(preference: Preference, routes: seq<Route>) returns (ok: bool)
      requires Valid()
      modifies this`cache, this`fib, this`history
      ensures Valid()
      ensures ok <==>
        && (forall d :: Decodable(ifs, PathsAt(old(fib), Key(preference, d))))
        && (forall i :: 0 <= i < |routes| ==> Encodable(ifs, ToSet(routes[i].nextHops)))
      ensures (exists d :: !Decodable(ifs, PathsAt(old(fib), Key(preference, d)))) ==>
        cache == old(cache) && fib == old(fib)
      ensures forall k: Key :: k.preference != preference ==>
        HopsAt(cache, k) == HopsAt(old(cache), k) && PathsAt(fib, k) == PathsAt(old(fib), k)
      ensures ok ==> forall d :: HopsAt(cache, Key(preference, d)) == Requested(routes, d)
      // a route comes out right if its old paths were canonical; for proper requests, only if
      ensures ok && (forall i :: 0 <= i < |routes| ==> Unambiguous(ifs, ToSet(routes[i].nextHops))) ==>
        forall d :: Residue(ifs, PathsAt(old(fib), Key(preference, d))) == {} ==> InSync(Key(preference, d))
      ensures ok && (forall i :: 0 <= i < |routes| ==> Proper(ifs, ToSet(routes[i].nextHops))) ==>
        forall d :: InSync(Key(preference, d)) <==> Residue(ifs, PathsAt(old(fib), Key(preference, d))) == {}
      ensures ok ==> forall d :: d !in Dests(routes) ==>
        var was := PathsAt(old(fib), Key(preference, d));
        PathsAt(fib, Key(preference, d)) == was - EncodeAll(ifs, DecodeAll(ifs, was))
      // on an unknown interface, the updates have stopped, from a cache that is the dump
      ensures !ok && (forall d :: Decodable(ifs, PathsAt(old(fib), Key(preference, d)))) ==>
        exists loaded ::
          && Loaded(ifs, preference, old(cache), old(fib), loaded)
          && Stopped(ifs, preference, routes, loaded, old(fib), cache, fib)
      // VPP is left alone exactly when the request is what the dump reports
      ensures ok ==> (history == old(history) <==> AsDumped(ifs, preference, routes, old(fib)))
    {
      var dump := GetRoutes(preference);
      if dump == None {
        return false;
      }
      LoadCache(preference, dump.value);
      LoadedInSync(preference);
      ghost var loaded := cache;
      assert Loaded(ifs, preference, old(cache), old(fib), loaded);
      LoadedSame(ifs, cache, fib, preference, routes);
      ok := Reconcile(preference, routes, dump.value);
      if ok && forall i :: 0 <= i < |routes| ==> Proper(ifs, ToSet(routes[i].nextHops)) {
        ProperSync(ifs, preference, routes, loaded, old(fib), cache, fib);
      }
    }

    /** A route with canonical paths is in sync with a cache loaded from the table. */
    lemma LoadedInSync(preference: Preference)
      requires forall d :: ToSet(HopsAt(cache, Key(preference, d))) == DecodeAll(ifs, PathsAt(fib, Key(preference, d)))
      ensures forall d :: Residue(ifs, PathsAt(fib, Key(preference, d))) == {} ==> InSync(Key(preference, d))
    {
      forall d | Residue(ifs, PathsAt(fib, Key(preference, d))) == {} ensures InSync(Key(preference, d)) {
        var paths := PathsAt(fib, Key(preference, d));
        assert forall q :: q in paths && !Canonical(ifs, q) ==> q in Residue(ifs, paths);
        DecodedCanonical(ifs, paths);
      }
    }

    /** With the cache loaded: updates the requested routes, then deletes the others of the dump. */
    method Reconcile(preference: Preference, routes: seq<Route>, dump: seq<Route>) returns (ok: bool)
      requires Valid() && DistinctDests(dump)
      requires forall d :: d !in Dests(dump) ==> HopsAt(cache, Key(preference, d)) == []
      modifies this`cache, this`fib, this`history
      ensures Valid()
      ensures ok <==> forall i :: 0 <= i < |routes| ==> Encodable(ifs, ToSet(routes[i].nextHops))
      ensures forall k: Key :: k.preference != preference ==>
        HopsAt(cache, k) == HopsAt(old(cache), k) && PathsAt(fib, k) == PathsAt(old(fib), k)
      ensures ok ==> forall d :: HopsAt(cache, Key(preference, d)) == Requested(routes, d)
      ensures ok && (forall i :: 0 <= i < |routes| ==> Unambiguous(ifs, ToSet(routes[i].nextHops)))
              ==> forall k :: old(InSync(k)) ==> InSync(k)
      ensures ok && (forall i :: 0 <= i < |routes| ==> CanonicalHops(ifs, ToSet(routes[i].nextHops))) ==>
        Keeps(ifs, preference, old(cache), old(fib), cache, fib)
      ensures ok ==> forall d :: d !in Dests(routes) ==>
        var k := Key(preference, d);
        PathsAt(fib, k) == PathsAt(old(fib), k) - EncodeAll(ifs, ToSet(HopsAt(old(cache), k)))
      ensures !ok ==> Stopped(ifs, preference, routes, old(cache), old(fib), cache, fib)
      ensures ok ==> (history == old(history) <==> SameRoutes(old(cache), preference, routes))
    {
      ok := AddRoutes(preference, routes);
      if ok {
        ghost var cache', fib' := cache, fib;
        RemoveOldRoutes(preference, dump, Dests(routes));
        SameRoutesIs(old(cache), cache', preference, routes, dump);
        KeepsRemoved(ifs, preference, cache', fib', cache, fib, Dests(dump) - Dests(routes));
        if forall i :: 0 <= i < |routes| ==> CanonicalHops(ifs, ToSet(routes[i].nextHops)) {
          KeepsTwice(ifs, preference, old(cache), old(fib), cache', fib', cache, fib);
        }
        Reconciled(ifs, preference, routes, dump, old(cache), old(fib), cache', fib', cache, fib);
      }
    }
  }

  /** The cache has no next hops for the routes of the list other than those to keep. */
  ghost predicate NoneLeft(cache: map<Key, seq<NextHop>>, preference: Preference, dump: seq<Route>, keep: set<Prefix>) {
    forall d :: d in Dests(dump) && d !in keep ==> HopsAt(cache, Key(preference, d)) == []
  }

  lemma NoneLeftStep(cache: map<Key, seq<NextHop>>, preference: Preference, dump: seq<Route>, keep: set<Prefix>, i: nat)
    requires i < |dump| && DistinctDests(dump)
    ensures Dests(dump[..i + 1]) == Dests(dump[..i]) + {dump[i].dest} && dump[i].dest !in Dests(dump[..i])
    ensures NoneLeft(cache, preference, dump[..i + 1], keep) <==>
      && NoneLeft(cache, preference, dump[..i], keep)
      && (dump[i].dest in keep || HopsAt(cache, Key(preference, dump[i].dest)) == [])
  {
    RequestedStep(dump, i);
  }

  lemma RemovedOneMore(ifs: Interfaces, cache: map<Key, seq<NextHop>>, fib: Fib,
                       mid: map<Key, seq<NextHop>>, midFib: Fib, cache': map<Key, seq<NextHop>>, fib': Fib,
                       preference: Preference, gone: set<Prefix>, d: Prefix)
    requires d !in gone && Removed(ifs, cache, fib, mid, midFib, preference, gone)
    requires RemovedAt(ifs, mid, midFib, cache', fib', Key(preference, d), true)
    requires forall k :: k != Key(preference, d) ==> RemovedAt(ifs, mid, midFib, cache', fib', k, false)
    ensures Removed(ifs, cache, fib, cache', fib', preference, gone + {d})
  {
    forall k: Key
      ensures RemovedAt(ifs, cache, fib, cache', fib', k, k.preference == preference && k.dest in gone + {d})
    {
      assert RemovedAt(ifs, cache, fib, mid, midFib, k, k.preference == preference && k.dest in gone);
      assert k == Key(preference, d) <==> k.preference == preference && k.dest == d;
      assert RemovedAt(ifs, mid, midFib, cache', fib', k, k == Key(preference, d));
    }
  }

  /** The list is what the cache has for the preference: each of its routes, and no other. */
  ghost predicate SameRoutes(cache: map<Key, seq<NextHop>>, preference: Preference, routes: seq<Route>) {
    && AsCached(cache, preference, routes, |routes|)
    && forall d :: HopsAt(cache, Key(preference, d)) != [] ==> d in Dests(routes)
  }

  lemma SameRoutesIs(cache: map<Key, seq<NextHop>>, cache': map<Key, seq<NextHop>>, preference: Preference,
                     routes: seq<Route>, dump: seq<Route>)
    requires forall d :: d !in Dests(dump) ==> HopsAt(cache, Key(preference, d)) == []
    requires forall d :: d !in Dests(routes) ==> HopsAt(cache', Key(preference, d)) == HopsAt(cache, Key(preference, d))
    ensures SameRoutes(cache, preference, routes) <==>
      AsCached(cache, preference, routes, |routes|) && NoneLeft(cache', preference, dump, Dests(routes))
  {
  }

  /** What updating the requested routes and then removing the others comes to. */
  lemma Reconciled(ifs: Interfaces, preference: Preference, routes: seq<Route>, dump: seq<Route>,
                   cache: map<Key, seq<NextHop>>, fib: Fib, mid: map<Key, seq<NextHop>>, midFib: Fib,
                   cache': map<Key, seq<NextHop>>, fib': Fib)
    requires forall d :: d !in Dests(dump) ==> HopsAt(cache, Key(preference, d)) == []
    requires forall k: Key :: k.preference != preference || k.dest !in Dests(routes) ==>
      HopsAt(mid, k) == HopsAt(cache, k) && PathsAt(midFib, k) == PathsAt(fib, k)
    requires forall d :: d in Dests(routes) ==> HopsAt(mid, Key(preference, d)) == Requested(routes, d)
    requires Removed(ifs, mid, midFib, cache', fib', preference, Dests(dump) - Dests(routes))
    ensures forall d :: HopsAt(cache', Key(preference, d)) == Requested(routes, d)
    ensures forall d :: d !in Dests(routes) ==>
      var k := Key(preference, d);
      PathsAt(fib', k) == PathsAt(fib, k) - EncodeAll(ifs, ToSet(HopsAt(cache, k)))
    ensures forall k: Key :: k.preference != preference ==>
      HopsAt(cache', k) == HopsAt(cache, k) && PathsAt(fib', k) == PathsAt(fib, k)
  {
    forall d ensures
      var k := Key(preference, d);
      && HopsAt(cache', k) == Requested(routes, d)
      && (d !in Dests(routes) ==> PathsAt(fib', k) == PathsAt(fib, k) - EncodeAll(ifs, ToSet(HopsAt(cache, k))))
    {
      var k := Key(preference, d);
      RequestedSource(routes, d);
      assert RemovedAt(ifs, mid, midFib, cache', fib', k, d in Dests(dump) - Dests(routes));
      assert d !in Dests(dump) && d !in Dests(routes) ==> ToSet(HopsAt(cache, k)) == {};
    }
    forall k: Key | k.preference != preference
      ensures HopsAt(cache', k) == HopsAt(cache, k) && PathsAt(fib', k) == PathsAt(fib, k)
    {
      assert RemovedAt(ifs, mid, midFib, cache', fib', k, false);
    }
  }

  /** The list is what the table holds for the preference, as a dump reports it. */
  ghost predicate AsDumped(ifs: Interfaces, preference: Preference, routes: seq<Route>, fib: Fib) {
    && (forall i :: 0 <= i < |routes| ==> RouteDumped(ifs, preference, routes[i], fib))
    && forall d :: PathsAt(fib, Key(preference, d)) != {} ==> d in Dests(routes)
  }

  ghost predicate RouteDumped(ifs: Interfaces, preference: Preference, route: Route, fib: Fib) {
    ToSet(route.nextHops) == DecodeAll(ifs, PathsAt(fib, Key(preference, route.dest)))
  }

  lemma LoadedSame(ifs: Interfaces, cache: map<Key, seq<NextHop>>, fib: Fib, preference: Preference, routes: seq<Route>)
    requires forall d :: Decodable(ifs, PathsAt(fib, Key(preference, d)))
    requires forall d :: ToSet(HopsAt(cache, Key(preference, d))) == DecodeAll(ifs, PathsAt(fib, Key(preference, d)))
    ensures SameRoutes(cache, preference, routes) <==> AsDumped(ifs, preference, routes, fib)
  {
    forall d ensures HopsAt(cache, Key(preference, d)) == [] <==> PathsAt(fib, Key(preference, d)) == {} {
      var hops, paths := HopsAt(cache, Key(preference, d)), PathsAt(fib, Key(preference, d));
      NoHops(hops);
      assert Decodable(ifs, paths);
      if q :| q in paths {
        assert Decode(ifs, q).value in DecodeAll(ifs, paths);
      }
    }
    forall i | 0 <= i < |routes|
      ensures RouteCached(cache, preference, routes[i]) <==> RouteDumped(ifs, preference, routes[i], fib)
    {
    }
  }

  lemma NoHops(hops: seq<NextHop>)
    ensures ToSet([]) == ToSet(hops) <==> hops == []
  {
    assert hops != [] ==> hops[0] in ToSet(hops);
  }

  /** The first `n` routes of the list have the next hops that the cache has for them. */
  ghost predicate AsCached(cache: map<Key, seq<NextHop>>, preference: Preference, routes: seq<Route>, n: nat)
    requires n <= |routes|
  {
    forall i :: 0 <= i < n ==> RouteCached(cache, preference, routes[i])
  }

  ghost predicate RouteCached(cache: map<Key, seq<NextHop>>, preference: Preference, route: Route) {
    ToSet(route.nextHops) == ToSet(HopsAt(cache, Key(preference, route.dest)))
  }

  ghost predicate SameHops(cache: map<Key, seq<NextHop>>, cache': map<Key, seq<NextHop>>) {
    forall k :: ToSet(HopsAt(cache, k)) == ToSet(HopsAt(cache', k))
  }

  /** As long as VPP is left alone, the cache names the same next hops for each route. */
  lemma CachedOneMore(initial: map<Key, seq<NextHop>>, cache: map<Key, seq<NextHop>>, cache': map<Key, seq<NextHop>>,
                      preference: Preference, routes: seq<Route>, i: nat, idle: bool, idle': bool)
    requires i < |routes| && (idle <==> AsCached(initial, preference, routes, i)) && (idle ==> SameHops(initial, cache))
    requires idle' <==> RouteCached(cache, preference, routes[i])
    requires HopsAt(cache', Key(preference, routes[i].dest)) == routes[i].nextHops
    requires forall k :: k != Key(preference, routes[i].dest) ==> HopsAt(cache', k) == HopsAt(cache, k)
    ensures idle && idle' <==> AsCached(initial, preference, routes, i + 1)
    ensures idle && idle' ==> SameHops(initial, cache')
  {
    if AsCached(initial, preference, routes, i + 1) {
      assert RouteCached(initial, preference, routes[i]);
      assert AsCached(initial, preference, routes, i);
    }
  }

  /** The cache of the preference is a dump of the table; the rest of it is as it was. */
  ghost predicate Loaded(ifs: Interfaces, preference: Preference, cache: map<Key, seq<NextHop>>, fib: Fib,
                         cache': map<Key, seq<NextHop>>)
  {
    && (forall k: Key :: k.preference != preference ==> HopsAt(cache', k) == HopsAt(cache, k))
    && forall d :: ToSet(HopsAt(cache', Key(preference, d))) == DecodeAll(ifs, PathsAt(fib, Key(preference, d)))
  }

  /** A failed update of a route in sync, and a second one that goes through: the route then has the
      paths of the second if and only if that drops what the first withdrew and keeps what it added. */
  method UpdateAfterFailure(c: VppClient, k: Key, first: seq<NextHop>, second: seq<NextHop>)
    requires c.Valid() && c.InSync(k) && !Encodable(c.ifs, ToSet(first)) && Encodable(c.ifs, ToSet(second))
    requires
      var was, added := ToSet(HopsAt(c.cache, k)), ToSet(first[..KnownBefore(c.ifs, first)]);
      Unambiguous(c.ifs, was + (added - was) + ToSet(second))
    modifies c`cache, c`fib, c`history
    ensures c.Valid() && HopsAt(c.cache, k) == second
    ensures
      var was, added := ToSet(HopsAt(old(c.cache), k)), ToSet(first[..KnownBefore(c.ifs, first)]);
      PathsAt(c.fib, k) == EncodeAll(c.ifs, ToSet(second)) <==>
      was * ToSet(second) <= ToSet(first) && added - was <= ToSet(second)
  {
    ghost var was, added := ToSet(HopsAt(c.cache, k)), ToSet(first[..KnownBefore(c.ifs, first)]);
    KnownHops(c.ifs, first);
    assert Encodable(c.ifs, was) by {
      assert k in c.cache ==> Encodable(c.ifs, ToSet(c.cache[k]));
    }
    var ok := c.UpdateRoute(k, first);
    ok := c.UpdateRoute(k, second);
    RepairExact(c.ifs, was, ToSet(first), added - was, ToSet(second));
  }

  lemma {:induction false} KnownHops(ifs: Interfaces, hops: seq<NextHop>)
    ensures
      var known := ToSet(hops[..KnownBefore(ifs, hops)]);
      Encodable(ifs, known) && known <= ToSet(hops)
  {
    var n := KnownBefore(ifs, hops);
    forall h | h in ToSet(hops[..n]) ensures Encode(ifs, h).Some? && h in ToSet(hops) {
      var i :| 0 <= i < n && hops[..n][i] == h;
      KnownAt(ifs, hops, i);
      assert hops[i] == h;
    }
  }

  lemma {:induction false} KnownAt(ifs: Interfaces, hops: seq<NextHop>, i: nat)
    requires i < KnownBefore(ifs, hops)
    ensures Encode(ifs, hops[i]).Some?
  {
    if i > 0 {
      KnownAt(ifs, hops[1..], i - 1);
    }
  }

  /** A failed update, repeated as it was before: the first call withdraws the cached next hop and
      fails on an unknown interface; the second finds it in the cache and leaves the route empty. */
  method RetryLosesRoute(c: VppClient, k: Key, hop: NextHop, unknown: NextHop) returns (first: bool, second: bool)
    requires c.Valid() && c.InSync(k) && HopsAt(c.cache, k) == [hop]
    requires Encode(c.ifs, unknown) == None
    modifies c`cache, c`fib, c`history
    ensures !first && second && c.Valid() && HopsAt(c.cache, k) == [hop] && PathsAt(c.fib, k) == {}
  {
    assert hop in ToSet([hop]) && hop != unknown by {
      assert [hop][0] == hop;
      assert k in c.cache && Encodable(c.ifs, ToSet(c.cache[k]));
    }
    assert ToSet([hop]) == {hop} && ToSet([unknown]) == {unknown} by {
      assert [hop][0] == hop && [unknown][0] == unknown;
    }
    ghost var added;
    first, added := c.AddRoute(k, [unknown]);
    assert unknown in ToSet([unknown]) && !Encodable(c.ifs, {unknown});
    assert [unknown][..0] == [] && {hop} - {unknown} == {hop} && ToSet([unknown][..added]) - {hop} == {};
    assert PathsAt(c.fib, k) == {};
    second, added := c.AddRoute(k, [hop]);
    assert {hop} - {hop} == {};
  }

  /** A synchronisation that asks for a route just as it was dumped leaves it wrong when its path is
      not canonical. */
  method SyncKeepsWrong(c: VppClient, preference: Preference, d: Prefix, q: Path)
    requires c.Valid() && PathsAt(c.fib, Key(preference, d)) == {q} && !Canonical(c.ifs, q)
    requires Decode(c.ifs, q).Some? && forall d' :: Decodable(c.ifs, PathsAt(c.fib, Key(preference, d')))
    modifies c`cache, c`fib, c`history
    ensures HopsAt(c.cache, Key(preference, d)) == [Decode(c.ifs, q).value] && !c.InSync(Key(preference, d))
  {
    assert q in PathsAt(c.fib, Key(preference, d)) && Decodable(c.ifs, PathsAt(c.fib, Key(preference, d)));
    var h := Decode(c.ifs, q).value;
    assert ToSet([h]) == {h} by {
      assert [h][0] == h;
    }
    EncodeDecodeIdempotent(c.ifs, q);
    var routes := [Route(d, [h])];
    assert Proper(c.ifs, {h});
    assert q in Residue(c.ifs, PathsAt(c.fib, Key(preference, d)));
    var ok := c.SyncRoutes(preference, routes);
    assert routes[|routes| - 1] == Route(d, [h]);
  }

  // ----- runs of requests -----

  /** What clients ask of the route service. */
  datatype Request =
    | Update(preference: Preference, routes: seq<Route>)
    | Delete(preference: Preference, dests: seq<Prefix>)
    | Sync(preference: Preference, routes: seq<Route>)

  /** The next hops of `k` after a request, read as a plain assignment. */
  ghost function After(earlier: seq<NextHop>, r: Request, k: Key): seq<NextHop> {
    match r
    case Update(p, routes) =>
      if k.preference == p && k.dest in Dests(routes) then Requested(routes, k.dest) else earlier
    case Delete(p, dests) => if k.preference == p && k.dest in dests then [] else earlier
    case Sync(p, routes) => if k.preference == p then Requested(routes, k.dest) else earlier
  }

  ghost function Wanted(initial: map<Key, seq<NextHop>>, requests: seq<Request>, k: Key): seq<NextHop> {
    if requests == [] then HopsAt(initial, k)
    else After(Wanted(initial, requests[..|requests| - 1], k), requests[|requests| - 1], k)
  }

  /** All next hops are on known interfaces, named as VPP reports them, and have different paths. */
  ghost predicate Proper(ifs: Interfaces, hops: set<NextHop>) {
    && Encodable(ifs, hops)
    && Unambiguous(ifs, hops)
    && forall h :: h in hops && h.ifName.Some? ==> ProperName(ifs, h.ifName.value)
  }

  ghost predicate ProperName(ifs: Interfaces, name: string) {
    name in ifs.indexOf && ifs.indexOf[name] in ifs.nameOf && ifs.nameOf[ifs.indexOf[name]] == name
  }

  ghost predicate ProperRequest(ifs: Interfaces, r: Request) {
    r.Delete? || forall i :: 0 <= i < |r.routes| ==> Proper(ifs, ToSet(r.routes[i].nextHops))
  }

  lemma ProperRequested(ifs: Interfaces, r: Request, d: Prefix)
    requires !r.Delete? && ProperRequest(ifs, r)
    ensures Proper(ifs, ToSet(Requested(r.routes, d)))
  {
    RequestedSource(r.routes, d);
  }

  ghost predicate CanonicalTable(ifs: Interfaces, fib: Fib, preference: Preference) {
    forall d, q :: q in PathsAt(fib, Key(preference, d)) ==> Canonical(ifs, q)
  }

  /** The routes of `gone` have been deleted as far as the cache knew them; all else is as it was. */
  ghost predicate Removed(ifs: Interfaces, cache: map<Key, seq<NextHop>>, fib: Fib,
                          cache': map<Key, seq<NextHop>>, fib': Fib, preference: Preference, gone: set<Prefix>)
  {
    forall k: Key :: RemovedAt(ifs, cache, fib, cache', fib', k, k.preference == preference && k.dest in gone)
  }

  ghost predicate RemovedAt(ifs: Interfaces, cache: map<Key, seq<NextHop>>, fib: Fib,
                            cache': map<Key, seq<NextHop>>, fib': Fib, k: Key, gone: bool)
  {
    if gone then
      HopsAt(cache', k) == [] && PathsAt(fib', k) == PathsAt(fib, k) - EncodeAll(ifs, ToSet(HopsAt(cache, k)))
    else HopsAt(cache', k) == HopsAt(cache, k) && PathsAt(fib', k) == PathsAt(fib, k)
  }

  /** The first `n` routes of the list are cached as stated, the last one for a destination winning;
      all else is as it was. */
  ghost predicate Assigned(preference: Preference, routes: seq<Route>, n: nat, cache: map<Key, seq<NextHop>>, fib: Fib,
                           cache': map<Key, seq<NextHop>>, fib': Fib)
    requires n <= |routes|
  {
    && Dests(routes[..n]) <= Dests(routes)
    && (forall k: Key :: k.preference != preference || k.dest !in Dests(routes[..n]) ==>
          HopsAt(cache', k) == HopsAt(cache, k) && PathsAt(fib', k) == PathsAt(fib, k))
    && (forall d :: d in Dests(routes[..n]) ==> HopsAt(cache', Key(preference, d)) == Requested(routes[..n], d))
  }

  /** The number of next hops before the first on an unknown interface. */
  ghost function KnownBefore(ifs: Interfaces, hops: seq<NextHop>): (n: nat)
    ensures n <= |hops|
  {
    if hops == [] || Encode(ifs, hops[0]) == None then 0 else 1 + KnownBefore(ifs, hops[1..])
  }

  lemma {:induction false} KnownBeforeIs(ifs: Interfaces, hops: seq<NextHop>, n: nat)
    requires n < |hops| && Encode(ifs, hops[n]) == None && Encodable(ifs, ToSet(hops[..n]))
    ensures KnownBefore(ifs, hops) == n
  {
    if n > 0 {
      assert hops[..n][0] == hops[0] && hops[0] in ToSet(hops[..n]);
      forall h | h in ToSet(hops[1..][..n - 1]) ensures Encode(ifs, h).Some? {
        var i :| 0 <= i < n - 1 && hops[1..][..n - 1][i] == h;
        assert hops[..n][i + 1] == h;
      }
      KnownBeforeIs(ifs, hops[1..], n - 1);
    }
  }

  /** The update of a route failed: the next hops up to the unknown interface are programmed, those no
      longer wanted are not; the cache, and all other routes, are as they were. */
  ghost predicate RouteFailed(ifs: Interfaces, k: Key, hops: seq<NextHop>, cache: map<Key, seq<NextHop>>, fib: Fib,
                              fib': Fib)
  {
    var was := ToSet(HopsAt(cache, k));
    && PathsAt(fib', k) ==
       Programmed(ifs, PathsAt(fib, k), was, ToSet(hops), ToSet(hops[..KnownBefore(ifs, hops)]) - was)
    && forall k' :: k' != k ==> PathsAt(fib', k') == PathsAt(fib, k')
  }

  /** After these states, the update of the next route failed. */
  ghost predicate StoppedAfter(ifs: Interfaces, preference: Preference, routes: seq<Route>,
                               states: seq<(map<Key, seq<NextHop>>, Fib)>, fib: Fib)
  {
    && 0 < |states| <= |routes| && Updates(ifs, preference, routes, |states| - 1, states)
    && StopsAt(ifs, routes, |states| - 1)
    && FailedAfter(ifs, preference, routes[|states| - 1], states[|states| - 1], fib)
  }

  ghost predicate FailedAfter(ifs: Interfaces, preference: Preference, route: Route,
                              s: (map<Key, seq<NextHop>>, Fib), fib: Fib)
  {
    RouteFailed(ifs, Key(preference, route.dest), route.nextHops, s.0, s.1, fib)
  }

  /** The first route of the list with an unknown interface. */
  ghost predicate StopsAt(ifs: Interfaces, routes: seq<Route>, n: nat) {
    && n < |routes| && !Encodable(ifs, ToSet(routes[n].nextHops))
    && forall i :: 0 <= i < n ==> Encodable(ifs, ToSet(routes[i].nextHops))
  }

  /** The updates stopped at the first route with an unknown interface: those before it are cached and
      programmed as if they were all, in the table `mid`, and then that one failed. */
  ghost predicate Stopped(ifs: Interfaces, preference: Preference, routes: seq<Route>,
                          cache: map<Key, seq<NextHop>>, fib: Fib, cache': map<Key, seq<NextHop>>, fib': Fib)
  {
    exists n: nat, mid: Fib :: StoppedAt(ifs, preference, routes, n, cache, fib, cache', mid, fib')
  }

  ghost predicate StoppedAt(ifs: Interfaces, preference: Preference, routes: seq<Route>, n: nat,
                            cache: map<Key, seq<NextHop>>, fib: Fib, cache': map<Key, seq<NextHop>>,
                            mid: Fib, fib': Fib)
  {
    && StopsAt(ifs, routes, n)
    && Assigned(preference, routes, n, cache, fib, cache', mid)
    && UpdatedWell(ifs, preference, routes[..n], cache, fib, cache', mid)
    && RouteFailed(ifs, Key(preference, routes[n].dest), routes[n].nextHops, cache', mid, fib')
  }

  lemma UpdatesStopped(ifs: Interfaces, preference: Preference, routes: seq<Route>,
                       states: seq<(map<Key, seq<NextHop>>, Fib)>, fib: Fib)
    requires StoppedAfter(ifs, preference, routes, states, fib)
    ensures Stopped(ifs, preference, routes, states[0].0, states[0].1, states[|states| - 1].0, fib)
  {
    var n := |states| - 1;
    UpdatesAssign(ifs, preference, routes, n, states);
    UpdatesOfPrefix(ifs, preference, routes, n, states);
    UpdatesWell(ifs, preference, routes[..n], n, states);
    assert StoppedAt(ifs, preference, routes, n, states[0].0, states[0].1, states[n].0, states[n].1, fib);
  }

  lemma UpdatesOfPrefix(ifs: Interfaces, preference: Preference, routes: seq<Route>, n: nat,
                        states: seq<(map<Key, seq<NextHop>>, Fib)>)
    requires Updates(ifs, preference, routes, n, states)
    ensures Updates(ifs, preference, routes[..n], n, states)
  {
    forall i | 0 <= i < n ensures UpdatesAt(ifs, preference, routes[..n][i], states[i], states[i + 1]) {
      assert UpdatesAt(ifs, preference, routes[i], states[i], states[i + 1]);
    }
  }

  /** The states that the updates of the first `n` routes go through. */
  ghost predicate Updates(ifs: Interfaces, preference: Preference, routes: seq<Route>, n: nat,
                          states: seq<(map<Key, seq<NextHop>>, Fib)>)
  {
    && |states| == n + 1 && n <= |routes|
    && forall i :: 0 <= i < n ==> UpdatesAt(ifs, preference, routes[i], states[i], states[i + 1])
  }

  ghost predicate UpdatesAt(ifs: Interfaces, preference: Preference, route: Route,
                            s: (map<Key, seq<NextHop>>, Fib), s': (map<Key, seq<NextHop>>, Fib))
  {
    RouteSet(ifs, Key(preference, route.dest), route.nextHops, s.0, s.1, s'.0, s'.1)
  }

  lemma UpdatesOneMore(ifs: Interfaces, preference: Preference, routes: seq<Route>, n: nat,
                       states: seq<(map<Key, seq<NextHop>>, Fib)>, cache: map<Key, seq<NextHop>>, fib: Fib)
    requires Updates(ifs, preference, routes, n, states) && n < |routes|
    requires RouteSet(ifs, Key(preference, routes[n].dest), routes[n].nextHops, states[n].0, states[n].1, cache, fib)
    ensures Updates(ifs, preference, routes, n + 1, states + [(cache, fib)])
  {
    var more := states + [(cache, fib)];
    forall i | 0 <= i < n + 1 ensures UpdatesAt(ifs, preference, routes[i], more[i], more[i + 1]) {
      assert i < n ==> UpdatesAt(ifs, preference, routes[i], states[i], states[i + 1]);
    }
  }

  lemma {:induction false} UpdatesAssign(ifs: Interfaces, preference: Preference, routes: seq<Route>, n: nat,
                                         states: seq<(map<Key, seq<NextHop>>, Fib)>)
    requires Updates(ifs, preference, routes, n, states)
    ensures Assigned(preference, routes, n, states[0].0, states[0].1, states[n].0, states[n].1)
  {
    if n > 0 {
      UpdatesAssign(ifs, preference, routes, n - 1, states[..n]);
      assert UpdatesAt(ifs, preference, routes[n - 1], states[n - 1], states[n]);
      AssignedOneMore(ifs, preference, routes, n - 1, states[0].0, states[0].1, states[n - 1].0, states[n - 1].1,
                      states[n].0, states[n].1);
    }
  }

  lemma UpdatesWell(ifs: Interfaces, preference: Preference, routes: seq<Route>, n: nat,
                    states: seq<(map<Key, seq<NextHop>>, Fib)>)
    requires Updates(ifs, preference, routes, n, states)
    ensures UpdatedWell(ifs, preference, routes, states[0].0, states[0].1, states[n].0, states[n].1)
  {
    if forall i :: 0 <= i < |routes| ==> Unambiguous(ifs, ToSet(routes[i].nextHops)) {
      UpdatesSync(ifs, preference, routes, n, states);
    }
    if forall i :: 0 <= i < |routes| ==> CanonicalHops(ifs, ToSet(routes[i].nextHops)) {
      UpdatesKeep(ifs, preference, routes, n, states);
    }
  }

  lemma {:induction false} UpdatesSync(ifs: Interfaces, preference: Preference, routes: seq<Route>, n: nat,
                                       states: seq<(map<Key, seq<NextHop>>, Fib)>)
    requires Updates(ifs, preference, routes, n, states)
    requires forall i :: 0 <= i < |routes| ==> Unambiguous(ifs, ToSet(routes[i].nextHops))
    ensures forall k :: VppClient.Synced(ifs, states[0].0, states[0].1, k) ==>
      VppClient.Synced(ifs, states[n].0, states[n].1, k)
  {
    if n > 0 {
      UpdatesSync(ifs, preference, routes, n - 1, states[..n]);
      assert UpdatesAt(ifs, preference, routes[n - 1], states[n - 1], states[n]);
      assert Unambiguous(ifs, ToSet(routes[n - 1].nextHops));
      SyncedStep(ifs, states[0].0, states[0].1, states[n - 1].0, states[n - 1].1, states[n].0, states[n].1,
                 Key(preference, routes[n - 1].dest));
    }
  }

  lemma {:induction false} UpdatesKeep(ifs: Interfaces, preference: Preference, routes: seq<Route>, n: nat,
                                       states: seq<(map<Key, seq<NextHop>>, Fib)>)
    requires Updates(ifs, preference, routes, n, states)
    requires forall i :: 0 <= i < |routes| ==> CanonicalHops(ifs, ToSet(routes[i].nextHops))
    ensures Keeps(ifs, preference, states[0].0, states[0].1, states[n].0, states[n].1)
  {
    if n > 0 {
      UpdatesKeep(ifs, preference, routes, n - 1, states[..n]);
      assert UpdatesAt(ifs, preference, routes[n - 1], states[n - 1], states[n]);
      assert CanonicalHops(ifs, ToSet(routes[n - 1].nextHops));
      KeepsUpdate(ifs, preference, states[n - 1].0, states[n - 1].1, states[n].0, states[n].1,
                  routes[n - 1].dest, routes[n - 1].nextHops);
      KeepsTwice(ifs, preference, states[0].0, states[0].1, states[n - 1].0, states[n - 1].1, states[n].0, states[n].1);
    }
  }

  /** One route was updated, and nothing else. */
  ghost predicate RouteSet(ifs: Interfaces, k: Key, hops: seq<NextHop>, cache: map<Key, seq<NextHop>>, fib: Fib,
                           cache': map<Key, seq<NextHop>>, fib': Fib)
  {
    var was := ToSet(HopsAt(cache, k));
    && HopsAt(cache', k) == hops
    && PathsAt(fib', k) == Programmed(ifs, PathsAt(fib, k), was, ToSet(hops), ToSet(hops) - was)
    && (VppClient.Synced(ifs, cache, fib, k) && Unambiguous(ifs, ToSet(hops)) ==>
          VppClient.Synced(ifs, cache', fib', k))
    && forall k' :: k' != k ==> HopsAt(cache', k') == HopsAt(cache, k') && PathsAt(fib', k') == PathsAt(fib, k')
  }

  lemma AssignedOneMore(ifs: Interfaces, preference: Preference, routes: seq<Route>, n: nat,
                        cache: map<Key, seq<NextHop>>, fib: Fib,
                        cache': map<Key, seq<NextHop>>, fib': Fib, cache'': map<Key, seq<NextHop>>, fib'': Fib)
    requires n < |routes| && Assigned(preference, routes, n, cache, fib, cache', fib')
    requires RouteSet(ifs, Key(preference, routes[n].dest), routes[n].nextHops, cache', fib', cache'', fib'')
    ensures Assigned(preference, routes, n + 1, cache, fib, cache'', fib'')
  {
    RequestedStep(routes, n);
  }

  /** Unambiguous routes keep what is in sync, and routes with canonical paths keep the paths that are
      not canonical. */
  ghost predicate UpdatedWell(ifs: Interfaces, preference: Preference, routes: seq<Route>,
                              cache: map<Key, seq<NextHop>>, fib: Fib,
                              cache': map<Key, seq<NextHop>>, fib': Fib)
  {
    && ((forall i :: 0 <= i < |routes| ==> Unambiguous(ifs, ToSet(routes[i].nextHops))) ==>
          forall k :: VppClient.Synced(ifs, cache, fib, k) ==> VppClient.Synced(ifs, cache', fib', k))
    && ((forall i :: 0 <= i < |routes| ==> CanonicalHops(ifs, ToSet(routes[i].nextHops))) ==>
          Keeps(ifs, preference, cache, fib, cache', fib'))
  }

  /** If the cached next hops of a preference encode to canonical paths, they still do, and all paths
      that are not canonical are still there. */
  ghost predicate Keeps(ifs: Interfaces, preference: Preference, cache: map<Key, seq<NextHop>>, fib: Fib,
                        cache': map<Key, seq<NextHop>>, fib': Fib)
  {
    CanonicalCache(ifs, preference, cache) ==>
      && CanonicalCache(ifs, preference, cache')
      && forall d :: Residue(ifs, PathsAt(fib, Key(preference, d))) <= PathsAt(fib', Key(preference, d))
  }

  ghost predicate CanonicalCache(ifs: Interfaces, preference: Preference, cache: map<Key, seq<NextHop>>) {
    forall d :: CanonicalHops(ifs, ToSet(HopsAt(cache, Key(preference, d))))
  }

  lemma KeepsTwice(ifs: Interfaces, preference: Preference, cache: map<Key, seq<NextHop>>, fib: Fib,
                   cache': map<Key, seq<NextHop>>, fib': Fib, cache'': map<Key, seq<NextHop>>, fib'': Fib)
    requires Keeps(ifs, preference, cache, fib, cache', fib') && Keeps(ifs, preference, cache', fib', cache'', fib'')
    ensures Keeps(ifs, preference, cache, fib, cache'', fib'')
  {
    if CanonicalCache(ifs, preference, cache) {
      forall d ensures Residue(ifs, PathsAt(fib, Key(preference, d))) <= PathsAt(fib'', Key(preference, d)) {
        var k := Key(preference, d);
        assert Residue(ifs, PathsAt(fib, k)) <= PathsAt(fib', k);
        assert Residue(ifs, PathsAt(fib, k)) <= Residue(ifs, PathsAt(fib', k));
        assert Residue(ifs, PathsAt(fib', k)) <= PathsAt(fib'', k);
      }
    }
  }

  lemma KeepsUpdate(ifs: Interfaces, preference: Preference, cache: map<Key, seq<NextHop>>, fib: Fib,
                    cache': map<Key, seq<NextHop>>, fib': Fib, dest: Prefix, hops: seq<NextHop>)
    requires CanonicalHops(ifs, ToSet(hops)) && HopsAt(cache', Key(preference, dest)) == hops
    requires forall k :: k != Key(preference, dest) ==>
      HopsAt(cache', k) == HopsAt(cache, k) && PathsAt(fib', k) == PathsAt(fib, k)
    requires
      var k := Key(preference, dest);
      var was := ToSet(HopsAt(cache, k));
      PathsAt(fib', k) == Programmed(ifs, PathsAt(fib, k), was, ToSet(hops), ToSet(hops) - was)
    ensures Keeps(ifs, preference, cache, fib, cache', fib')
  {
    var k := Key(preference, dest);
    if CanonicalCache(ifs, preference, cache) {
      var was := ToSet(HopsAt(cache, k));
      assert CanonicalHops(ifs, was);
      ResidueStays(ifs, PathsAt(fib, k), was, ToSet(hops), ToSet(hops) - was);
    }
  }

  lemma KeepsRemoved(ifs: Interfaces, preference: Preference, cache: map<Key, seq<NextHop>>, fib: Fib,
                     cache': map<Key, seq<NextHop>>, fib': Fib, gone: set<Prefix>)
    requires Removed(ifs, cache, fib, cache', fib', preference, gone)
    ensures Keeps(ifs, preference, cache, fib, cache', fib')
  {
    if CanonicalCache(ifs, preference, cache) {
      forall d ensures CanonicalHops(ifs, ToSet(HopsAt(cache', Key(preference, d))))
        && Residue(ifs, PathsAt(fib, Key(preference, d))) <= PathsAt(fib', Key(preference, d))
      {
        var k := Key(preference, d);
        assert RemovedAt(ifs, cache, fib, cache', fib', k, d in gone);
        assert CanonicalHops(ifs, ToSet(HopsAt(cache, k)));
      }
    }
  }

  lemma ProperIsCanonical(ifs: Interfaces, hops: set<NextHop>)
    requires ifs.Valid() && Proper(ifs, hops)
    ensures CanonicalHops(ifs, hops)
  {
    forall h | h in hops && Encode(ifs, h).Some? ensures Canonical(ifs, Encode(ifs, h).value) {
      EncodeIsCanonical(ifs, h);
    }
  }

  /** With proper requests, a route in sync has none of the paths that are not canonical, all of which
      a synchronisation keeps. */
  lemma ProperSync(ifs: Interfaces, preference: Preference, routes: seq<Route>, cache: map<Key, seq<NextHop>>, fib: Fib,
                   cache': map<Key, seq<NextHop>>, fib': Fib)
    requires ifs.Valid() && forall i :: 0 <= i < |routes| ==> Proper(ifs, ToSet(routes[i].nextHops))
    requires forall d :: ToSet(HopsAt(cache, Key(preference, d))) == DecodeAll(ifs, PathsAt(fib, Key(preference, d)))
    requires forall d :: HopsAt(cache', Key(preference, d)) == Requested(routes, d)
    requires (forall i :: 0 <= i < |routes| ==> CanonicalHops(ifs, ToSet(routes[i].nextHops))) ==>
      Keeps(ifs, preference, cache, fib, cache', fib')
    ensures forall d :: VppClient.Synced(ifs, cache', fib', Key(preference, d)) ==>
      Residue(ifs, PathsAt(fib, Key(preference, d))) == {}
  {
    forall i | 0 <= i < |routes| ensures CanonicalHops(ifs, ToSet(routes[i].nextHops)) {
      ProperIsCanonical(ifs, ToSet(routes[i].nextHops));
    }
    forall d ensures CanonicalHops(ifs, ToSet(HopsAt(cache, Key(preference, d)))) {
      DecodedAreCanonicalHops(ifs, PathsAt(fib, Key(preference, d)));
    }
    assert CanonicalCache(ifs, preference, cache);
    forall d | VppClient.Synced(ifs, cache', fib', Key(preference, d))
      ensures Residue(ifs, PathsAt(fib, Key(preference, d))) == {}
    {
      var k := Key(preference, d);
      assert CanonicalHops(ifs, ToSet(HopsAt(cache', k)));
      assert forall q :: q in Residue(ifs, PathsAt(fib, k)) ==>
        q in EncodeAll(ifs, ToSet(HopsAt(cache', k))) && Canonical(ifs, q);
    }
  }

  /** An update of one route that keeps it in sync keeps all in sync. */
  lemma SyncedStep(ifs: Interfaces, cache: map<Key, seq<NextHop>>, fib: Fib, cache': map<Key, seq<NextHop>>, fib': Fib,
                   cache'': map<Key, seq<NextHop>>, fib'': Fib, k: Key)
    requires forall k' :: VppClient.Synced(ifs, cache, fib, k') ==> VppClient.Synced(ifs, cache', fib', k')
    requires forall k' :: k' != k ==>
      HopsAt(cache'', k') == HopsAt(cache', k') && PathsAt(fib'', k') == PathsAt(fib', k')
    requires VppClient.Synced(ifs, cache', fib', k) ==> VppClient.Synced(ifs, cache'', fib'', k)
    ensures forall k' :: VppClient.Synced(ifs, cache, fib, k') ==> VppClient.Synced(ifs, cache'', fib'', k')
  {
  }

  lemma RemovedSynced(ifs: Interfaces, cache: map<Key, seq<NextHop>>, fib: Fib,
                      cache': map<Key, seq<NextHop>>, fib': Fib, preference: Preference, gone: set<Prefix>)
    requires Removed(ifs, cache, fib, cache', fib', preference, gone)
    ensures forall k :: VppClient.Synced(ifs, cache, fib, k) ==> VppClient.Synced(ifs, cache', fib', k)
  {
    forall k | VppClient.Synced(ifs, cache, fib, k) ensures VppClient.Synced(ifs, cache', fib', k) {
      assert RemovedAt(ifs, cache, fib, cache', fib', k, k.preference == preference && k.dest in gone);
    }
  }

  ghost predicate Decodable(ifs: Interfaces, paths: set<Path>) {
    forall q :: q in paths ==> Decode(ifs, q).Some?
  }

  ghost predicate DistinctDests(routes: seq<Route>) {
    forall i, j :: 0 <= i < j < |routes| ==> routes[i].dest != routes[j].dest
  }

  ghost predicate IsDumpOf(ifs: Interfaces, fib: Fib, preference: Preference, route: Route) {
    var paths := PathsAt(fib, Key(preference, route.dest));
    paths != {} && Decodable(ifs, paths) && route.nextHops != [] && ToSet(route.nextHops) == DecodeAll(ifs, paths)
  }

  /** The list holds each destination that has paths of this preference, once, with those paths. */
  ghost predicate IsDump(ifs: Interfaces, fib: Fib, preference: Preference, routes: seq<Route>) {
    && DistinctDests(routes)
    && (forall i :: 0 <= i < |routes| ==> IsDumpOf(ifs, fib, preference, routes[i]))
    && (forall d :: PathsAt(fib, Key(preference, d)) != {} ==> d in Dests(routes))
  }

  /** What a dump says of a prefix is what its paths stand for. */
  lemma DumpedHops(ifs: Interfaces, fib: Fib, preference: Preference, dump: seq<Route>, d: Prefix)
    requires IsDump(ifs, fib, preference, dump)
    ensures ToSet(Requested(dump, d)) == DecodeAll(ifs, PathsAt(fib, Key(preference, d)))
    ensures d !in Dests(dump) ==> Requested(dump, d) == []
  {
    RequestedSource(dump, d);
    if d in Dests(dump) {
      var j :| 0 <= j < |dump| && LastFor(dump, j, d) && dump[j].nextHops == Requested(dump, d);
      assert IsDumpOf(ifs, fib, preference, dump[j]);
    }
  }

  lemma DestsStep(routes: seq<Route>, route: Route)
    ensures Dests(routes + [route]) == Dests(routes) + {route.dest}
  {
    var more := routes + [route];
    assert forall i :: 0 <= i < |routes| ==> more[i] == routes[i];
    assert more[|routes|] == route;
  }

  /** Different paths stand for different next hops. */
  lemma DecodeNew(ifs: Interfaces, paths: set<Path>, q: Path)
    requires ifs.Valid() && Decode(ifs, q).Some? && q !in paths
    ensures Decode(ifs, q).value !in DecodeAll(ifs, paths)
  {
  }

  /** The next hops of a set of paths, in some order. */
  method DecodePaths(ifs: Interfaces, paths: set<Path>) returns (r: Option<seq<NextHop>>)
    ensures r.Some? <==> Decodable(ifs, paths)
    ensures r.Some? ==> ToSet(r.value) == DecodeAll(ifs, paths) && (r.value == [] <==> paths == {})
    ensures r.Some? && ifs.Valid() ==> NoDuplicates(r.value)
  {
    var todo, hops := paths, [];
    while todo != {}
      invariant todo <= paths && Decodable(ifs, paths - todo)
      invariant ToSet(hops) == DecodeAll(ifs, paths - todo)
      invariant hops == [] <==> paths == todo
      invariant ifs.Valid() ==> NoDuplicates(hops)
      decreases todo
    {
      var q :| q in todo;
      var hop := Decode(ifs, q);
      if hop == None {
        return None;
      }
      if ifs.Valid() {
        DecodeNew(ifs, paths - todo, q);
        assert forall i :: 0 <= i < |hops| ==> hops[i] in ToSet(hops);
      }
      assert paths - (todo - {q}) == (paths - todo) + {q};
      assert ToSet(hops + [hop.value]) == ToSet(hops) + {hop.value} by {
        assert forall i :: 0 <= i < |hops| ==> (hops + [hop.value])[i] == hops[i];
        assert (hops + [hop.value])[|hops|] == hop.value;
      }
      todo, hops := todo - {q}, hops + [hop.value];
    }
    assert paths - {} == paths;
    return Some(hops);
  }

  /** The requested next hops are those of the last route for the destination, or none. */
  lemma {:induction false} RequestedSource(routes: seq<Route>, d: Prefix)
    ensures d !in Dests(routes) ==> Requested(routes, d) == []
    ensures d in Dests(routes) ==>
      exists j :: 0 <= j < |routes| && LastFor(routes, j, d) && routes[j].nextHops == Requested(routes, d)
  {
    if routes != [] {
      var last := |routes| - 1;
      assert routes[..last + 1] == routes;
      RequestedStep(routes, last);
      if routes[last].dest != d {
        RequestedSource(routes[..last], d);
        if d in Dests(routes) {
          var front := routes[..last];
          var j :| 0 <= j < last && LastFor(front, j, d) && front[j].nextHops == Requested(front, d);
          assert LastFor(routes, j, d) && routes[j].nextHops == Requested(routes, d);
        }
      } else {
        assert LastFor(routes, last, d);
      }
    }
  }

  ghost predicate LastFor(routes: seq<Route>, j: nat, d: Prefix)
    requires j < |routes|
  {
    routes[j].dest == d && forall i :: j < i < |routes| ==> routes[i].dest != d
  }

  lemma DecodedEncodable(ifs: Interfaces, paths: set<Path>)
    requires ifs.Valid()
    ensures Encodable(ifs, DecodeAll(ifs, paths))
  {
  }

  lemma RequestedStep(routes: seq<Route>, i: nat)
    requires i < |routes|
    ensures Dests(routes[..i + 1]) == Dests(routes[..i]) + {routes[i].dest} <= Dests(routes)
    ensures Requested(routes[..i + 1], routes[i].dest) == routes[i].nextHops
    ensures forall d :: d != routes[i].dest ==> Requested(routes[..i + 1], d) == Requested(routes[..i], d)
  {
    var more := routes[..i + 1];
    assert more[..i] == routes[..i] && more[i] == routes[i];
    assert forall j :: 0 <= j < i ==> more[j] == routes[..i][j];
  }
}
