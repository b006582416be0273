/** The whole program: a topology is read, the search is built from it and run.  What comes out of it
    is stated in terms of the topology and of the replies alone. */
module HopByHopRun {
  import opened Wrappers
  import opened HopByHop

  /** The topology knows the address under this name: that of the last node that has it. */
  ghost predicate NameOfMac(topology: seq<TopologyNode>, m: Mac, name: Name) {
    exists t :: 0 <= t < |topology| && LastLists(topology, m, t) && topology[t].name == name
  }

  ghost predicate NamesMac(topology: seq<TopologyNode>, m: Mac) {
    exists name :: NameOfMac(topology, m, name) && name != ""
  }

  /** The machine with these interfaces is this node: its first interface with a named address tells. */
  ghost predicate Identified(topology: seq<TopologyNode>, links: seq<MacAndIface>, name: Name) {
    name != "" && exists i :: 0 <= i < |links| && IdentifiedBy(topology, links, name, i)
  }

  ghost predicate IdentifiedBy(topology: seq<TopologyNode>, links: seq<MacAndIface>, name: Name, i: nat)
    requires i < |links|
  {
    NameOfMac(topology, links[i].mac, name) && forall j :: 0 <= j < i ==> !NamesMac(topology, links[j].mac)
  }

  /** Probing `a` gets a reply from the machine that is `b`. */
  ghost predicate Sees(topology: seq<TopologyNode>, replies: Name -> seq<Reply>, a: Name, b: Name) {
    exists k :: 0 <= k < |replies(a)| && Identified(topology, replies(a)[k].links, b)
  }

  /** The first reply to a probe of `a` from the machine that is `b`. */
  ghost predicate FirstReply(topology: seq<TopologyNode>, replies: seq<Reply>, k: nat, b: Name)
    requires k < |replies|
  {
    Identified(topology, replies[k].links, b) && forall j :: 0 <= j < k ==> !Identified(topology, replies[j].links, b)
  }

  /** The entry for a hop: reached through all the nodes before it, at the address of its first reply to
      the node just before it, to which a link of the topology leads. */
  ghost predicate HopReached(topology: seq<TopologyNode>, links: seq<Link>, replies: Name -> seq<Reply>,
                             p: seq<Name>, i: nat, host: Host)
    requires 1 <= i < |p|
  {
    Joined(links, p[i - 1], p[i]) && Reached(topology, replies(p[i - 1]), p, i, host)
  }

  ghost predicate Reached(topology: seq<TopologyNode>, answers: seq<Reply>, p: seq<Name>, i: nat, host: Host)
    requires 1 <= i < |p|
  {
    exists k :: ReachedAt(topology, answers, p, i, host, k)
  }

  ghost predicate ReachedAt(topology: seq<TopologyNode>, answers: seq<Reply>, p: seq<Name>, i: nat, host: Host, k: int)
    requires 1 <= i < |p|
  {
    && 0 <= k < |answers| && FirstReply(topology, answers, k, p[i])
    && host == Jump(p[i], answers[k].ip, answers[k].iface, p[..i])
  }

  /** The path leads from the machine at the given address to the target, and the configuration reaches
      each of its nodes. */
  ghost predicate Connected(topology: seq<TopologyNode>, links: seq<Link>, target: Name, initialIp: string,
                            initialLinks: seq<MacAndIface>, replies: Name -> seq<Reply>,
                            p: seq<Name>, config: seq<Host>)
  {
    && p != [] && Identified(topology, initialLinks, p[0]) && p[|p| - 1] == target
    && |config| == |p| && config[0] == Initial(p[0], initialIp)
    && forall i :: 1 <= i < |p| ==> HopReached(topology, links, replies, p, i, config[i])
  }

  /** A chain of links from `a` to the target, seen from both ends; the target need not see any. */
  ghost predicate Chain(topology: seq<TopologyNode>, links: seq<Link>, replies: Name -> seq<Reply>, target: Name,
                        p: seq<Name>, a: Name)
  {
    && p != [] && p[0] == a && p[|p| - 1] == target
    && forall i :: 1 <= i < |p| ==> ChainHop(topology, links, replies, target, p[i - 1], p[i])
  }

  ghost predicate ChainHop(topology: seq<TopologyNode>, links: seq<Link>, replies: Name -> seq<Reply>, target: Name,
                           a: Name, b: Name)
  {
    && Joined(links, a, b)
    && (a != target ==> Sees(topology, replies, a, b))
    && (b != target ==> Sees(topology, replies, b, a))
  }

  // ----- names -----

  lemma NodeOfMac(topology: seq<TopologyNode>, m: Mac, name: Name)
    ensures NameOfMac(topology, m, name) <==> m in MacTable(topology) && MacTable(topology)[m] == name
  {
    MacTableIs(topology, m);
  }

  lemma KnownIsNamed(topology: seq<TopologyNode>, link: MacAndIface)
    ensures Known(MacTable(topology), link) <==> NamesMac(topology, link.mac)
  {
    if Known(MacTable(topology), link) {
      NodeOfMac(topology, link.mac, MacTable(topology)[link.mac]);
    }
    if name :| NameOfMac(topology, link.mac, name) && name != "" {
      NodeOfMac(topology, link.mac, name);
    }
  }

  /** The search's own way to name a machine is this one. */
  lemma NodeOfIs(topology: seq<TopologyNode>, links: seq<MacAndIface>, name: Name)
    ensures NodeOf(MacTable(topology), links) == Some(name) <==> Identified(topology, links, name)
  {
    var table := MacTable(topology);
    forall i | 0 <= i < |links| ensures Known(table, links[i]) <==> NamesMac(topology, links[i].mac) {
      KnownIsNamed(topology, links[i]);
    }
    forall i | 0 <= i < |links|
      ensures NameOfMac(topology, links[i].mac, name) <==> links[i].mac in table && table[links[i].mac] == name
    {
      NodeOfMac(topology, links[i].mac, name);
    }
    var found := NodeOf(table, links);
    if found == Some(name) {
      var i :| 0 <= i < |links| && FirstKnown(table, links, i) && table[links[i].mac] == name;
      assert IdentifiedBy(topology, links, name, i);
    }
    if Identified(topology, links, name) {
      var i :| 0 <= i < |links| && IdentifiedBy(topology, links, name, i);
      assert FirstKnown(table, links, i);
      var j :| 0 <= j < |links| && FirstKnown(table, links, j) && table[links[j].mac] == found.value;
      assert i == j;
    }
  }

  lemma SeenIsSees(topology: seq<TopologyNode>, replies: Name -> seq<Reply>, a: Name, b: Name)
    ensures b in SeenIn(MacTable(topology), replies(a)) <==> Sees(topology, replies, a, b)
  {
    var answers := replies(a);
    forall k | 0 <= k < |answers|
      ensures NodeOf(MacTable(topology), answers[k].links) == Some(b) <==> Identified(topology, answers[k].links, b)
    {
      NodeOfIs(topology, answers[k].links, b);
    }
  }

  // ----- what was found -----

  lemma FoundHop(h: HBH, topology: seq<TopologyNode>, links: seq<Link>, p: seq<Name>, i: nat, host: Host)
    requires h.mac2node == MacTable(topology) && h.topologyLinks == LinkEdges(links)
    requires 1 <= i < |p| && Hop(p, i, h.topologyLinks) && h.ReachesHop(host, p, i)
    ensures HopReached(topology, links, h.replies, p, i, host)
  {
    LinkedIsJoined(links);
    var answers := h.replies(p[i - 1]);
    var k :| 0 <= k < |answers| && FirstFrom(h.mac2node, answers, k, p[i]) &&
      host.ip == answers[k].ip && host.iface == answers[k].iface;
    forall j | 0 <= j <= k
      ensures NodeOf(h.mac2node, answers[j].links) == Some(p[i]) <==> Identified(topology, answers[j].links, p[i])
    {
      NodeOfIs(topology, answers[j].links, p[i]);
    }
    assert ReachedAt(topology, answers, p, i, host, k);
  }

  lemma FoundConnects(h: HBH, topology: seq<TopologyNode>, links: seq<Link>, initial: Name, p: seq<Name>)
    requires h.mac2node == MacTable(topology) && h.topologyLinks == LinkEdges(links)
    requires NodeOf(h.mac2node, h.initialLinks) == Some(initial)
    requires IsPath(p, initial, h.target, LinkEdges(links)) && h.FoundRight(p)
    ensures Connected(topology, links, h.target, h.initialIp, h.initialLinks, h.replies, p, h.sshConfig)
  {
    NodeOfIs(topology, h.initialLinks, initial);
    assert h.sshConfig[0] == h.HostAt(h.nodes, p, 0);
    forall i | 1 <= i < |p| ensures HopReached(topology, links, h.replies, p, i, h.sshConfig[i]) {
      FoundHop(h, topology, links, p, i, h.sshConfig[i]);
    }
  }

  lemma ChainIsUsable(h: HBH, topology: seq<TopologyNode>, links: seq<Link>, p: seq<Name>, a: Name)
    requires h.mac2node == MacTable(topology) && h.topologyLinks == LinkEdges(links)
    requires Chain(topology, links, h.replies, h.target, p, a)
    ensures h.UsablePath(p, a, h.target)
  {
    LinkedIsJoined(links);
    forall i | 1 <= i < |p| ensures Hop(p, i, h.topologyLinks) && h.UsableHop(p, i) {
      assert ChainHop(topology, links, h.replies, h.target, p[i - 1], p[i]);
      SeenIsSees(topology, h.replies, p[i - 1], p[i]);
      SeenIsSees(topology, h.replies, p[i], p[i - 1]);
    }
  }

  /** What the program promises: it ends in one of these ways, knows the first machine if it can be
      known, connects to the target with what it finds, and finds a path whenever a chain of links
      seen from both ends leads there. */
  ghost predicate Answered(topology: seq<TopologyNode>, links: seq<Link>, target: Name, initialIp: string,
                           initialLinks: seq<MacAndIface>, replies: Name -> seq<Reply>,
                           outcome: Outcome, config: seq<Host>)
  {
    match outcome
    case InitialUnknown => forall name :: !Identified(topology, initialLinks, name)
    case Found(p) => Connected(topology, links, target, initialIp, initialLinks, replies, p, config)
    case NoPath =>
      && (exists a :: Identified(topology, initialLinks, a))
      && forall a, p :: Identified(topology, initialLinks, a) ==> !Chain(topology, links, replies, target, p, a)
    case _ => false
  }

  /** The whole program, from a topology to a configuration; fails exactly when the target is not listed. */
  method FindRoute(topology: seq<TopologyNode>, links: seq<Link>, target: Name, initialIp: string,
                   initialLinks: seq<MacAndIface>, replies: Name -> seq<Reply>, pathFinder: PathFinder)
    returns (outcome: Option<Outcome>, config: seq<Host>)
    requires FindsPaths(pathFinder, NodeNames(topology) + LinkEnds(links))
    ensures outcome == None <==> forall i :: 0 <= i < |topology| ==> topology[i].name != target
    ensures outcome.Some? ==>
      Answered(topology, links, target, initialIp, initialLinks, replies, outcome.value, config)
  {
    var hbh := HBH.Build(topology, links, target, initialIp, initialLinks, replies, pathFinder);
    if hbh == None {
      return None, [];
    }
    var found := Search(hbh.value, topology, links);
    return Some(found), hbh.value.sshConfig;
  }

  method Search(h: HBH, ghost topology: seq<TopologyNode>, ghost links: seq<Link>) returns (outcome: Outcome)
    requires h.Valid() && h.mac2node == MacTable(topology) && h.network == h.topologyLinks == LinkEdges(links)
    requires h.probed == []
    modifies h`network, h`nodes, h`sshConfig, h`probed, h`sessions
    ensures Answered(topology, links, h.target, h.initialIp, h.initialLinks, h.replies, outcome, h.sshConfig)
  {
    var rounds;
    ghost var tried;
    outcome, rounds, tried := h.FindPaths();
    Outcomes(h, topology, links, outcome);
  }

  lemma Outcomes(h: HBH, topology: seq<TopologyNode>, links: seq<Link>, found: Outcome)
    requires h.mac2node == MacTable(topology) && h.topologyLinks == LinkEdges(links)
    requires found.InitialUnknown? || found.NoPath? || found.Found?
    requires found.InitialUnknown? <==> NodeOf(h.mac2node, h.initialLinks) == None
    requires !found.InitialUnknown? ==>
      h.SearchCorrect(NodeOf(h.mac2node, h.initialLinks).value, found, LinkEdges(links))
    requires (exists initial, p :: NodeOf(h.mac2node, h.initialLinks) == Some(initial) &&
                                   h.UsablePath(p, initial, h.target)) ==> found.Found?
    ensures Answered(topology, links, h.target, h.initialIp, h.initialLinks, h.replies, found, h.sshConfig)
  {
    forall name
      ensures NodeOf(h.mac2node, h.initialLinks) == Some(name) <==> Identified(topology, h.initialLinks, name)
    {
      NodeOfIs(topology, h.initialLinks, name);
    }
    if found.Found? {
      FoundConnects(h, topology, links, NodeOf(h.mac2node, h.initialLinks).value, found.path);
    }
    if found.NoPath? {
      assert Identified(topology, h.initialLinks, NodeOf(h.mac2node, h.initialLinks).value);
      forall a, p | Identified(topology, h.initialLinks, a)
        ensures !Chain(topology, links, h.replies, h.target, p, a)
      {
        if Chain(topology, links, h.replies, h.target, p, a) {
          ChainIsUsable(h, topology, links, p, a);
        }
      }
    }
  }
}
