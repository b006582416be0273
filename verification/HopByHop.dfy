/** Hop-by-hop SSH: search for a path of live links from an initial node to a target.

    The search keeps a graph of links believed to be up.  Each round takes a path of that graph,
    probes the nodes along it, and deletes the links that a probed node does not see.

    Probing a node and finding a path in the graph are foreign code, so both are parameters:
    `replies` says what probing a node yields, and `pathFinder` stands for the graph library. */
module HopByHop {
  import opened Wrappers

  type Name = string
  type Mac = string

  /** An undirected link, as the set of its end points; a link of a node to itself is a singleton. */
  type Edge = set<Name>

  datatype Neigh = Neigh(ip: string, iface: string, name: Name)
  datatype Node = Node(macs: set<Mac>, ifaces: set<string>, neighs: Option<seq<Neigh>>)

  /** One interface of a machine; `iface` is absent for an interface that is down. */
  datatype MacAndIface = MacAndIface(mac: Mac, iface: Option<string>)

  /** One machine that answered a node's all-neighbours ping, with the interfaces it then listed. */
  datatype Reply = Reply(ip: string, iface: string, links: seq<MacAndIface>)

  datatype TopologyNode = TopologyNode(name: Name, wlanMacs: Option<seq<Mac>>, mac: Mac)
  datatype Link = Link(a: Name, z: Name)

  /** One entry of the generated ssh configuration. */
  datatype Host =
    | Initial(name: Name, ip: string)
    | Jump(name: Name, ip: string, iface: string, via: seq<Name>)
    | Candidate(index: nat, ip: string, iface: string, via: seq<Name>)

  /** Where an ssh session leads: to the machine the user gave the address of, to a node, or to the
      machine with this number among those that answered a node's ping. */
  datatype Remote =
    | First(ip: string)
    | AtNode(name: Name)
    | AtNeighbor(name: Name, index: nat)

  /** An ssh session, with the configuration that was in effect when it was opened. */
  datatype Session = Session(config: seq<Host>, remote: Remote)

  /** How a search ends: the last two are the program's own "aborting" exits. */
  datatype Outcome =
    | Found(path: seq<Name>)
    | NoPath
    | InitialUnknown
    | EdgesNotDecreasing
    | AmbiguousNeighbor

  type PathFinder = (nat, set<Edge>, Name, Name) -> Option<seq<Name>>

  // ----- graphs -----

  predicate Linked(edges: set<Edge>, a: Name, b: Name) {
    {a, b} in edges
  }

  ghost predicate Hop(p: seq<Name>, i: nat, edges: set<Edge>)
    requires 1 <= i < |p|
  {
    Linked(edges, p[i - 1], p[i])
  }

  ghost predicate IsPath(p: seq<Name>, a: Name, b: Name, edges: set<Edge>) {
    && p != []
    && p[0] == a
    && p[|p| - 1] == b
    && forall i :: 1 <= i < |p| ==> Hop(p, i, edges)
  }

  /** What is used of the graph library: on two known vertices it returns a path of the graph that
      visits no node twice, and reports "no path" only when there is none.  It may answer differently
      from round to round. */
  ghost predicate FindsPaths(finder: PathFinder, vertices: set<Name>) {
    forall round: nat, edges: set<Edge>, a: Name, b: Name :: a in vertices && b in vertices ==>
      FindsPath(finder, round, edges, a, b)
  }

  ghost predicate FindsPath(finder: PathFinder, round: nat, edges: set<Edge>, a: Name, b: Name) {
    match finder(round, edges, a, b)
    case Some(p) => IsPath(p, a, b, edges) && NoDuplicates(p)
    case None => forall p :: !IsPath(p, a, b, edges)
  }

  lemma LinkedIsSymmetric(edges: set<Edge>)
    ensures forall a, b :: Linked(edges, a, b) ==> Linked(edges, b, a)
  {
    forall a, b | Linked(edges, a, b) ensures Linked(edges, b, a) {
      assert {a, b} == {b, a};
    }
  }

  /** The links from `n` to each of `ms`. */
  ghost function Star(n: Name, ms: set<Name>): set<Edge> {
    set m | m in ms :: {n, m}
  }

  /** Deleting a star deletes the links from its centre to its points, in either direction, only. */
  lemma RemoveStar(edges: set<Edge>, n: Name, ms: set<Name>)
    ensures forall a, b :: Linked(edges - Star(n, ms), a, b) <==>
      Linked(edges, a, b) && !(a == n && b in ms) && !(b == n && a in ms)
  {
    forall a, b ensures {a, b} in Star(n, ms) <==> (a == n && b in ms) || (b == n && a in ms) {
      assert {a, b} == {b, a};
      if m :| m in ms && {n, m} == {a, b} {
        assert n in {a, b} && m in {a, b} && a in {n, m} && b in {n, m};
      }
    }
  }

  /** The links left when those of `n` to nodes it does not see are deleted, and no others. */
  ghost predicate AfterProbe(before: set<Edge>, after: set<Edge>, n: Name, seen: set<Name>) {
    && after <= before
    && forall a, b :: Linked(after, a, b) <==>
      Linked(before, a, b) && (a == n ==> b in seen) && (b == n ==> a in seen)
  }

  // ----- names seen by a node -----

  /** An interface that the topology knows under a usable name. */
  predicate Known(mac2node: map<Mac, Name>, link: MacAndIface) {
    link.mac in mac2node && mac2node[link.mac] != ""
  }

  /** The topology name of a machine: that of its first interface known to the topology. */
  function NodeOf(mac2node: map<Mac, Name>, links: seq<MacAndIface>): (r: Option<Name>)
    ensures r.Some? ==> r.value in mac2node.Values && r.value != ""
    ensures r == None <==> forall i :: 0 <= i < |links| ==> !Known(mac2node, links[i])
    ensures r.Some? ==>
      exists i :: 0 <= i < |links| && FirstKnown(mac2node, links, i) && mac2node[links[i].mac] == r.value
  {
    if links == [] then None
    else if Known(mac2node, links[0]) then
      assert FirstKnown(mac2node, links, 0);
      Some(mac2node[links[0].mac])
    else
      var r := NodeOf(mac2node, links[1..]);
      assert forall i :: 0 <= i < |links| - 1 && FirstKnown(mac2node, links[1..], i) ==>
        FirstKnown(mac2node, links, i + 1);
      r
  }

  ghost predicate FirstKnown(mac2node: map<Mac, Name>, links: seq<MacAndIface>, i: nat)
    requires i < |links|
  {
    Known(mac2node, links[i]) && forall j :: 0 <= j < i ==> !Known(mac2node, links[j])
  }

  /** The `k`-th reply is the first from the machine with this name. */
  ghost predicate FirstFrom(mac2node: map<Mac, Name>, replies: seq<Reply>, k: nat, name: Name)
    requires k < |replies|
  {
    && NodeOf(mac2node, replies[k].links) == Some(name)
    && forall j :: 0 <= j < k ==> NodeOf(mac2node, replies[j].links) != Some(name)
  }

  /** The neighbour entry has the address at which its machine replied first. */
  ghost predicate FromReply(mac2node: map<Mac, Name>, replies: seq<Reply>, n: Neigh) {
    exists k ::
      && 0 <= k < |replies| && FirstFrom(mac2node, replies, k, n.name)
      && n.ip == replies[k].ip && n.iface == replies[k].iface
  }

  ghost predicate AllFromReplies(mac2node: map<Mac, Name>, replies: seq<Reply>, ns: seq<Neigh>) {
    forall i :: 0 <= i < |ns| ==> FromReply(mac2node, replies, ns[i])
  }

  /** The record of a machine has the interfaces of its first reply. */
  ghost predicate NodeFromReply(mac2node: map<Mac, Name>, replies: seq<Reply>, name: Name, node: Node) {
    exists k :: 0 <= k < |replies| && FirstFrom(mac2node, replies, k, name) && node == NewNode(replies[k].links)
  }

  ghost predicate NewFromReplies(mac2node: map<Mac, Name>, replies: seq<Reply>, known: set<Name>,
                                 nodes: map<Name, Node>)
  {
    forall n :: n in nodes && n !in known ==> NodeFromReply(mac2node, replies, n, nodes[n])
  }

  function SeenIn(mac2node: map<Mac, Name>, replies: seq<Reply>): set<Name> {
    set i | 0 <= i < |replies| && NodeOf(mac2node, replies[i].links).Some? ::
      NodeOf(mac2node, replies[i].links).value
  }

  function Names(ns: seq<Neigh>): set<Name> {
    set i | 0 <= i < |ns| :: ns[i].name
  }

  ghost predicate DistinctNames(ns: seq<Neigh>) {
    forall i, j :: 0 <= i < j < |ns| ==> ns[i].name != ns[j].name
  }

  function Named(ns: seq<Neigh>, name: Name): (r: seq<Neigh>)
    ensures forall n :: n in r ==> n in ns && n.name == name
  {
    if ns == [] then []
    else (if ns[0].name == name then [ns[0]] else []) + Named(ns[1..], name)
  }

  /** A list with one entry per name holds exactly one entry for each of its names. */
  lemma {:induction false} NamedIsUnique(ns: seq<Neigh>, name: Name)
    requires DistinctNames(ns)
    ensures |Named(ns, name)| == if name in Names(ns) then 1 else 0
  {
    if ns != [] {
      var rest := ns[1..];
      assert forall i :: 0 <= i < |rest| ==> rest[i] == ns[i + 1];
      assert Names(ns) == {ns[0].name} + Names(rest);
      NamedIsUnique(rest, name);
    }
  }

  /** A walk stays a walk when only links off it are removed. */
  lemma PathMonotone(p: seq<Name>, a: Name, b: Name, edges: set<Edge>, more: set<Edge>)
    requires IsPath(p, a, b, edges) && edges <= more
    ensures IsPath(p, a, b, more)
  {
    forall i | 1 <= i < |p| ensures Hop(p, i, more) {
      assert Hop(p, i, edges);
    }
  }

  // ----- topologies -----

  function Macs(node: TopologyNode): seq<Mac> {
    if node.wlanMacs.Some? then node.wlanMacs.value else [node.mac]
  }

  function NodeNames(topology: seq<TopologyNode>): set<Name> {
    set i | 0 <= i < |topology| :: topology[i].name
  }

  function LinkEnds(links: seq<Link>): set<Name> {
    (set i | 0 <= i < |links| :: links[i].a) + (set i | 0 <= i < |links| :: links[i].z)
  }

  function LinkEdges(links: seq<Link>): set<Edge> {
    set i | 0 <= i < |links| :: {links[i].a, links[i].z}
  }

  /** Some link of the topology joins the two nodes, in one direction or the other. */
  ghost predicate Joined(links: seq<Link>, a: Name, b: Name) {
    exists i :: 0 <= i < |links| && (links[i] == Link(a, b) || links[i] == Link(b, a))
  }

  lemma LinkedIsJoined(links: seq<Link>)
    ensures forall a, b :: Linked(LinkEdges(links), a, b) <==> Joined(links, a, b)
  {
    forall a, b ensures Linked(LinkEdges(links), a, b) <==> Joined(links, a, b) {
      if Linked(LinkEdges(links), a, b) {
        var i :| 0 <= i < |links| && {links[i].a, links[i].z} == {a, b};
        assert a in {links[i].a, links[i].z} && b in {links[i].a, links[i].z};
        assert links[i].a in {a, b} && links[i].z in {a, b};
        assert links[i] == Link(a, b) || links[i] == Link(b, a);
      }
      if i :| 0 <= i < |links| && (links[i] == Link(a, b) || links[i] == Link(b, a)) {
        assert {links[i].a, links[i].z} == {a, b};
      }
    }
  }

  /** Each address of the topology, mapped to the last node that lists it. */
  ghost function MacTable(topology: seq<TopologyNode>): (r: map<Mac, Name>)
    ensures r.Values <= NodeNames(topology)
  {
    if topology == [] then map[]
    else
      var last := |topology| - 1;
      assert NodeNames(topology) == NodeNames(topology[..last]) + {topology[last].name};
      MacTable(topology[..last]) + ListedMacs(Macs(topology[last]), topology[last].name)
  }

  /** The node has this address: one of its radio addresses if it states any, even none of them, and its
      own address otherwise. */
  ghost predicate Lists(node: TopologyNode, m: Mac) {
    match node.wlanMacs
    case Some(macs) => m in macs
    case None => m == node.mac
  }

  ghost predicate LastLists(topology: seq<TopologyNode>, m: Mac, i: nat)
    requires i < |topology|
  {
    Lists(topology[i], m) && forall j :: i < j < |topology| ==> !Lists(topology[j], m)
  }

  /** An address is known exactly if some node lists it, under the name of the last that does. */
  lemma {:induction false} MacTableIs(topology: seq<TopologyNode>, m: Mac)
    ensures m in MacTable(topology) <==> exists i :: 0 <= i < |topology| && LastLists(topology, m, i)
    ensures forall i :: 0 <= i < |topology| && LastLists(topology, m, i) ==>
      m in MacTable(topology) && MacTable(topology)[m] == topology[i].name
  {
    if topology != [] {
      var last := |topology| - 1;
      MacTableIs(topology[..last], m);
      MacTableStep(topology, m);
      forall i | 0 <= i < |topology| && LastLists(topology, m, i)
        ensures m in MacTable(topology) && MacTable(topology)[m] == topology[i].name
      {
        LastListsEarlier(topology, m, i);
      }
      if m in MacTable(topology) {
        if m in Macs(topology[last]) {
          assert LastLists(topology, m, last);
        } else {
          var i :| 0 <= i < last && LastLists(topology[..last], m, i);
          LastListsEarlier(topology, m, i);
        }
      }
    }
  }

  lemma MacTableStep(topology: seq<TopologyNode>, m: Mac)
    requires topology != []
    ensures
      var last := |topology| - 1;
      var earlier, r := MacTable(topology[..last]), MacTable(topology);
      && (m in r <==> m in Macs(topology[last]) || m in earlier)
      && (m in r ==> r[m] == if m in Macs(topology[last]) then topology[last].name else earlier[m])
  {
  }

  lemma LastListsEarlier(topology: seq<TopologyNode>, m: Mac, i: nat)
    requires i < |topology|
    ensures
      var last := |topology| - 1;
      LastLists(topology, m, i) <==>
      if i == last then m in Macs(topology[last]) else LastLists(topology[..last], m, i) && m !in Macs(topology[last])
  {
    var last := |topology| - 1;
    assert forall j :: 0 <= j < last ==> topology[..last][j] == topology[j];
  }

  ghost function ListedMacs(macs: seq<Mac>, name: Name): (r: map<Mac, Name>)
    ensures r.Values <= {name}
  {
    map m | m in macs :: name
  }

  method AddMacs(table: map<Mac, Name>, macs: seq<Mac>, name: Name) returns (r: map<Mac, Name>)
    ensures r == table + ListedMacs(macs, name)
  {
    r := table;
    for j := 0 to |macs|
      invariant r == table + ListedMacs(macs[..j], name)
    {
      r := r[macs[j] := name];
      assert macs[..j + 1] == macs[..j] + [macs[j]];
    }
    assert macs[..|macs|] == macs;
  }

  method BuildMacTable(topology: seq<TopologyNode>) returns (table: map<Mac, Name>)
    ensures table == MacTable(topology)
  {
    table := map[];
    for i := 0 to |topology|
      invariant table == MacTable(topology[..i])
    {
      table := AddMacs(table, Macs(topology[i]), topology[i].name);
      assert topology[..i + 1][..i] == topology[..i];
    }
    assert topology[..|topology|] == topology;
  }

  class HBH {
    const mac2node: map<Mac, Name>
    const vertices: set<Name>
    const topologyLinks: set<Edge>
    const target: Name
    const initialIp: string
    const initialLinks: seq<MacAndIface>
    const replies: Name -> seq<Reply>
    const pathFinder: PathFinder

    /** The links still believed to be up. */
    var network: set<Edge>
    var nodes: map<Name, Node>
    var sshConfig: seq<Host>
    /** The nodes probed so far, in order. */
    ghost var probed: seq<Name>
    /** All sessions opened so far, in order. */
    ghost var sessions: seq<Session>

    /** The nodes that probing `n` discovers. */
    ghost function Seen(n: Name): set<Name> {
      SeenIn(mac2node, replies(n))
    }

    /** The link is seen from both ends; the target need not see it, since it is never probed. */
    ghost predicate Usable(a: Name, b: Name) {
      (a != target ==> b in Seen(a)) && (b != target ==> a in Seen(b))
    }

    ghost predicate UsableHop(p: seq<Name>, i: nat)
      requires 1 <= i < |p|
    {
      Usable(p[i - 1], p[i])
    }

    /** Usable links of the topology join `a` to `b`. */
    ghost predicate UsablePath(p: seq<Name>, a: Name, b: Name) {
      && IsPath(p, a, b, topologyLinks)
      && forall i :: 1 <= i < |p| ==> UsableHop(p, i)
    }

    /** One end of the link was probed, and did not see the other. */
    ghost predicate Cut(a: Name, b: Name, probed: seq<Name>) {
      (a in probed && b !in Seen(a)) || (b in probed && a !in Seen(b))
    }

    /** Every hop of the path was discovered by probing the node before it. */
    ghost predicate Verified(nodes: map<Name, Node>, p: seq<Name>)
    {
      forall i :: 1 <= i < |p| ==> VerifiedHop(nodes, p, i)
    }

    ghost predicate VerifiedHop(nodes: map<Name, Node>, p: seq<Name>, i: nat)
      requires 1 <= i < |p|
    {
      Probed(nodes, p[i - 1]) && p[i] in Names(nodes[p[i - 1]].neighs.value)
    }

    predicate Probed(nodes: map<Name, Node>, n: Name)
    {
      n in nodes && nodes[n].neighs.Some?
    }

    /** The neighbours recorded for a probed node are those it saw, once each; and all links the
        graph still has at that node lead to them. */
    ghost predicate ProbedConsistent(nodes: map<Name, Node>, network: set<Edge>, n: Name)
      requires n in nodes && nodes[n].neighs.Some?
    {
      var ns := nodes[n].neighs.value;
      && DistinctNames(ns)
      && Names(ns) == Seen(n) <= nodes.Keys
      && AllFromReplies(mac2node, replies(n), ns)
      && forall m :: Linked(network, n, m) ==> m in Seen(n)
    }

    /** All probed nodes are consistent, and exactly the links that a probed end does not see have been
        deleted. */
    ghost predicate Sound(nodes: map<Name, Node>, network: set<Edge>, probed: seq<Name>) {
      && network <= topologyLinks
      && (forall n :: n in nodes && nodes[n].neighs.Some? ==> ProbedConsistent(nodes, network, n))
      && (forall a, b :: Linked(network, a, b) <==> Linked(topologyLinks, a, b) && !Cut(a, b, probed))
    }

    ghost predicate Valid()
      reads this`nodes, this`network, this`probed, this`sessions
    {
      && mac2node.Values <= vertices
      && target in vertices
      && FindsPaths(pathFinder, vertices)
      && Sound(nodes, network, probed)
      && SessionsRight(sessions, probed)
    }

    // ----- sessions -----

    /** The configuration leads along the path to its last node. */
    ghost predicate Leads(config: seq<Host>, path: seq<Name>) {
      && path != [] && |path| <= |config| && config[0] == Initial(path[0], initialIp)
      && forall i :: 1 <= i < |path| ==> ReachesHop(config[i], path, i)
    }

    ghost predicate LeadsTo(config: seq<Host>, path: seq<Name>, name: Name) {
      Leads(config, path) && path[|path| - 1] == name
    }

    /** It also has an entry for this neighbour, at the address at which it answered the ping. */
    ghost predicate LeadsBeyond(config: seq<Host>, path: seq<Name>, name: Name, index: nat) {
      && LeadsTo(config, path, name) && 1 <= index <= |replies(name)| && |path| + index - 1 < |config|
      && var reply := replies(name)[index - 1];
         config[|path| + index - 1] == Candidate(index, reply.ip, reply.iface, path)
    }

    /** The session was opened under a configuration that leads where it should. */
    ghost predicate Reached(s: Session) {
      match s.remote
      case First(ip) => ip == initialIp && s.config == []
      case AtNode(name) => exists path :: LeadsTo(s.config, path, name)
      case AtNeighbor(name, index) => exists path :: LeadsBeyond(s.config, path, name, index)
    }

    /** The sessions of the probes, in order. */
    ghost function Visits(sessions: seq<Session>): seq<Remote> {
      if sessions == [] then []
      else
        var last := sessions[|sessions| - 1].remote;
        Visits(sessions[..|sessions| - 1]) + if last.First? then [] else [last]
    }

    ghost function NeighborVisits(name: Name, n: nat): (r: seq<Remote>)
      ensures |r| == n
    {
      seq(n, i requires 0 <= i < n => AtNeighbor(name, i + 1))
    }

    /** To probe a node, it is visited, and then each machine that answers its ping, once. */
    ghost function AllVisits(probed: seq<Name>): seq<Remote> {
      if probed == [] then []
      else
        var last := probed[|probed| - 1];
        AllVisits(probed[..|probed| - 1]) + [AtNode(last)] + NeighborVisits(last, |replies(last)|)
    }

    ghost predicate AllReached(sessions: seq<Session>) {
      forall i :: 0 <= i < |sessions| ==> Reached(sessions[i])
    }

    /** Every session was opened under a right configuration, and the visits are those of the probes. */
    ghost predicate SessionsRight(sessions: seq<Session>, probed: seq<Name>) {
      AllReached(sessions) && Visits(sessions) == AllVisits(probed)
    }

    lemma OneMoreSession(sessions: seq<Session>, s: Session)
      requires AllReached(sessions) && Reached(s)
      ensures AllReached(sessions + [s])
      ensures Visits(sessions + [s]) == Visits(sessions) + if s.remote.First? then [] else [s.remote]
    {
      assert (sessions + [s])[..|sessions|] == sessions;
    }

    lemma OneMoreProbe(probed: seq<Name>, name: Name)
      ensures AllVisits(probed + [name]) ==
        AllVisits(probed) + [AtNode(name)] + NeighborVisits(name, |replies(name)|)
    {
      assert (probed + [name])[..|probed|] == probed;
    }

    /** Asks the machine at the user's address for its interfaces. */
    method AskFirst() returns (links: seq<MacAndIface>)
      requires sshConfig == [] && AllReached(sessions)
      modifies this`sessions
      ensures links == initialLinks
      ensures sessions == old(sessions) + [Session([], First(initialIp))]
      ensures AllReached(sessions) && Visits(sessions) == Visits(old(sessions))
    {
      OneMoreSession(sessions, Session(sshConfig, First(initialIp)));
      sessions := sessions + [Session(sshConfig, First(initialIp))];
      return initialLinks;
    }

    /** Pings all neighbours of a node from that node. */
    method FindNeighborIps(name: Name, ghost path: seq<Name>) returns (ips: seq<(string, string)>)
      requires LeadsTo(sshConfig, path, name) && AllReached(sessions)
      modifies this`sessions
      ensures ips == seq(|replies(name)|, i requires 0 <= i < |replies(name)| =>
        (replies(name)[i].ip, replies(name)[i].iface))
      ensures old(sessions) <= sessions
      ensures AllReached(sessions) && Visits(sessions) == Visits(old(sessions)) + [AtNode(name)]
    {
      var answers := replies(name);
      OneMoreSession(sessions, Session(sshConfig, AtNode(name)));
      sessions := sessions + [Session(sshConfig, AtNode(name))];
      ips := seq(|answers|, i requires 0 <= i < |answers| => (answers[i].ip, answers[i].iface));
    }

    /** Asks each machine that answered for its interfaces. */
    method AskNeighbors(name: Name, ips: seq<(string, string)>, ghost path: seq<Name>) returns (answers: seq<Reply>)
      requires |ips| == |replies(name)| && AllReached(sessions)
      requires forall i :: 0 <= i < |ips| ==> ips[i] == (replies(name)[i].ip, replies(name)[i].iface)
      requires forall index :: 1 <= index <= |ips| ==> LeadsBeyond(sshConfig, path, name, index)
      modifies this`sessions
      ensures answers == replies(name) && old(sessions) <= sessions && AllReached(sessions)
      ensures Visits(sessions) == Visits(old(sessions)) + NeighborVisits(name, |ips|)
    {
      answers := [];
      for i := 0 to |ips|
        invariant answers == replies(name)[..i] && old(sessions) <= sessions && AllReached(sessions)
        invariant Visits(sessions) == Visits(old(sessions)) + NeighborVisits(name, i)
      {
        var links := GetMacs(name, i + 1, path);
        assert NeighborVisits(name, i + 1) == NeighborVisits(name, i) + [AtNeighbor(name, i + 1)];
        answers := answers + [Reply(ips[i].0, ips[i].1, links)];
      }
    }

    method GetMacs(name: Name, index: nat, ghost path: seq<Name>) returns (links: seq<MacAndIface>)
      requires LeadsBeyond(sshConfig, path, name, index) && AllReached(sessions)
      modifies this`sessions
      ensures links == replies(name)[index - 1].links && old(sessions) <= sessions
      ensures AllReached(sessions) && Visits(sessions) == Visits(old(sessions)) + [AtNeighbor(name, index)]
    {
      OneMoreSession(sessions, Session(sshConfig, AtNeighbor(name, index)));
      sessions := sessions + [Session(sshConfig, AtNeighbor(name, index))];
      return replies(name)[index - 1].links;
    }

    /** Recording what one more node saw, and deleting its other links, keeps the graph sound. */
    lemma ProbeIsSound(nodes: map<Name, Node>, network: set<Edge>, probed: seq<Name>, name: Name,
                       nodes': map<Name, Node>, network': set<Edge>)
      requires Sound(nodes, network, probed)
      requires nodes.Keys <= nodes'.Keys && name in nodes' && nodes'[name].neighs.Some?
      requires DistinctNames(nodes'[name].neighs.value) && Names(nodes'[name].neighs.value) == Seen(name) <= nodes'.Keys
      requires AllFromReplies(mac2node, replies(name), nodes'[name].neighs.value)
      requires forall n :: n in nodes && n != name ==> nodes'[n] == nodes[n]
      requires forall n :: n in nodes' && n !in nodes && n != name ==> nodes'[n].neighs == None
      requires AfterProbe(network, network', name, Seen(name))
      ensures Sound(nodes', network', probed + [name])
    {
      forall n | n in nodes' && nodes'[n].neighs.Some? ensures ProbedConsistent(nodes', network', n) {
        if n != name {
          assert ProbedConsistent(nodes, network, n);
        }
      }
    }

    /** Forgetting what one node saw keeps the graph sound. */
    lemma SoundUnprobed(nodes: map<Name, Node>, network: set<Edge>, probed: seq<Name>, name: Name,
                        nodes': map<Name, Node>)
      requires Sound(nodes, network, probed)
      requires exists node: Node :: node.neighs == None && nodes' == nodes[name := node]
      ensures Sound(nodes', network, probed)
    {
      forall n | n in nodes' && nodes'[n].neighs.Some? ensures ProbedConsistent(nodes', network, n) {
        assert ProbedConsistent(nodes, network, n);
      }
    }

    function Neighbors(n: Name): (r: set<Name>)
      reads this`network
      ensures forall m :: m in r <==> Linked(network, n, m)
    {
      var r := set e, m | e in network && m in e && e == {n, m} :: m;
      assert forall m :: Linked(network, n, m) ==> m in {n, m} && m in r;
      r
    }

    constructor Init(mac2node: map<Mac, Name>, vertices: set<Name>, links: set<Edge>, target: Name,
                     initialIp: string, initialLinks: seq<MacAndIface>,
                     replies: Name -> seq<Reply>, pathFinder: PathFinder)
      requires mac2node.Values <= vertices && target in vertices && FindsPaths(pathFinder, vertices)
      ensures Valid()
      ensures this.mac2node == mac2node && this.vertices == vertices && this.target == target
      ensures network == topologyLinks == links && nodes == map[] && probed == [] && sessions == []
      ensures this.initialIp == initialIp && this.initialLinks == initialLinks && this.replies == replies
      ensures this.pathFinder == pathFinder
    {
      this.mac2node := mac2node;
      this.vertices := vertices;
      this.topologyLinks := links;
      this.target := target;
      this.initialIp := initialIp;
      this.initialLinks := initialLinks;
      this.replies := replies;
      this.pathFinder := pathFinder;
      this.network := links;
      this.nodes := map[];
      this.sshConfig := [];
      this.probed := [];
      this.sessions := [];
    }

    /** Builds the search from a topology; fails exactly when the target is not one of its nodes.
        A link may name a node that the topology does not list. */
    static method Build(topology: seq<TopologyNode>, links: seq<Link>, target: Name, initialIp: string,
                        initialLinks: seq<MacAndIface>, replies: Name -> seq<Reply>, pathFinder: PathFinder)
      returns (r: Option<HBH>)
      requires FindsPaths(pathFinder, NodeNames(topology) + LinkEnds(links))
      ensures r.Some? <==> target in NodeNames(topology)
      ensures r.Some? ==>
        && fresh(r.value)
        && r.value.Valid()
        && r.value.network == r.value.topologyLinks == LinkEdges(links)
        && (forall a, b :: Linked(r.value.network, a, b) <==> Joined(links, a, b))
        && r.value.mac2node == MacTable(topology)
        && r.value.target == target && r.value.initialLinks == initialLinks && r.value.replies == replies
        && r.value.initialIp == initialIp && r.value.pathFinder == pathFinder
        && r.value.nodes == map[] && r.value.probed == [] && r.value.sessions == []
        && (forall n :: n in r.value.vertices <==>
              || (exists i :: 0 <= i < |topology| && topology[i].name == n)
              || (exists i :: 0 <= i < |links| && (links[i].a == n || links[i].z == n)))
    {
      var mac2node := BuildMacTable(topology);
      LinkedIsJoined(links);
      if target !in NodeNames(topology) {
        return None;
      }
      var hbh := new HBH.Init(mac2node, NodeNames(topology) + LinkEnds(links), LinkEdges(links), target,
                              initialIp, initialLinks, replies, pathFinder);
      return Some(hbh);
    }

    /** The configuration entry for position `i` of `path`: reached by jumping through all the
        nodes before it, at the address the node just before it discovered. */
    ghost function HostAt(nodes: map<Name, Node>, path: seq<Name>, i: nat): Host
      requires i < |path| && (i == 0 || UniqueHop(nodes, path, i))
    {
      if i == 0 then Initial(path[0], initialIp)
      else
        var n := Named(nodes[path[i - 1]].neighs.value, path[i])[0];
        Jump(path[i], n.ip, n.iface, path[..i])
    }

    ghost predicate IsConfigFor(hosts: seq<Host>, nodes: map<Name, Node>, path: seq<Name>, k: nat)
      requires k <= |path|
    {
      && k <= |hosts|
      && forall i :: 0 <= i < k ==> (i == 0 || UniqueHop(nodes, path, i)) && hosts[i] == HostAt(nodes, path, i)
    }

    ghost function CandidateHosts(path: seq<Name>, neighborIps: seq<(string, string)>): (r: seq<Host>)
      ensures |r| == |neighborIps|
    {
      seq(|neighborIps|, i requires 0 <= i < |neighborIps| =>
        Candidate(i + 1, neighborIps[i].0, neighborIps[i].1, path))
    }

    ghost predicate UniqueHop(nodes: map<Name, Node>, path: seq<Name>, i: nat)
      requires 1 <= i < |path|
    {
      Probed(nodes, path[i - 1]) && |Named(nodes[path[i - 1]].neighs.value, path[i])| == 1
    }

    /** Writes the ssh configuration for `path`; fails exactly when some hop does not have exactly
        one neighbour entry of the right name. */
    method WriteSshConfig(path: seq<Name>, neighborIps: seq<(string, string)>) returns (ok: bool)
      requires forall i :: 0 <= i < |path| - 1 ==> Probed(nodes, path[i])
      modifies this`sshConfig
      ensures ok <==> forall i :: 1 <= i < |path| ==> UniqueHop(nodes, path, i)
      ensures path == [] ==> sshConfig == []
      ensures ok && path != [] ==>
        IsConfigFor(sshConfig, nodes, path, |path|) && sshConfig[|path|..] == CandidateHosts(path, neighborIps)
    {
      sshConfig := [];
      if path == [] { return true; }
      sshConfig := [Initial(path[0], initialIp)];
      for i := 1 to |path|
        invariant |sshConfig| == i && IsConfigFor(sshConfig, nodes, path, i)
      {
        var found := Named(nodes[path[i - 1]].neighs.value, path[i]);
        if |found| != 1 {
          assert !UniqueHop(nodes, path, i);
          return false;
        }
        var host := Jump(path[i], found[0].ip, found[0].iface, path[..i]);
        ConfigGrows(sshConfig, nodes, path, i, host);
        sshConfig := sshConfig + [host];
      }
      ConfigWithMore(sshConfig, nodes, path, CandidateHosts(path, neighborIps));
      AppendCandidates(path, neighborIps);
      return true;
    }

    lemma ConfigGrows(hosts: seq<Host>, nodes: map<Name, Node>, path: seq<Name>, i: nat, host: Host)
      requires 0 < i < |path| && |hosts| == i && IsConfigFor(hosts, nodes, path, i)
      requires UniqueHop(nodes, path, i) && host == HostAt(nodes, path, i)
      ensures IsConfigFor(hosts + [host], nodes, path, i + 1)
    {
    }

    lemma ConfigWithMore(hosts: seq<Host>, nodes: map<Name, Node>, path: seq<Name>, more: seq<Host>)
      requires |hosts| == |path| && IsConfigFor(hosts, nodes, path, |path|)
      ensures IsConfigFor(hosts + more, nodes, path, |path|) && (hosts + more)[|path|..] == more
      ensures forall i :: 1 <= i < |path| ==> UniqueHop(nodes, path, i)
    {
    }

    /** Adds an entry for each machine that answered the ping of the last node of `path`. */
    method AppendCandidates(path: seq<Name>, neighborIps: seq<(string, string)>)
      modifies this`sshConfig
      ensures sshConfig == old(sshConfig) + CandidateHosts(path, neighborIps)
    {
      for i := 0 to |neighborIps|
        invariant sshConfig == old(sshConfig) + CandidateHosts(path, neighborIps)[..i]
      {
        sshConfig := sshConfig + [Candidate(i + 1, neighborIps[i].0, neighborIps[i].1, path)];
      }
    }

    /** Opens the sessions of a probe: one to the last node of the path, and one to each machine that
        answers its ping. */
    method ProbeLast(path: seq<Name>) returns (ok: bool, answers: seq<Reply>)
      requires Valid() && path != [] && Verified(nodes, path)
      modifies this`sshConfig, this`probed, this`sessions
      ensures ok && answers == replies(path[|path| - 1]) && probed == old(probed) + [path[|path| - 1]]
      ensures SessionsRight(sessions, probed) && old(sessions) <= sessions
    {
      var name := path[|path| - 1];
      VerifiedIsUnique(path);
      ok := WriteSshConfig(path, []);
      ConfigLeads(sshConfig, path);
      var ips := FindNeighborIps(name, path);
      ok := WriteSshConfig(path, ips);
      ConfigLeads(sshConfig, path);
      CandidatesLead(sshConfig, path, name, ips);
      answers := AskNeighbors(name, ips, path);
      OneMoreProbe(probed, name);
      probed := probed + [name];
    }

    lemma ConfigLeads(hosts: seq<Host>, path: seq<Name>)
      requires Sound(nodes, network, probed) && path != [] && Verified(nodes, path)
      requires IsConfigFor(hosts, nodes, path, |path|)
      ensures Leads(hosts, path)
    {
      ConfigReaches(hosts, path);
      assert hosts[0] == HostAt(nodes, path, 0);
    }

    lemma CandidatesLead(hosts: seq<Host>, path: seq<Name>, name: Name, ips: seq<(string, string)>)
      requires LeadsTo(hosts, path, name) && hosts[|path|..] == CandidateHosts(path, ips)
      requires
        var answers := replies(name);
        ips == seq(|answers|, i requires 0 <= i < |answers| => (answers[i].ip, answers[i].iface))
      ensures forall index :: 1 <= index <= |ips| ==> LeadsBeyond(hosts, path, name, index)
    {
      forall index | 1 <= index <= |ips| ensures LeadsBeyond(hosts, path, name, index) {
        assert hosts[|path| + index - 1] == hosts[|path|..][index - 1];
      }
    }

    /** Probes the last node of a verified path, unless that was done before, and deletes the links
        of that node that it does not see. */
    method DiscoverNeighbors(path: seq<Name>, ghost past: seq<Name>) returns (ok: bool)
      requires Valid()
      requires path != [] && Verified(nodes, path) && path[|path| - 1] in nodes
      requires FreshProbes(past, probed, nodes)
      modifies this`network, this`nodes, this`sshConfig, this`probed, this`sessions
      ensures ok && Valid() && Verified(nodes, path) && FreshProbes(past, probed, nodes) && old(sessions) <= sessions
      ensures Probed(nodes, path[|path| - 1])
      ensures nodes.Keys >= old(nodes).Keys
      ensures forall n :: n in old(nodes) && n != path[|path| - 1] ==> nodes[n] == old(nodes)[n]
      ensures forall n :: n in nodes && n !in old(nodes) ==> nodes[n].neighs == None
      ensures old(Probed(nodes, path[|path| - 1])) ==>
        nodes == old(nodes) && network == old(network) && probed == old(probed)
      ensures !old(Probed(nodes, path[|path| - 1])) ==> probed == old(probed) + [path[|path| - 1]]
      ensures AfterProbe(old(network), network, path[|path| - 1], Seen(path[|path| - 1]))
    {
      var name := path[|path| - 1];
      var node := nodes[name];
      if node.neighs.Some? {
        LinkedIsSymmetric(network);
        assert ProbedConsistent(nodes, network, name);
        return true;
      }
      var answers;
      ok, answers := ProbeLast(path);
      RecordReplies(name, answers);
      RemoveUnseen(name);
      ProbeIsSound(old(nodes), old(network), old(probed), name, nodes, network);
      assert forall n :: old(Probed(nodes, n)) ==> Probed(nodes, n) && nodes[n] == old(nodes)[n];
      forall i | 1 <= i < |path| ensures VerifiedHop(nodes, path, i) {
        assert old(VerifiedHop(nodes, path, i));
      }
    }

    /** A verified path over consistent nodes has one neighbour entry per hop. */
    lemma VerifiedIsUnique(path: seq<Name>)
      requires Valid() && Verified(nodes, path)
      ensures forall i :: 1 <= i < |path| ==> SeenHop(path, i) && UniqueHop(nodes, path, i)
      ensures forall i :: 0 <= i < |path| - 1 ==> Probed(nodes, path[i])
    {
      forall i | 0 <= i < |path| - 1 ensures Probed(nodes, path[i]) {
        assert VerifiedHop(nodes, path, i + 1);
      }
      forall i | 1 <= i < |path| ensures SeenHop(path, i) && UniqueHop(nodes, path, i) {
        assert VerifiedHop(nodes, path, i);
        NamedIsUnique(nodes[path[i - 1]].neighs.value, path[i]);
      }
    }

    /** Turns the replies to a probe into neighbour entries, the first for each known name. */
    method RecordReplies(name: Name, answers: seq<Reply>)
      requires name in nodes && nodes[name].neighs == None
      modifies this`nodes
      ensures nodes.Keys >= old(nodes).Keys
      ensures Probed(nodes, name) && DistinctNames(nodes[name].neighs.value)
      ensures Names(nodes[name].neighs.value) == SeenIn(mac2node, answers) <= nodes.Keys
      ensures AllFromReplies(mac2node, answers, nodes[name].neighs.value)
      ensures nodes[name] == old(nodes)[name].(neighs := nodes[name].neighs)
      ensures forall n :: n in old(nodes) && n != name ==> nodes[n] == old(nodes)[n]
      ensures NewFromReplies(mac2node, answers, old(nodes).Keys, nodes)
    {
      var table, neighs := CollectNeighs(nodes, answers);
      assert answers[..|answers|] == answers;
      nodes := table[name := table[name].(neighs := Some(neighs))];
    }

    /** The neighbour entries for the replies, and the table with the new machines among them. */
    method CollectNeighs(known: map<Name, Node>, answers: seq<Reply>)
      returns (table: map<Name, Node>, neighs: seq<Neigh>)
      ensures Collected(mac2node, known, answers, |answers|, table, neighs)
    {
      var neighNames: set<Name> := {};
      table, neighs := known, [];
      for i := 0 to |answers|
        invariant neighNames == Names(neighs)
        invariant Collected(mac2node, known, answers, i, table, neighs)
      {
        var found := NodeOf(mac2node, answers[i].links);
        // skip unknown machines, and second links to the same neighbour
        if found == None || found.value in neighNames {
          CollectSkip(mac2node, known, answers, i, table, neighs);
          continue;
        }
        ghost var before := table;
        neighNames := neighNames + {found.value};
        if found.value !in table {
          table := table[found.value := NewNode(answers[i].links)];
        }
        var entry := Neigh(answers[i].ip, answers[i].iface, found.value);
        NamesExtends(neighs, entry);
        CollectNew(mac2node, known, answers, i, before, neighs, table, entry);
        neighs := neighs + [entry];
      }
    }

    /** What the search promises from `initial`, for links believed up at its start. */
    ghost predicate SearchCorrect(initial: Name, outcome: Outcome, links: set<Edge>)
      reads this`network, this`nodes, this`sshConfig, this`probed
    {
      match outcome
      case Found(p) => IsPath(p, initial, target, links) && FoundRight(p)
      case NoPath =>
        && (forall p :: !IsPath(p, initial, target, network))
        && (target !in probed ==> forall p :: !UsablePath(p, initial, target))
      case _ => true
    }

    /** Every hop of the path was discovered, and the configuration reaches each of them. */
    ghost predicate FoundRight(p: seq<Name>)
      reads this`nodes, this`sshConfig
    {
      && (forall i :: 1 <= i < |p| ==> SeenHop(p, i) && UniqueHop(nodes, p, i))
      && |sshConfig| == |p| && IsConfigFor(sshConfig, nodes, p, |p|)
      && (forall i :: 1 <= i < |p| ==> ReachesHop(sshConfig[i], p, i))
    }

    ghost predicate SeenHop(p: seq<Name>, i: nat)
      requires 1 <= i < |p|
    {
      p[i] in Seen(p[i - 1])
    }

    /** The host jumps through the path before it, to the address at which this node replied first
        when its predecessor was probed. */
    ghost predicate ReachesHop(host: Host, p: seq<Name>, i: nat)
      requires 1 <= i < |p|
    {
      && host.Jump? && host.name == p[i] && host.via == p[..i]
      && FromReply(mac2node, replies(p[i - 1]), Neigh(host.ip, host.iface, p[i]))
    }

    /** A configuration for a verified path reaches every hop. */
    lemma ConfigReaches(hosts: seq<Host>, p: seq<Name>)
      requires Sound(nodes, network, probed) && Verified(nodes, p) && IsConfigFor(hosts, nodes, p, |p|)
      ensures forall i :: 1 <= i < |p| ==> ReachesHop(hosts[i], p, i)
    {
      forall i | 1 <= i < |p| ensures ReachesHop(hosts[i], p, i) {
        assert VerifiedHop(nodes, p, i) && UniqueHop(nodes, p, i);
        var ns := nodes[p[i - 1]].neighs.value;
        assert ProbedConsistent(nodes, network, p[i - 1]);
        var n := Named(ns, p[i])[0];
        assert n in Named(ns, p[i]);
        assert n == Neigh(n.ip, n.iface, p[i]);
      }
    }

    /** The nodes probed after those of `past` are distinct, and recorded as probed. */
    ghost predicate FreshProbes(past: seq<Name>, probed: seq<Name>, nodes: map<Name, Node>) {
      && past <= probed
      && NoDuplicates(probed[|past|..])
      && forall i :: |past| <= i < |probed| ==> Probed(nodes, probed[i])
    }

    /** A path of usable links is still a path of the graph. */
    lemma UsablePathSurvives(p: seq<Name>, a: Name, b: Name)
      requires Valid() && target !in probed
      ensures UsablePath(p, a, b) ==> IsPath(p, a, b, network)
    {
      if UsablePath(p, a, b) {
        forall i | 1 <= i < |p| ensures Hop(p, i, network) {
          assert UsableHop(p, i) && Hop(p, i, topologyLinks);
        }
      }
    }

    // ----- the paths tried -----

    /** The walk along this path probes its `j`-th node: all hops up to it are seen. */
    ghost predicate Walked(p: seq<Name>, j: nat) {
      j < |p| - 1 && forall i :: 1 <= i <= j ==> SeenHop(p, i)
    }

    ghost predicate AllSeen(p: seq<Name>) {
      forall i :: 1 <= i < |p| ==> SeenHop(p, i)
    }

    /** The path uses no link of `n` that `n` does not see. */
    ghost predicate Respects(p: seq<Name>, n: Name) {
      forall i :: 1 <= i < |p| ==> (p[i - 1] == n ==> p[i] in Seen(n)) && (p[i] == n ==> p[i - 1] in Seen(n))
    }

    ghost predicate RespectsWalk(p: seq<Name>, q: seq<Name>) {
      forall j :: 0 <= j < |q| && Walked(q, j) ==> Respects(p, q[j])
    }

    /** The paths tried are what the path finder answers; all but the last have a hop that is not
        seen, and each respects what the walks along those before it have learnt. */
    ghost predicate Trail(initial: Name, links: set<Edge>, tried: seq<seq<Name>>) {
      && (tried != [] ==> pathFinder(0, links, initial, target) == Some(tried[0]))
      && (forall k :: 0 <= k < |tried| ==> IsPath(tried[k], initial, target, links) && NoDuplicates(tried[k]))
      && (forall k :: 0 <= k < |tried| - 1 ==> !AllSeen(tried[k]))
      && (forall k, l :: 0 <= k < l < |tried| ==> RespectsWalk(tried[l], tried[k]))
    }

    ghost predicate WalksProbed(nodes: map<Name, Node>, tried: seq<seq<Name>>) {
      forall k :: 0 <= k < |tried| ==> WalkProbed(nodes, tried[k])
    }

    ghost predicate WalkProbed(nodes: map<Name, Node>, p: seq<Name>) {
      forall j :: 0 <= j < |p| && Walked(p, j) ==> Probed(nodes, p[j])
    }

    lemma WalkEnds(nodes: map<Name, Node>, p: seq<Name>, cur: nat)
      requires cur < |p| && forall i :: 0 <= i < cur ==> Probed(nodes, p[i])
      requires cur == |p| - 1 || (cur > 0 && !SeenHop(p, cur))
      ensures WalkProbed(nodes, p)
    {
      forall j | cur <= j < |p| ensures !Walked(p, j) {
        if j < |p| - 1 {
          assert !SeenHop(p, cur);
        }
      }
    }

    /** A path of the graph respects all that has been probed. */
    lemma PathRespects(p: seq<Name>, a: Name, b: Name, tried: seq<seq<Name>>)
      requires Valid() && IsPath(p, a, b, network) && WalksProbed(nodes, tried)
      ensures forall k :: 0 <= k < |tried| ==> RespectsWalk(p, tried[k])
    {
      LinkedIsSymmetric(network);
      forall n | Probed(nodes, n) ensures Respects(p, n) {
        assert ProbedConsistent(nodes, network, n);
        forall i | 1 <= i < |p| ensures (p[i - 1] == n ==> p[i] in Seen(n)) && (p[i] == n ==> p[i - 1] in Seen(n)) {
          assert Hop(p, i, network);
        }
      }
      forall k | 0 <= k < |tried| ensures RespectsWalk(p, tried[k]) {
        assert WalkProbed(nodes, tried[k]);
      }
    }

    lemma TrailNext(initial: Name, links: set<Edge>, tried: seq<seq<Name>>, p: seq<Name>)
      requires Valid() && Trail(initial, links, tried) && WalksProbed(nodes, tried)
      requires IsPath(p, initial, target, network) && NoDuplicates(p) && network <= links
      requires tried == [] ==> pathFinder(0, links, initial, target) == Some(p)
      requires tried != [] ==> !AllSeen(tried[|tried| - 1])
      ensures IsPath(p, initial, target, links) && Trail(initial, links, tried + [p])
    {
      PathMonotone(p, initial, target, network, links);
      PathRespects(p, initial, target, tried);
      TrailGrows(initial, links, tried, p);
    }

    lemma TrailGrows(initial: Name, links: set<Edge>, tried: seq<seq<Name>>, p: seq<Name>)
      requires Trail(initial, links, tried) && IsPath(p, initial, target, links) && NoDuplicates(p)
      requires tried == [] ==> pathFinder(0, links, initial, target) == Some(p)
      requires tried != [] ==> !AllSeen(tried[|tried| - 1])
      requires forall k :: 0 <= k < |tried| ==> RespectsWalk(p, tried[k])
      ensures Trail(initial, links, tried + [p])
    {
    }

    /** One round: walk along a path of the graph, probing each node but the last.  When the path
        does not hold up (the outcome `NoPath`), a link of the graph has been deleted. */
    method TryPath(initial: Name, path: seq<Name>, ghost past: seq<Name>) returns (outcome: Outcome)
      requires Valid() && initial in nodes && IsPath(path, initial, target, network) && NoDuplicates(path)
      requires FreshProbes(past, probed, nodes)
      modifies this`network, this`nodes, this`sshConfig, this`probed, this`sessions
      ensures Valid() && initial in nodes && FreshProbes(past, probed, nodes) && old(sessions) <= sessions
      ensures outcome == NoPath || outcome == Found(path)
      ensures outcome.NoPath? ==> network < old(network) && !AllSeen(path)
      ensures forall n :: old(Probed(nodes, n)) ==> Probed(nodes, n)
      ensures WalkProbed(nodes, path) && (target !in old(probed) ==> target !in probed)
      ensures outcome.Found? ==> network <= old(network) && AllSeen(path) && FoundRight(path)
    {
      var reached := Walk(path, past);
      if reached == None { return AmbiguousNeighbor; }
      if !reached.value { return NoPath; }
      VerifiedIsUnique(path);
      var ok := WriteSshConfig(path, []);
      if !ok { return AmbiguousNeighbor; }
      ConfigReaches(sshConfig, path);
      return Found(path);
    }

    /** Probes the nodes of a path in turn, up to the last hop that is seen; `None` stands for the exit
        on an ambiguous neighbour. */
    method Walk(path: seq<Name>, ghost past: seq<Name>) returns (reached: Option<bool>)
      requires Valid() && path != [] && path[0] in nodes && path[|path| - 1] == target && NoDuplicates(path)
      requires (forall i :: 1 <= i < |path| ==> Hop(path, i, network)) && FreshProbes(past, probed, nodes)
      modifies this`network, this`nodes, this`sshConfig, this`probed, this`sessions
      ensures Valid() && path[0] in nodes && FreshProbes(past, probed, nodes) && network <= old(network)
      ensures old(sessions) <= sessions
      ensures reached.Some? && (reached.value ==> Verified(nodes, path))
      ensures !reached.value ==> network < old(network) && !AllSeen(path)
      ensures forall n :: old(Probed(nodes, n)) ==> Probed(nodes, n)
      ensures WalkProbed(nodes, path) && (target !in old(probed) ==> target !in probed)
    {
      var cur := 0;
      while cur < |path|
        invariant 0 <= cur < |path|
        invariant Valid() && path[0] in nodes && FreshProbes(past, probed, nodes) && network <= old(network)
        invariant old(sessions) <= sessions
        invariant WalkedTo(nodes, path, cur)
        invariant forall n :: old(Probed(nodes, n)) ==> Probed(nodes, n)
        invariant target !in old(probed) ==> target !in probed
        decreases |path| - cur
      {
        if cur > 0 && path[cur] !in Names(nodes[path[cur - 1]].neighs.value) {
          assert Hop(path, cur, old(network));
          HopMissing(path, cur, old(network));
          return Some(false);
        }
        VerifiedExtends(path, cur);
        if cur == |path| - 1 {
          assert path[..cur + 1] == path;
          WalkEnds(nodes, path, cur);
          return Some(true);
        }
        var ok := ProbeNext(path, cur, past);
        if !ok { return None; }
        cur := cur + 1;
      }
    }

    /** All hops up to the `cur`-th node are discovered, and all nodes before it probed. */
    ghost predicate WalkedTo(nodes: map<Name, Node>, path: seq<Name>, cur: nat)
      requires cur <= |path|
    {
      Verified(nodes, path[..cur]) && forall i :: 0 <= i < cur ==> Probed(nodes, path[i])
    }

    /** One step of the walk. */
    method ProbeNext(path: seq<Name>, cur: nat, ghost past: seq<Name>) returns (ok: bool)
      requires Valid() && cur < |path| - 1 && path[|path| - 1] == target && NoDuplicates(path)
      requires path[0] in nodes && FreshProbes(past, probed, nodes)
      requires WalkedTo(nodes, path, cur) && Verified(nodes, path[..cur + 1])
      modifies this`network, this`nodes, this`sshConfig, this`probed, this`sessions
      ensures ok && Valid() && path[0] in nodes && FreshProbes(past, probed, nodes) && network <= old(network)
      ensures old(sessions) <= sessions
      ensures WalkedTo(nodes, path, cur + 1)
      ensures forall n :: old(Probed(nodes, n)) ==> Probed(nodes, n)
      ensures target !in old(probed) ==> target !in probed
    {
      var front := path[..cur + 1];
      LastIsKnown(front);
      ok := DiscoverNeighbors(front, past);
    }

    /** The last node of a discovered path is recorded. */
    lemma LastIsKnown(path: seq<Name>)
      requires Valid() && path != [] && path[0] in nodes && Verified(nodes, path)
      ensures path[|path| - 1] in nodes
    {
      if |path| > 1 {
        assert VerifiedHop(nodes, path, |path| - 1);
        assert ProbedConsistent(nodes, network, path[|path| - 2]);
      }
    }

    /** At a hop that is not seen the walk ends, with a link of the graph deleted. */
    lemma HopMissing(path: seq<Name>, cur: nat, before: set<Edge>)
      requires Valid() && 0 < cur < |path| && Hop(path, cur, before) && network <= before
      requires forall i :: 0 <= i < cur ==> Probed(nodes, path[i])
      requires Probed(nodes, path[cur - 1]) && path[cur] !in Names(nodes[path[cur - 1]].neighs.value)
      ensures network < before && !AllSeen(path) && WalkProbed(nodes, path)
    {
      assert ProbedConsistent(nodes, network, path[cur - 1]);
      assert !SeenHop(path, cur);
      WalkEnds(nodes, path, cur);
      assert !Linked(network, path[cur - 1], path[cur]);
    }

    lemma VerifiedExtends(path: seq<Name>, cur: nat)
      requires cur < |path| && Verified(nodes, path[..cur])
      requires cur > 0 ==> Probed(nodes, path[cur - 1]) && path[cur] in Names(nodes[path[cur - 1]].neighs.value)
      ensures Verified(nodes, path[..cur + 1])
    {
      var q := path[..cur + 1];
      forall i | 1 <= i < |q| ensures VerifiedHop(nodes, q, i) {
        assert i < cur ==> VerifiedHop(nodes, path[..cur], i);
      }
    }

    /** The search.  `rounds` counts the paths asked of the path finder, `tried` are its answers. */
    method FindPaths() returns (outcome: Outcome, rounds: nat, ghost tried: seq<seq<Name>>)
      requires Valid()
      modifies this`network, this`nodes, this`sshConfig, this`probed, this`sessions
      ensures Valid()
      // the two abort exits are never taken
      ensures outcome.InitialUnknown? || outcome.NoPath? || outcome.Found?
      ensures outcome.InitialUnknown? <==> NodeOf(mac2node, initialLinks) == None
      ensures !outcome.InitialUnknown? ==>
        SearchCorrect(NodeOf(mac2node, initialLinks).value, outcome, old(network))
      ensures
        && target !in old(probed)
        && (exists initial, p :: NodeOf(mac2node, initialLinks) == Some(initial) && UsablePath(p, initial, target))
        ==> outcome.Found?
      ensures !outcome.InitialUnknown? ==> Trail(NodeOf(mac2node, initialLinks).value, old(network), tried)
      ensures outcome.NoPath? ==> rounds == |tried| + 1 && (tried != [] ==> !AllSeen(tried[|tried| - 1]))
      ensures outcome.Found? ==> rounds == |tried| > 0 && outcome.path == tried[|tried| - 1] && AllSeen(outcome.path)
      ensures rounds <= |old(network)| + 1
      ensures old(probed) <= probed && NoDuplicates(probed[|old(probed)|..])
      // the first session asks the given machine, and each was opened under a configuration that leads
      // where it should: to the probed nodes in turn, and to all that answer their pings
      ensures old(sessions) + [Session([], First(initialIp))] <= sessions
      ensures AllReached(sessions) && Visits(sessions) == AllVisits(probed)
      // without a single path to try, the configuration is left at the first machine, as far as known
      ensures outcome.InitialUnknown? ==> rounds == 0 && sshConfig == []
      ensures outcome.NoPath? && tried == [] ==>
        sshConfig == [Initial(NodeOf(mac2node, initialLinks).value, initialIp)]
    {
      rounds, tried := 0, [];
      var start := Start();
      if start == None {
        outcome := InitialUnknown;
        return;
      }
      outcome, rounds, tried := Search(start.value);
    }

    /** Asks the first machine who it is, and records it. */
    method Start() returns (start: Option<Name>)
      requires Valid()
      modifies this`nodes, this`sshConfig, this`sessions
      ensures Valid() && start == NodeOf(mac2node, initialLinks)
      ensures sessions == old(sessions) + [Session([], First(initialIp))]
      ensures start == None ==> sshConfig == [] && nodes == old(nodes)
      ensures start.Some? ==>
        && start.value in vertices && sshConfig == [Initial(start.value, initialIp)]
        && nodes == old(nodes)[start.value := NewNode(initialLinks)]
    {
      var ok := WriteSshConfig([], []);
      var links := AskFirst();
      start := NodeOf(mac2node, links);
      if start.Some? {
        nodes := nodes[start.value := NewNode(links)];
        SoundUnprobed(old(nodes), network, probed, start.value, nodes);
        ok := WriteSshConfig([start.value], []);
        assert sshConfig[0] == HostAt(nodes, [start.value], 0);
      }
    }

    /** Iterates until a path to the target is found, or there is none left. */
    method Search(initial: Name) returns (outcome: Outcome, rounds: nat, ghost tried: seq<seq<Name>>)
      requires Valid() && initial in nodes && initial in vertices
      modifies this`network, this`nodes, this`sshConfig, this`probed, this`sessions
      ensures Valid() && old(sessions) <= sessions && (outcome.NoPath? && tried == [] ==> sshConfig == old(sshConfig))
      ensures outcome.NoPath? || outcome.Found?
      ensures SearchCorrect(initial, outcome, old(network)) && (target !in old(probed) ==> target !in probed)
      ensures Trail(initial, old(network), tried)
      ensures outcome.NoPath? ==> rounds == |tried| + 1 && (tried != [] ==> !AllSeen(tried[|tried| - 1]))
      ensures outcome.Found? ==> rounds == |tried| > 0 && outcome.path == tried[|tried| - 1] && AllSeen(outcome.path)
      ensures rounds <= |old(network)| + 1
      ensures old(probed) <= probed && NoDuplicates(probed[|old(probed)|..])
    {
      rounds, tried := 0, [];
      var numEdges: int := -1;
      while true
        invariant Searching(initial, old(network), old(probed), tried) && rounds == |tried|
        invariant rounds + |network| <= |old(network)| && old(sessions) <= sessions
        invariant tried == [] ==> sshConfig == old(sshConfig)
        invariant numEdges == -1 || |network| < numEdges
        decreases |network|
      {
        if numEdges == |network| {
          outcome := EdgesNotDecreasing;
          return;
        }
        numEdges := |network|;
        var found := pathFinder(rounds, network, initial, target);
        rounds := rounds + 1;
        if found == None {
          assert FindsPath(pathFinder, rounds - 1, network, initial, target);
          NoUsablePath(initial);
          outcome := NoPath;
          return;
        }
        ghost var before := network;
        outcome := Round(initial, found.value, old(network), old(probed), tried);
        tried := tried + [found.value];
        if !outcome.NoPath? {
          return;
        }
        StrictSubsetIsSmaller(network, before);
      }
    }

    /** What holds of a search from `initial` between rounds: all paths tried so far have failed. */
    ghost predicate Searching(initial: Name, links: set<Edge>, past: seq<Name>, tried: seq<seq<Name>>)
      reads this`network, this`nodes, this`probed, this`sessions
    {
      && Valid() && initial in nodes && initial in vertices
      && network <= links && (tried == [] ==> network == links)
      && FreshProbes(past, probed, nodes) && (target !in past ==> target !in probed)
      && Trail(initial, links, tried) && WalksProbed(nodes, tried)
      && (tried != [] ==> !AllSeen(tried[|tried| - 1]))
    }

    /** One round, with the path that the path finder gave. */
    method Round(initial: Name, path: seq<Name>, ghost links: set<Edge>, ghost past: seq<Name>,
                 ghost tried: seq<seq<Name>>)
      returns (outcome: Outcome)
      requires Searching(initial, links, past, tried)
      requires pathFinder(|tried|, network, initial, target) == Some(path)
      modifies this`network, this`nodes, this`sshConfig, this`probed, this`sessions
      ensures outcome == NoPath || outcome == Found(path)
      ensures old(sessions) <= sessions
      ensures outcome.NoPath? ==> network < old(network) && Searching(initial, links, past, tried + [path])
      ensures outcome.Found? ==>
        && Valid() && IsPath(path, initial, target, links) && AllSeen(path) && FoundRight(path)
        && FreshProbes(past, probed, nodes) && (target !in past ==> target !in probed)
        && Trail(initial, links, tried + [path])
    {
      assert FindsPath(pathFinder, |tried|, network, initial, target);
      ghost var known := nodes;
      TrailNext(initial, links, tried, path);
      outcome := TryPath(initial, path, past);
      WalksStayProbed(known, nodes, tried, path);
    }

    lemma NoUsablePath(initial: Name)
      requires Valid() && forall p :: !IsPath(p, initial, target, network)
      ensures target !in probed ==> forall p :: !UsablePath(p, initial, target)
    {
      if target !in probed {
        forall p ensures !UsablePath(p, initial, target) {
          UsablePathSurvives(p, initial, target);
        }
      }
    }

    lemma WalksStayProbed(nodes: map<Name, Node>, nodes': map<Name, Node>, tried: seq<seq<Name>>, p: seq<Name>)
      requires WalksProbed(nodes, tried) && (forall n :: Probed(nodes, n) ==> Probed(nodes', n))
      requires WalkProbed(nodes', p)
      ensures WalksProbed(nodes', tried + [p])
    {
      forall k | 0 <= k < |tried| ensures WalkProbed(nodes', tried[k]) {
        assert WalkProbed(nodes, tried[k]);
      }
    }

    /** Deletes the links of `name` that lead to nodes it did not see. */
    method RemoveUnseen(name: Name)
      requires Probed(nodes, name)
      modifies this`network
      ensures AfterProbe(old(network), network, name, Names(nodes[name].neighs.value))
    {
      var unreachable := Neighbors(name) - Names(nodes[name].neighs.value);
      ghost var before := network;
      ghost var gone: set<Name> := {};
      while unreachable != {}
        invariant gone + unreachable == old(Neighbors(name)) - Names(nodes[name].neighs.value)
        invariant network == before - Star(name, gone)
        decreases unreachable
      {
        var m :| m in unreachable;
        unreachable := unreachable - {m};
        assert Star(name, gone + {m}) == Star(name, gone) + {{name, m}};
        gone := gone + {m};
        network := network - {{name, m}};
      }
      assert gone == old(Neighbors(name)) - Names(nodes[name].neighs.value);
      RemoveStar(before, name, gone);
      LinkedIsSymmetric(before);
    }
  }

  const ONE_WAY: set<Edge> := {{"I", "A"}, {"A", "B"}, {"B", "T"}, {"B", "C"}, {"C", "T"}}

  /** Links seen from one end are not enough: in this topology a chain of links leads from I to T,
      each seen by the node before it, and the search still reports that there is no path when it is
      first sent along I-A-B-T, because A does not see I. */
  method OneWaySightIsNotEnough(h: HBH) returns (outcome: Outcome)
    requires h.Valid() && OneWay(h) && h.network == ONE_WAY && NodeOf(h.mac2node, h.initialLinks) == Some("I")
    modifies h`network, h`nodes, h`sshConfig, h`probed, h`sessions
    ensures outcome == NoPath
    ensures IsPath(["I", "A", "B", "C", "T"], "I", "T", ONE_WAY) && h.AllSeen(["I", "A", "B", "C", "T"])
  {
    var rounds;
    ghost var tried;
    OneWayChain(h);
    outcome, rounds, tried := h.FindPaths();
    OneWayTrail(h, tried);
  }

  ghost predicate OneWay(h: HBH) {
    && h.target == "T"
    && h.Seen("I") == {"A"} && h.Seen("A") == {"B"} && h.Seen("B") == {"A", "C"} && h.Seen("C") == {"T"}
    && h.pathFinder(0, ONE_WAY, "I", "T") == Some(["I", "A", "B", "T"])
  }

  /** After I-A-B-T the search is at its end: A is probed, and every path goes on from I to A. */
  lemma OneWayTrail(h: HBH, tried: seq<seq<Name>>)
    requires OneWay(h) && h.Trail("I", ONE_WAY, tried)
    ensures |tried| <= 1 && (tried != [] ==> !h.AllSeen(tried[0]))
  {
    OneWayFails(h);
    if |tried| > 1 {
      OneWayCut(h, tried[1]);
    }
  }

  lemma OneWayFails(h: HBH)
    requires OneWay(h)
    ensures !h.AllSeen(["I", "A", "B", "T"])
  {
    assert !h.SeenHop(["I", "A", "B", "T"], 3);
  }

  lemma OneWayCut(h: HBH, p: seq<Name>)
    requires OneWay(h) && IsPath(p, "I", "T", ONE_WAY)
    ensures !h.RespectsWalk(p, ["I", "A", "B", "T"])
  {
    var first := ["I", "A", "B", "T"];
    assert h.Walked(first, 1) by {
      assert h.SeenHop(first, 1);
    }
    LeavesThroughA(p);
    assert !h.Respects(p, first[1]);
  }

  lemma OneWayChain(h: HBH)
    requires OneWay(h)
    ensures IsPath(["I", "A", "B", "C", "T"], "I", "T", ONE_WAY) && h.AllSeen(["I", "A", "B", "C", "T"])
  {
    var chain := ["I", "A", "B", "C", "T"];
    forall i | 1 <= i < |chain| ensures Hop(chain, i, ONE_WAY) && h.SeenHop(chain, i) {
      assert i == 1 || i == 2 || i == 3 || i == 4;
    }
  }

  lemma LeavesThroughA(p: seq<Name>)
    requires IsPath(p, "I", "T", ONE_WAY)
    ensures |p| > 1 && p[1] == "A"
  {
    assert Hop(p, 1, ONE_WAY);
    var edge := {p[0], p[1]};
    assert "I" in edge && p[1] in edge && edge in ONE_WAY;
    assert edge == {"I", "A"};
  }

  /** The record of a machine that has not been probed: its addresses, and the interfaces that are up. */
  function NewNode(links: seq<MacAndIface>): (r: Node)
    ensures forall m :: m in r.macs <==> exists i :: 0 <= i < |links| && links[i].mac == m
    ensures forall f :: f in r.ifaces <==> exists i :: 0 <= i < |links| && links[i].iface == Some(f)
    ensures r.neighs == None
  {
    Node(set i | 0 <= i < |links| :: links[i].mac,
         set i | 0 <= i < |links| && links[i].iface.Some? :: links[i].iface.value,
         None)
  }

  lemma SeenExtends(mac2node: map<Mac, Name>, answers: seq<Reply>, i: nat)
    requires i < |answers|
    ensures SeenIn(mac2node, answers[..i + 1]) == SeenIn(mac2node, answers[..i]) +
      (match NodeOf(mac2node, answers[i].links) case Some(n) => {n} case None => {})
  {
    var more := answers[..i + 1];
    assert forall j :: 0 <= j < i ==> more[j] == answers[..i][j];
    assert more[i] == answers[i];
  }

  /** A name not seen before is first seen here. */
  lemma FirstSeen(mac2node: map<Mac, Name>, answers: seq<Reply>, i: nat)
    requires i < |answers|
    ensures
      var found := NodeOf(mac2node, answers[i].links);
      found.Some? && found.value !in SeenIn(mac2node, answers[..i]) ==> FirstFrom(mac2node, answers, i, found.value)
  {
    var found := NodeOf(mac2node, answers[i].links);
    if found.Some? && found.value !in SeenIn(mac2node, answers[..i]) {
      forall j | 0 <= j < i ensures NodeOf(mac2node, answers[j].links) != found {
        assert answers[..i][j] == answers[j];
      }
    }
  }

  /** What the first `n` replies add to a table of known machines, and the entries for them. */
  ghost predicate Collected(mac2node: map<Mac, Name>, known: map<Name, Node>, answers: seq<Reply>, n: nat,
                            table: map<Name, Node>, neighs: seq<Neigh>)
  {
    && n <= |answers|
    && DistinctNames(neighs) && Names(neighs) == SeenIn(mac2node, answers[..n]) <= table.Keys
    && AllFromReplies(mac2node, answers, neighs)
    && known.Keys <= table.Keys && (forall m :: m in known ==> table[m] == known[m])
    && NewFromReplies(mac2node, answers, known.Keys, table)
  }

  /** A reply from an unknown machine, or from one that is listed already, adds nothing. */
  lemma CollectSkip(mac2node: map<Mac, Name>, known: map<Name, Node>, answers: seq<Reply>, i: nat,
                    table: map<Name, Node>, neighs: seq<Neigh>)
    requires i < |answers| && Collected(mac2node, known, answers, i, table, neighs)
    requires var found := NodeOf(mac2node, answers[i].links); found == None || found.value in Names(neighs)
    ensures Collected(mac2node, known, answers, i + 1, table, neighs)
  {
    SeenExtends(mac2node, answers, i);
  }

  lemma CollectNew(mac2node: map<Mac, Name>, known: map<Name, Node>, answers: seq<Reply>, i: nat,
                   table: map<Name, Node>, neighs: seq<Neigh>, table': map<Name, Node>, entry: Neigh)
    requires i < |answers| && Collected(mac2node, known, answers, i, table, neighs)
    requires NodeOf(mac2node, answers[i].links) == Some(entry.name) && entry.name !in Names(neighs)
    requires entry.ip == answers[i].ip && entry.iface == answers[i].iface
    requires table' == if entry.name in table then table else table[entry.name := NewNode(answers[i].links)]
    ensures Collected(mac2node, known, answers, i + 1, table', neighs + [entry])
  {
    SeenExtends(mac2node, answers, i);
    FirstSeen(mac2node, answers, i);
    NamesExtends(neighs, entry);
    assert FromReply(mac2node, answers, entry);
    NewNodeAdded(mac2node, answers, known.Keys, table, i, entry.name);
  }

  lemma NewNodeAdded(mac2node: map<Mac, Name>, answers: seq<Reply>, known: set<Name>, table: map<Name, Node>, i: nat,
                     name: Name)
    requires i < |answers| && FirstFrom(mac2node, answers, i, name) && NewFromReplies(mac2node, answers, known, table)
    ensures NewFromReplies(mac2node, answers, known, table[name := NewNode(answers[i].links)])
  {
    assert NodeFromReply(mac2node, answers, name, NewNode(answers[i].links));
  }

  lemma NamesExtends(ns: seq<Neigh>, n: Neigh)
    ensures Names(ns + [n]) == Names(ns) + {n.name}
    ensures DistinctNames(ns) && n.name !in Names(ns) ==> DistinctNames(ns + [n])
  {
    var more := ns + [n];
    assert forall j :: 0 <= j < |ns| ==> more[j] == ns[j];
    assert more[|ns|] == n;
  }

  lemma StrictSubsetIsSmaller(a: set<Edge>, b: set<Edge>)
    requires a < b
    ensures |a| < |b|
  {
    assert |b| == |a| + |b - a|;
  }
}
