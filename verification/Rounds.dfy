// One lookup round against a network, and which contacts a lookup can reach.
module Rounds {
  import opened Keys
  import opened Contacts
  import opened Closest
  import opened Lookup

  // What a contact does when asked: it tells contacts, it says that it holds
  // the value, or nothing usable comes back.
  datatype Reply = Told(contacts: seq<NodeInfo>) | Holds | Mute

  // Every contact is asked at most once in a lookup, so a fixed map of replies
  // stands for any behaviour of the network.
  type Net = NodeInfo -> Reply

  // Node::single_lookup
  function SingleLookup(x: NodeInfo, reply: Reply, forValue: bool): Response {
    match reply
    case Told(contacts) => NodesSuccessful(x, contacts)
    case Holds => if forValue then ValueSuccessful(x) else FailedResponse(x)
    case Mute => FailedResponse(x)
  }

  // Node::lookup_round
  function LookupRound(resolvers: seq<NodeInfo>, net: Net, forValue: bool): (rs: seq<Response>)
    ensures |rs| == |resolvers|
    ensures forall i | 0 <= i < |rs| :: rs[i] == SingleLookup(resolvers[i], net(resolvers[i]), forValue)
  {
    seq(|resolvers|, i requires 0 <= i < |resolvers| => SingleLookup(resolvers[i], net(resolvers[i]), forValue))
  }

  ghost function Tellers(net: Net, s: set<NodeInfo>): set<NodeInfo> {
    set x | x in s && net(x).Told?
  }

  ghost function ToldBy(net: Net, s: set<NodeInfo>): set<NodeInfo> {
    set x, y | x in s && net(x).Told? && y in net(x).contacts :: y
  }

  lemma RoundSets(resolvers: seq<NodeInfo>, net: Net)
    ensures var rs := LookupRound(resolvers, net, false);
            && Answered(rs, false) == Tellers(net, Elems(resolvers))
            && Refused(rs, false) == Elems(resolvers) - Tellers(net, Elems(resolvers))
            && Reported(rs, false) == ToldBy(net, Elems(resolvers))
  {
  }

  // ----- what is assumed of the network -----

  // A search: the target, the contacts there are, what they reply, the contacts
  // it starts from, and the searching node itself.
  datatype Search = Search(target: Key, universe: set<NodeInfo>, net: Net, init: seq<NodeInfo>, self: NodeInfo)

  // A finite universe of contacts, closed under what its members tell, in
  // which an id names one contact; the lookup starts from distinct members
  // other than this node.
  ghost predicate World(q: Search) {
    && DistinctIds(q.universe)
    && ToldBy(q.net, q.universe) <= q.universe
    && NoDup(q.init) && Elems(q.init) <= q.universe && q.self !in q.init
  }

  // The contacts met once the members of `asked` have been asked.
  ghost function Met(q: Search, asked: set<NodeInfo>): set<NodeInfo> {
    Elems(q.init) + (ToldBy(q.net, asked) - {q.self})
  }

  // Those of them not known to be silent.
  ghost function Alive(q: Search, asked: set<NodeInfo>): set<NodeInfo> {
    Met(q, asked) - (asked - Tellers(q.net, asked))
  }

  // ----- reachability through answers -----

  ghost predicate Link(x: NodeInfo, y: NodeInfo, q: Search) {
    q.net(x).Told? && y in q.net(x).contacts && y != q.self
  }

  ghost predicate Path(p: seq<NodeInfo>, q: Search) {
    && p != []
    && if |p| == 1 then p[0] in q.init else Path(p[..|p| - 1], q) && Link(p[|p| - 2], p[|p| - 1], q)
  }

  ghost predicate Reachable(x: NodeInfo, q: Search) {
    exists p :: Path(p, q) && p[|p| - 1] == x
  }

  ghost function ReachableTellers(q: Search): set<NodeInfo> {
    set x | x in q.universe && q.net(x).Told? && Reachable(x, q)
  }

  lemma ExtendPath(p: seq<NodeInfo>, x: NodeInfo, q: Search)
    requires Path(p, q) && Link(p[|p| - 1], x, q)
    ensures Reachable(x, q)
  {
    var longer := p + [x];
    assert longer[..|longer| - 1] == p;
    assert Path(longer, q) && longer[|longer| - 1] == x;
  }

  lemma MetReachable(q: Search, asked: set<NodeInfo>)
    requires forall x | x in asked :: Reachable(x, q)
    ensures forall x | x in Met(q, asked) :: Reachable(x, q)
  {
    forall x | x in Met(q, asked)
      ensures Reachable(x, q)
    {
      if x in q.init {
        assert Path([x], q);
      } else {
        var y :| y in asked && q.net(y).Told? && x in q.net(y).contacts;
        var p :| Path(p, q) && p[|p| - 1] == y;
        ExtendPath(p, x, q);
      }
    }
  }

  // A set that contains the start and what its members tell holds every
  // reachable contact.
  lemma {:induction false} PathStaysIn(p: seq<NodeInfo>, q: Search, s: set<NodeInfo>)
    requires Path(p, q)
    requires Met(q, s) <= s
    ensures p[|p| - 1] in s
  {
    if |p| == 1 {
      assert p[0] in Elems(q.init);
    } else {
      PathStaysIn(p[..|p| - 1], q, s);
      assert p[|p| - 1] in ToldBy(q.net, s);
    }
  }

  lemma ReachableIsMet(q: Search, s: set<NodeInfo>, x: NodeInfo)
    requires Reachable(x, q) && Met(q, s) <= s
    ensures x in s
  {
    var p :| Path(p, q) && p[|p| - 1] == x;
    PathStaysIn(p, q, s);
  }

  // ----- the buffer between rounds -----

  // The buffer holds, in order and without duplicates, exactly the contacts
  // met so far; the asked ones are marked queried and the tellers responded.
  ghost predicate Buffered(nodes: seq<Entry>, q: Search, asked: set<NodeInfo>) {
    && InOrder(nodes, q.target)
    && asked <= Met(q, asked)
    && Known(nodes) == Met(q, asked) <= q.universe
    && Queried(nodes) == asked
    && Responded(nodes) == Tellers(q.net, asked)
  }

  lemma StartBuffered(q: Search)
    requires World(q)
    ensures Buffered(Sorted(Fresh(q.init), q.target), q, {})
  {
    var nodes := Fresh(q.init);
    assert Infos(nodes) == q.init;
    InfosElems(nodes);
    assert Queried(nodes) == {} && Responded(nodes) == {};
    SortedSets(nodes, q.target);
  }

  lemma BufferedProper(nodes: seq<Entry>, q: Search, asked: set<NodeInfo>)
    requires World(q) && Buffered(nodes, q, asked)
    ensures Proper(nodes) && NonFailed(nodes) == Alive(q, asked)
  {
  }

  // Contacts asked in a round are known, so their answers are sensible.
  lemma RoundSensible(nodes: seq<Entry>, resolvers: seq<NodeInfo>, universe: set<NodeInfo>, net: Net, forValue: bool)
    requires NoDup(Infos(nodes)) && Known(nodes) <= universe
    requires DistinctIds(universe) && ToldBy(net, universe) <= universe
    requires Elems(resolvers) <= Known(nodes)
    ensures Sensible(nodes, LookupRound(resolvers, net, forValue), universe)
  {
  }
}
