// A node: its routing table drives lookups, and lookups feed it.
module Nodes {
  import opened Keys
  import opened Contacts
  import opened Closest
  import opened Buckets
  import opened Common
  import opened Geometry
  import opened BucketWalk
  import opened RoutingTables
  import opened Lookup
  import opened Rounds
  import opened LookupRuns

  // ResponseType::new_nodes refuses more than K contacts.
  predicate FitsResponse(contacts: seq<NodeInfo>) {
    |contacts| <= K
  }

  // The answer to FIND_NODE: the K closest contacts, or none if the target is
  // the own id or the table is empty. The response can always be built.
  method AnswerFindNode(table: RoutingTable, t: Key) returns (r: Option<seq<NodeInfo>>)
    requires table.Valid()
    ensures r.None? <==> t == table.id || AllEntries(table.buckets) == {}
    ensures r.Some? ==> FitsResponse(r.value) && |r.value| == Min(K, |AllEntries(table.buckets)|)
    ensures r.Some? ==> Elems(r.value) <= AllEntries(table.buckets) && Increasing(r.value, DistanceTo(t))
    // they are the contacts that get_n_closest gives
    ensures r.Some? ==> WalkAnswer(Ok(r.value), table.id, table.buckets, t, K)
  {
    var closest := table.GetNClosest(t, K);
    if closest.Err? {
      if t != table.id {
        WalkDelivers(table.id, table.buckets, t, K, closest);
      }
      return None;
    }
    WalkDelivers(table.id, table.buckets, t, K, closest);
    return Some(closest.value);
  }

  // The resolvers a lookup starts from make a proper start: the table never
  // holds the own id, nor two contacts with one id.
  lemma StartFromTable(own: Key, tbl: Table, n: nat, q: Search)
    requires TableOk(own, tbl) && own != q.target && q.self.id == own
    requires WalkAnswer(Ok(q.init), own, tbl, q.target, n)
    requires AllEntries(tbl) <= q.universe && DistinctIds(q.universe) && ToldBy(q.net, q.universe) <= q.universe
    ensures World(q)
  {
    IncreasingNoDup(q.init, DistanceTo(q.target));
    VisitedSize(own, tbl, q.target, n);
    forall x | x in q.init
      ensures x in AllEntries(tbl)
    {
      assert x in Elems(q.init);
    }
    if q.self in q.init {
      InEntries(own, tbl, 0, NUM_BUCKETS, q.self);
    }
  }

  // Storing a contact adds nobody else.
  lemma StoredEntries(own: Key, tbl: Table, x: NodeInfo, ping: Ping)
    requires TableOk(own, tbl)
    ensures AllEntries(Stored(own, tbl, x, ping)) <= AllEntries(tbl) + {x}
  {
    if x.id != own {
      var b := BucketOf(own, x.id);
      AddedProps(tbl[b], x, ping);
    }
  }

  // The stores of the responsive contacts, in their order.
  ghost function StoreEvents(contacts: seq<NodeInfo>, pings: nat -> Ping): (events: seq<Event>)
    ensures |events| == |contacts|
    ensures forall i | 0 <= i < |events| :: events[i] == Event(contacts[i], pings(i))
  {
    seq(|contacts|, i requires 0 <= i < |contacts| => Event(contacts[i], pings(i)))
  }

  lemma {:induction false} StoresAddOnly(own: Key, tbl: Table, contacts: seq<NodeInfo>, pings: nat -> Ping)
    requires TableOk(own, tbl)
    ensures AllEntries(StoredFrom(own, tbl, StoreEvents(contacts, pings))) <= AllEntries(tbl) + Elems(contacts)
    decreases |contacts|
  {
    if contacts != [] {
      var front, x := contacts[..|contacts| - 1], contacts[|contacts| - 1];
      var before := StoredFrom(own, tbl, StoreEvents(front, pings));
      StoresAddOnly(own, tbl, front, pings);
      LastEvent(own, tbl, contacts, pings);
      StoresKeepTable(own, tbl, StoreEvents(front, pings));
      StoredEntries(own, before, x, pings(|front|));
      LastElem(contacts);
    }
  }

  lemma LastElem(contacts: seq<NodeInfo>)
    requires contacts != []
    ensures Elems(contacts) == Elems(contacts[..|contacts| - 1]) + {contacts[|contacts| - 1]}
  {
  }

  lemma LastEvent(own: Key, tbl: Table, contacts: seq<NodeInfo>, pings: nat -> Ping)
    requires |tbl| == NUM_BUCKETS && contacts != []
    ensures var n := |contacts| - 1;
            StoredFrom(own, tbl, StoreEvents(contacts, pings)) ==
            Stored(own, StoredFrom(own, tbl, StoreEvents(contacts[..n], pings)), contacts[n], pings(n))
  {
    var n := |contacts| - 1;
    assert StoreEvents(contacts, pings)[..n] == StoreEvents(contacts[..n], pings);
  }

  // Node::find_node: start from the ALPHA closest contacts of the table, run
  // the lookup, and store the contacts that answered. The outcomes of the pings
  // that storing may need are inputs.
  method FindNode(table: RoutingTable, t: Key, self: NodeInfo, net: Net, pings: nat -> Ping,
                  ghost universe: set<NodeInfo>)
    returns (r: TableResult<seq<NodeInfo>>, ghost init: seq<NodeInfo>)
    requires table.Valid() && self.id == table.id
    requires AllEntries(table.buckets) <= universe && DistinctIds(universe) && ToldBy(net, universe) <= universe
    modifies table
    ensures table.Valid()
    ensures r.Err? <==> t == table.id || AllEntries(old(table.buckets)) == {}
    ensures r.Err? ==> table.buckets == old(table.buckets)
    ensures r.Err? ==> r.error == if t == table.id then AttemptStoreSelf else Empty
    // the lookup starts from the contacts that get_n_closest gives
    ensures r.Ok? ==> WalkAnswer(Ok(init), table.id, old(table.buckets), t, ALPHA)
    // its result is that of the run, exact under the condition of the lookup
    ensures r.Ok? ==> var q := Search(t, universe, net, init, self);
              && World(q) && r.value == LookupResult(q)
              && (ClosestOf(r.value, ReachableTellers(q), DistanceTo(t), K) <==> Lost(q) == {} || |Ahead(q)| >= K)
    // the responsive contacts are stored one after the other, and nobody else comes in
    ensures r.Ok? ==> var q := Search(t, universe, net, init, self);
              && table.buckets == StoredFrom(table.id, old(table.buckets), StoreEvents(Responsive(q), pings))
              && AllEntries(table.buckets)
                 <= AllEntries(old(table.buckets)) + Tellers(net, Elems(AlphaRounds(q).asked))
  {
    init := [];
    var start := table.GetNClosest(t, ALPHA);
    if t != table.id {
      WalkDelivers(table.id, table.buckets, t, ALPHA, start);
    }
    if start.Err? {
      return Err(start.error), init;
    }
    init := start.value;
    ghost var q := Search(t, universe, net, init, self);
    StartFromTable(table.id, table.buckets, ALPHA, q);
    var result, responsive;
    ghost var asked;
    result, responsive, asked := RunLookup(t, start.value, self, net, universe);
    ResponsiveAnswered(q);
    StoresAddOnly(table.id, table.buckets, responsive, pings);
    StoreAll(table, responsive, pings);
    r := Ok(result);
  }

  // The closing loop of find_node; failures to store are only logged.
  method StoreAll(table: RoutingTable, contacts: seq<NodeInfo>, pings: nat -> Ping)
    requires table.Valid()
    modifies table
    ensures table.Valid()
    ensures table.buckets == StoredFrom(table.id, old(table.buckets), StoreEvents(contacts, pings))
  {
    ghost var events := StoreEvents(contacts, pings);
    for i := 0 to |contacts|
      invariant table.Valid()
      invariant table.buckets == StoredFrom(table.id, old(table.buckets), events[..i])
    {
      assert events[..i + 1][..i] == events[..i];
      var _ := table.StoreNodeinfo(contacts[i], pings(i));
    }
    assert events[..|contacts|] == events;
  }
}
